/** Whole runs of the operator from the state `main` starts in (src/main.rs): any sequence of store
    changes, policy events and `reconcile_pod` tasks. Any number of such tasks are under way at once; they
    interleave where they wait for the API server, which is between two policies of their loop. */
module OperatorRuns {
  import opened Basics
  import opened Wrappers
  import opened Pods
  import opened Crd
  import opened Cel
  import opened RateLimiting
  import opened PodReconcile
  import opened PodProperties
  import opened PolicyReconcile
  import opened Entitlement

  /** A run of `reconcile_pod`: the policies it loaded at its start, how far it has come, and its own
      variables. */
  datatype Task = Task(pod: Pod, policies: seq<Policy>, at: nat, ttl: Option<nat>, stop: Option<Outcome>)

  /** `store` is the reflector's store, `refreshed` what it held when `cache` was last stored, and `log`
      all attempts so far, in the order in which they drew from the limiter. */
  datatype State = State(
    store: seq<Policy>, refreshed: seq<Policy>, cache: seq<Policy>,
    limiter: Limiter, metrics: Metrics, log: seq<Attempt>, tasks: seq<Task>)

  datatype Step =
    | StoreChanges(store: seq<Policy>)
    | PolicyEvent(policy: Policy, stamp: string, cluster: seq<Pod>, failing: set<nat>)
    | Begin(pod: Pod)
    | Advance(j: nat, r: Readings)

  /** `rate` is RATE_LIMIT_PER_MINUTE, `start` the clock reading when the limiter is made. */
  function Initial(rate: nat, start: nat): State {
    State([], [], [], NewLimiter(rate, start), Metrics(0, 0, 0, 0, 0), [], [])
  }

  predicate Enabled(s: State, step: Step) {
    step.Advance? ==>
      step.j < |s.tasks| && s.tasks[step.j].stop.None? && s.tasks[step.j].at < |s.tasks[step.j].policies|
  }

  /** What looking at its next policy makes of the shared variables and of task `j`'s own. */
  function Looked(lib: Library, s: State, j: nat, r: Readings): Scan
    requires Enabled(s, Advance(j, r))
  {
    var t := s.tasks[j];
    var p := t.policies[t.at];
    Visit(Decide(lib, t.pod, p.spec, r.now), t.pod, p, r, Scan(s.limiter, s.metrics, t.ttl, s.log, None))
  }

  function Store(s: State, j: nat, v: Scan): State
    requires j < |s.tasks|
  {
    var t := s.tasks[j];
    s.(limiter := v.limiter, metrics := v.metrics, log := v.attempts,
       tasks := s.tasks[j := t.(at := t.at + 1, ttl := v.ttl, stop := v.stop)])
  }

  function Next(lib: Library, s: State, step: Step): State
    requires Enabled(s, step)
  {
    match step
    case StoreChanges(store) => s.(store := store)
    case PolicyEvent(policy, stamp, cluster, failing) => (
      match RunFor(Judge(lib, policy.spec), policy, s.store, stamp, cluster, failing).cache
      case Some(cache) => s.(cache := cache, refreshed := s.store)
      case None => s)
    case Begin(pod) =>
      s.(metrics := s.metrics.(podsEvaluated := s.metrics.podsEvaluated + 1),
         tasks := s.tasks + [Task(pod, s.cache, 0, None, None)])
    case Advance(j, r) => Store(s, j, Looked(lib, s, j, r))
  }

  ghost predicate Runs(lib: Library, s: State, steps: seq<Step>)
    decreases |steps|
  {
    steps == [] || (Enabled(s, steps[0]) && Runs(lib, Next(lib, s, steps[0]), steps[1..]))
  }

  ghost function End(lib: Library, s: State, steps: seq<Step>): State
    requires Runs(lib, s, steps)
    decreases |steps|
  {
    if steps == [] then s else End(lib, Next(lib, s, steps[0]), steps[1..])
  }

  // ---------------------------------------------------------------- what every run keeps

  predicate Valid(p: Policy) {
    Validate(p.spec).Ok?
  }

  lemma CachedExactly(store: seq<Policy>, p: Policy)
    ensures p in ValidOnes(store) <==> p in store && Valid(p)
  {
    FilterMember((q: Policy) => Validate(q.spec).Ok?, store, p);
  }

  /** Tasks that have not returned early. */
  function Open(tasks: seq<Task>): nat {
    |Filter((t: Task) => t.stop.None?, tasks)|
  }

  /** Each evaluated pod has at most one of: a removal, a rate-limit hit, a task that may still cause one. */
  ghost predicate Counted(s: State) {
    && s.metrics.podsEvaluated == |s.tasks|
    && s.metrics.podsDeleted + s.metrics.rateLimited + Open(s.tasks) <= s.metrics.podsEvaluated
    && s.metrics.podsDeleted + s.metrics.rateLimited + s.metrics.evaluationErrors <= s.metrics.policyMatches
    && Tallied(s.metrics, s.log)
  }

  ghost predicate Logged(lib: Library, start: Limiter, s: State) {
    && Faithful(start, s.log) && s.limiter == AfterAttempts(start, s.log)
    && (forall a <- s.log :: Justified(lib, a) && Valid(a.policy))
  }

  ghost predicate Cached(s: State) {
    && s.cache == ValidOnes(s.refreshed)
    && (forall t <- s.tasks, p <- t.policies :: Valid(p))
  }

  ghost predicate Sound(lib: Library, start: Limiter, s: State) {
    Cached(s) && Counted(s) && Logged(lib, start, s)
  }

  /** What looking at one policy adds to the log. */
  lemma VisitLog(lib: Library, start: Limiter, d: Decision, pod: Pod, p: Policy, r: Readings, s: Scan)
    requires d == Decide(lib, pod, p.spec, r.now) && Valid(p) && s.stop.None?
    requires Faithful(start, s.attempts) && s.limiter == AfterAttempts(start, s.attempts)
    requires forall a <- s.attempts :: Justified(lib, a) && Valid(a.policy)
    ensures var v := Visit(d, pod, p, r, s);
            && Faithful(start, v.attempts) && v.limiter == AfterAttempts(start, v.attempts)
            && (forall a <- v.attempts :: Justified(lib, a) && Valid(a.policy))
  {
    if d.Act? {
      DecisionOnRemovable(lib, pod, p.spec, r.now);
      AttemptFacts(pod, p, r, s.limiter);
      TriedRightly(pod, p, r, s.limiter);
      OneDraw(pod, p, r, s.limiter);
      FaithfulAppend(start, s.attempts, [TryRemove(pod, p, r, s.limiter)]);
    }
  }

  lemma VisitCounts(d: Decision, pod: Pod, p: Policy, r: Readings, s: Scan)
    requires s.stop.None? && Tallied(s.metrics, s.attempts)
    ensures var v := Visit(d, pod, p, r, s); var m, m' := s.metrics, v.metrics;
            && Tallied(m', v.attempts)
            && m'.podsEvaluated == m.podsEvaluated
            && m'.podsDeleted + m'.rateLimited <= m.podsDeleted + m.rateLimited + (if v.stop.Some? then 1 else 0)
            && m'.podsDeleted + m'.rateLimited + m'.evaluationErrors + m.policyMatches
                 <= m.podsDeleted + m.rateLimited + m.evaluationErrors + m'.policyMatches
  {
    if d.Act? {
      var a := TryRemove(pod, p, r, s.limiter);
      CountsAppend(s.attempts, [a]);
      CountsOfOne(a);
    }
  }

  lemma StoreSound(lib: Library, start: Limiter, s: State, j: nat, v: Scan)
    requires Cached(s) && j < |s.tasks| && s.tasks[j].stop.None?
    requires Faithful(start, v.attempts) && v.limiter == AfterAttempts(start, v.attempts)
    requires forall a <- v.attempts :: Justified(lib, a) && Valid(a.policy)
    requires Tallied(v.metrics, v.attempts) && v.metrics.podsEvaluated == |s.tasks|
    requires v.metrics.podsDeleted + v.metrics.rateLimited + Open(s.tasks)
          <= v.metrics.podsEvaluated + (if v.stop.Some? then 1 else 0)
    requires v.metrics.podsDeleted + v.metrics.rateLimited + v.metrics.evaluationErrors <= v.metrics.policyMatches
    ensures Sound(lib, start, Store(s, j, v))
  {
    var t' := s.tasks[j].(at := s.tasks[j].at + 1, ttl := v.ttl, stop := v.stop);
    FilterUpdate((u: Task) => u.stop.None?, s.tasks, j, t');
    forall u <- s.tasks[j := t'], p <- u.policies
      ensures Valid(p)
    {
      assert s.tasks[j] in s.tasks && (u in s.tasks || u == t');
    }
  }

  lemma AdvanceSound(lib: Library, start: Limiter, s: State, j: nat, r: Readings)
    requires Sound(lib, start, s) && Enabled(s, Advance(j, r))
    ensures Sound(lib, start, Store(s, j, Looked(lib, s, j, r)))
  {
    var t := s.tasks[j];
    var p, scan := t.policies[t.at], Scan(s.limiter, s.metrics, t.ttl, s.log, None);
    var d := Decide(lib, t.pod, p.spec, r.now);
    assert Valid(p) by {
      assert t in s.tasks && p in t.policies;
    }
    VisitLog(lib, start, d, t.pod, p, r, scan);
    VisitCounts(d, t.pod, p, r, scan);
    StoreSound(lib, start, s, j, Visit(d, t.pod, p, r, scan));
  }

  lemma BeginSound(lib: Library, start: Limiter, s: State, pod: Pod)
    requires Sound(lib, start, s)
    ensures Sound(lib, start, Next(lib, s, Begin(pod)))
  {
    var t := Task(pod, s.cache, 0, None, None);
    FilterAppend((u: Task) => u.stop.None?, s.tasks, [t]);
    FilterOne((u: Task) => u.stop.None?, t);
    forall p <- s.cache
      ensures Valid(p)
    {
      CachedExactly(s.refreshed, p);
    }
  }

  lemma StepSound(lib: Library, start: Limiter, s: State, step: Step)
    requires Sound(lib, start, s) && Enabled(s, step)
    ensures Sound(lib, start, Next(lib, s, step))
  {
    match step
    case Begin(pod) => BeginSound(lib, start, s, pod);
    case Advance(j, r) => AdvanceSound(lib, start, s, j, r);
    case _ =>
  }

  lemma {:induction false} RunSound(lib: Library, start: Limiter, s: State, steps: seq<Step>)
    requires Sound(lib, start, s) && Runs(lib, s, steps)
    ensures Sound(lib, start, End(lib, s, steps))
    decreases |steps|
  {
    if steps != [] {
      StepSound(lib, start, s, steps[0]);
      RunSound(lib, start, Next(lib, s, steps[0]), steps[1..]);
    }
  }

  lemma InitialSound(lib: Library, rate: nat, start: nat)
    ensures Sound(lib, NewLimiter(rate, start), Initial(rate, start))
  {
  }

  lemma RunFaithful(lib: Library, rate: nat, start: nat, steps: seq<Step>)
    requires Runs(lib, Initial(rate, start), steps)
    ensures Faithful(NewLimiter(rate, start), End(lib, Initial(rate, start), steps).log)
  {
    InitialSound(lib, rate, start);
    RunSound(lib, NewLimiter(rate, start), Initial(rate, start), steps);
  }

  /** Removal safety: in every reachable state each attempt ever made, and so each delete or evict request
      sent, was by a valid policy that entitled it: the pod was in its scope, its condition was met at that
      instant, the namespace was not sheltered and it was no dry run; a request went out only when both limits
      granted it, and those were the grants of the limiter started with the operator. The cache is what
      validation leaves of the store as it was at the last refresh, and the metrics agree with the log and
      the tasks. */
  lemma RemovalSafety(lib: Library, rate: nat, start: nat, steps: seq<Step>)
    requires Runs(lib, Initial(rate, start), steps)
    ensures var s := End(lib, Initial(rate, start), steps);
            && (forall a <- s.log :: Justified(lib, a) && Valid(a.policy))
            && (forall a <- s.log :: Entitled(lib, a.pod, a.policy.spec, a.readings.now))
            && (forall a <- s.log | IsCall(a) :: a.globalOk && a.policyOk)
            && Faithful(NewLimiter(rate, start), s.log)
            && s.cache == ValidOnes(s.refreshed)
            && Accounted(s.metrics) && Tallied(s.metrics, s.log) && s.metrics.podsEvaluated == |s.tasks|
  {
    InitialSound(lib, rate, start);
    RunSound(lib, NewLimiter(rate, start), Initial(rate, start), steps);
    forall a <- End(lib, Initial(rate, start), steps).log
      ensures Entitled(lib, a.pod, a.policy.spec, a.readings.now)
    {
      RemovableExactly(lib, a.pod, a.policy.spec, a.readings.now);
    }
  }

  /** What a task adds to the log is for its pod, by a policy of the list it loaded. */
  lemma AttemptsOfTask(lib: Library, s: State, j: nat, r: Readings)
    requires Enabled(s, Advance(j, r))
    ensures s.log <= Next(lib, s, Advance(j, r)).log
    ensures forall a <- Next(lib, s, Advance(j, r)).log[|s.log|..] ::
              a.pod == s.tasks[j].pod && a.policy in s.tasks[j].policies
  {
    var t := s.tasks[j];
    AttemptFacts(t.pod, t.policies[t.at], r, s.limiter);
  }

  lemma {:induction false} TaskKeepsPolicies(lib: Library, s: State, steps: seq<Step>, j: nat)
    requires Runs(lib, s, steps) && j < |s.tasks|
    ensures j < |End(lib, s, steps).tasks|
    ensures var t := End(lib, s, steps).tasks[j]; t.pod == s.tasks[j].pod && t.policies == s.tasks[j].policies
    decreases |steps|
  {
    if steps != [] {
      TaskKeepsPolicies(lib, Next(lib, s, steps[0]), steps[1..], j);
    }
  }

  /** And that list is the policy cache as it was when the task began. */
  lemma {:induction false} TaskLoadedCache(lib: Library, s: State, steps: seq<Step>, j: nat) returns (k: nat)
    requires Runs(lib, s, steps) && |s.tasks| <= j < |End(lib, s, steps).tasks|
    ensures k < |steps| && Runs(lib, s, steps[..k])
    ensures var t := End(lib, s, steps).tasks[j];
            steps[k] == Begin(t.pod) && t.policies == End(lib, s, steps[..k]).cache
    decreases |steps|
  {
    var s', rest := Next(lib, s, steps[0]), steps[1..];
    if j < |s'.tasks| {
      k := 0;
      TaskKeepsPolicies(lib, s', rest, j);
    } else {
      var k' := TaskLoadedCache(lib, s', rest, j);
      k := k' + 1;
      Prepend(lib, s, steps[0], rest[..k']);
      assert steps[..k] == [steps[0]] + rest[..k'];
    }
  }

  /** No task of a reachable state meets a policy without its TTL or expression. */
  lemma MissingParametersNeverMet(lib: Library, rate: nat, start: nat, steps: seq<Step>, j: nat, now: int)
    requires Runs(lib, Initial(rate, start), steps) && j < |End(lib, Initial(rate, start), steps).tasks|
    ensures var t := End(lib, Initial(rate, start), steps).tasks[j];
            forall p <- t.policies ::
              Decide(lib, t.pod, p.spec, now) != MissingTtl && Decide(lib, t.pod, p.spec, now) != MissingExpression
  {
    InitialSound(lib, rate, start);
    RunSound(lib, NewLimiter(rate, start), Initial(rate, start), steps);
    var s := End(lib, Initial(rate, start), steps);
    var t := s.tasks[j];
    assert t in s.tasks;
    forall p <- t.policies
      ensures Decide(lib, t.pod, p.spec, now) != MissingTtl && Decide(lib, t.pod, p.spec, now) != MissingExpression
    {
      assert Valid(p);
      ValidHasParameters(lib, p.spec, t.pod, now);
    }
  }

  lemma ValidHasParameters(lib: Library, spec: Spec, pod: Pod, now: int)
    requires Validate(spec).Ok?
    ensures Decide(lib, pod, spec, now) != MissingTtl && Decide(lib, pod, spec, now) != MissingExpression
  {
  }

  // ---------------------------------------------------------------- a task that is not interrupted

  /** The variables of task `j` and those it shares, as its loop sees them. */
  function ScanOf(s: State, j: nat): Scan
    requires j < |s.tasks|
  {
    Scan(s.limiter, s.metrics, s.tasks[j].ttl, s.log, s.tasks[j].stop)
  }

  /** The steps by which task `j` alone looks at its next policies. */
  function Advances(j: nat, rs: seq<Readings>): seq<Step> {
    seq(|rs|, i requires 0 <= i < |rs| => Advance(j, rs[i]))
  }

  predicate Finished(t: Task) {
    t.stop.Some? || t.at == |t.policies|
  }

  /** What one step of a task is to its loop; nothing else changes. */
  lemma AdvanceScan(lib: Library, s: State, j: nat, rs: seq<Readings>)
    requires j < |s.tasks| && s.tasks[j].at < |rs| == |s.tasks[j].policies|
    requires Enabled(s, Advance(j, rs[s.tasks[j].at]))
    ensures var t := s.tasks[j]; var ds := Decisions(lib, t.pod, t.policies, rs); var s' := Next(lib, s, Advance(j, rs[t.at]));
            && ScanOf(s', j) == Visit(ds[t.at], t.pod, t.policies[t.at], rs[t.at], ScanOf(s, j))
            && s'.tasks[j] == t.(at := t.at + 1, ttl := s'.tasks[j].ttl, stop := s'.tasks[j].stop)
            && s' == s.(limiter := s'.limiter, metrics := s'.metrics, log := s'.log, tasks := s.tasks[j := s'.tasks[j]])
            && ScanAll(ds[t.at..], t.pod, t.policies[t.at..], rs[t.at..], ScanOf(s, j))
               == ScanAll(ds[t.at + 1..], t.pod, t.policies[t.at + 1..], rs[t.at + 1..], ScanOf(s', j))
  {
    var t := s.tasks[j];
    ScanHead(Decisions(lib, t.pod, t.policies, rs), t.pod, t.policies, rs, t.at, ScanOf(s, j));
  }

  lemma {:induction false} TaskAlone(lib: Library, s: State, j: nat, rs: seq<Readings>, n: nat)
    requires j < |s.tasks| && s.tasks[j].at <= n <= |rs| == |s.tasks[j].policies|
    requires Runs(lib, s, Advances(j, rs[s.tasks[j].at..n]))
    ensures var t := s.tasks[j]; var ds := Decisions(lib, t.pod, t.policies, rs); var e := End(lib, s, Advances(j, rs[t.at..n]));
            && j < |e.tasks| && e.tasks[j] == t.(at := n, ttl := e.tasks[j].ttl, stop := e.tasks[j].stop)
            && e == s.(limiter := e.limiter, metrics := e.metrics, log := e.log, tasks := s.tasks[j := e.tasks[j]])
            && (Finished(e.tasks[j]) ==>
                 ScanOf(e, j) == ScanAll(ds[t.at..], t.pod, t.policies[t.at..], rs[t.at..], ScanOf(s, j)))
    decreases n - s.tasks[j].at
  {
    var t := s.tasks[j];
    var steps := Advances(j, rs[t.at..n]);
    if t.at < n {
      var s' := Next(lib, s, steps[0]);
      AdvanceScan(lib, s, j, rs);
      assert steps[1..] == Advances(j, rs[t.at + 1..n]);
      TaskAlone(lib, s', j, rs, n);
    }
  }

  lemma {:induction false} TaskAloneEnds(lib: Library, s: State, j: nat, rs: seq<Readings>) returns (n: nat)
    requires j < |s.tasks| && s.tasks[j].at <= |rs| == |s.tasks[j].policies|
    ensures s.tasks[j].at <= n <= |rs|
    ensures var steps := Advances(j, rs[s.tasks[j].at..n]);
            Runs(lib, s, steps) && j < |End(lib, s, steps).tasks| && Finished(End(lib, s, steps).tasks[j])
    decreases |rs| - s.tasks[j].at
  {
    var t := s.tasks[j];
    n := t.at;
    if !Finished(t) {
      AdvanceScan(lib, s, j, rs);
      n := TaskAloneEnds(lib, Next(lib, s, Advance(j, rs[t.at])), j, rs);
      var steps := Advances(j, rs[t.at..n]);
      assert steps[1..] == Advances(j, rs[t.at + 1..n]);
    }
  }

  /** A task that begins and runs with no other step in between: whenever it has finished, it has done
      exactly what the specification of `reconcile_pod` says, which is what the method
      `Context.ReconcilePod` is proved to do, and nothing else. */
  lemma UninterruptedTask(lib: Library, s: State, pod: Pod, rs: seq<Readings>, n: nat)
    requires n <= |rs| == |s.cache|
    requires Runs(lib, s, [Begin(pod)] + Advances(|s.tasks|, rs[..n]))
    ensures var s' := End(lib, s, [Begin(pod)] + Advances(|s.tasks|, rs[..n]));
            && |s'.tasks| == |s.tasks| + 1 && s'.tasks[..|s.tasks|] == s.tasks
            && s'.store == s.store && s'.refreshed == s.refreshed && s'.cache == s.cache
            && var t := s'.tasks[|s.tasks|]; var e := Reconcile(lib, pod, s.cache, rs, s.limiter, s.metrics);
               && t.pod == pod && t.policies == s.cache && t.at == n
               && (Finished(t) ==>
                    && t.ttl == e.ttl && t.stop == e.stop
                    && s'.limiter == e.limiter && s'.metrics == e.metrics && s'.log == s.log + e.attempts)
  {
    var begun, j, steps := Next(lib, s, Begin(pod)), |s.tasks|, Advances(|s.tasks|, rs[..n]);
    assert ([Begin(pod)] + steps)[1..] == steps;
    assert rs[0..n] == rs[..n];
    TaskAlone(lib, begun, j, rs, n);
    var ds := Decisions(lib, pod, s.cache, rs);
    ScanShift(ds, pod, s.cache, rs, Start(s.limiter, s.metrics), s.log);
    assert s.log + [] == s.log;
    assert ds[0..] == ds && s.cache[0..] == s.cache && rs[0..] == rs;
  }

  /** And there is such a run, whatever the readings. */
  lemma UninterruptedTaskEnds(lib: Library, s: State, pod: Pod, rs: seq<Readings>) returns (n: nat)
    requires |rs| == |s.cache|
    ensures n <= |rs|
    ensures var steps := [Begin(pod)] + Advances(|s.tasks|, rs[..n]);
            && Runs(lib, s, steps) && |End(lib, s, steps).tasks| > |s.tasks|
            && Finished(End(lib, s, steps).tasks[|s.tasks|])
  {
    n := TaskAloneEnds(lib, Next(lib, s, Begin(pod)), |s.tasks|, rs);
    assert rs[0..n] == rs[..n];
    Prepend(lib, s, Begin(pod), Advances(|s.tasks|, rs[..n]));
  }

  lemma Prepend(lib: Library, s: State, step: Step, rest: seq<Step>)
    requires Enabled(s, step) && Runs(lib, Next(lib, s, step), rest)
    ensures Runs(lib, s, [step] + rest) && End(lib, s, [step] + rest) == End(lib, Next(lib, s, step), rest)
  {
    assert ([step] + rest)[1..] == rest;
  }
}
