/** Whole runs of the operator on `n` worker threads, whose calls to the global limiter overlap: every atomic
    operation of such a call is a step, as in ConcurrentBucket. A worker runs a task from where it looks at a
    policy to where it waits for the API server; there may be any number of tasks. What the policy limiter
    answers is left open, except that it allows everything to a policy without a limit. */
module ParallelRuns {
  import opened Wrappers
  import opened Pods
  import opened Crd
  import opened Cel
  import opened RateLimiting
  import opened PodReconcile
  import opened PodProperties
  import opened PolicyReconcile
  import opened Entitlement
  import opened OperatorRuns
  import opened RemovalBudgets
  import B = ConcurrentBucket

  /** A worker calls the global limiter for a policy of a task: `called` says that the call has begun, and
      `granted` that it has drawn a token. */
  datatype Worker = Free | Drawing(task: nat, pod: Pod, policy: Policy, r: Readings, called: bool, granted: bool)

  datatype Shared = Shared(
    store: seq<Policy>, cache: seq<Policy>, log: seq<Attempt>, tasks: seq<Task>, bucket: B.State, workers: seq<Worker>)

  datatype Move =
    | Change(store: seq<Policy>)
    | Event(policy: Policy)
    | Start(pod: Pod)
    | Skip(j: nat, instant: int)             // task `j` does not act on its next policy
    | Take(i: nat, j: nat, r: Readings)     // worker `i` finds that task `j` acts on its next policy
    | Inside(i: nat, step: B.Step)
    | Finish(i: nat, policyOk: bool)        // the call is over; the policy limiter answers and a request is made
    | Tick(now: nat)

  /** `rate` is RATE_LIMIT_PER_MINUTE, `start` the clock reading when the limiter is made. */
  function Fresh(rate: nat, start: nat, n: nat): Shared {
    Shared([], [], [], [], B.Initial(rate, start, n), seq(n, _ => Free))
  }

  predicate Waiting(s: Shared, j: nat) {
    && j < |s.tasks| && s.tasks[j].stop.None? && s.tasks[j].at < |s.tasks[j].policies|
    && forall w <- s.workers :: w.Drawing? ==> w.task != j
  }

  function DecisionOn(lib: Library, t: Task, now: int): Decision
    requires t.at < |t.policies|
  {
    Decide(lib, t.pod, t.policies[t.at].spec, now)
  }

  /** A call takes at most `d` seconds from its clock reading to its store. */
  predicate Possible(lib: Library, s: Shared, m: Move, d: nat) {
    match m
    case Change(_) => true
    case Event(_) => true
    case Start(_) => true
    case Skip(j, instant) => Waiting(s, j) && !DecisionOn(lib, s.tasks[j], instant).Act?
    case Take(i, j, r) =>
      && i < |s.workers| && s.workers[i].Free?
      && Waiting(s, j) && DecisionOn(lib, s.tasks[j], r.now).Act?
    case Inside(i, step) =>
      && i < |s.workers| && s.workers[i].Drawing?
      && !step.Tick? && step.i == i && (step.ReadClock? <==> !s.workers[i].called)
      && (step.ReadClock? ==> step.now == s.workers[i].r.globalNow)
      && B.Enabled(s.bucket, step) && B.Timed(s.bucket, step, d)
    case Finish(i, policyOk) =>
      && i < |s.workers| && s.workers[i].Drawing? && s.workers[i].called && s.workers[i].task < |s.tasks|
      && i < |s.bucket.threads| && s.bucket.threads[i].Idle?
      && (EffectiveLimit(s.workers[i].policy.spec.limits.maxDeletesPerMinute).None? ==> policyOk)
    case Tick(now) => s.bucket.clock <= now
  }

  /** The attempt of a worker whose call is over. */
  function AttemptOf(w: Worker, policyOk: bool): Attempt
    requires w.Drawing?
  {
    Attempt(w.pod, w.policy, w.r, w.granted, policyOk, if w.granted && policyOk then Perform(w.policy.spec, w.r) else Denied)
  }

  function After(lib: Library, s: Shared, m: Move, d: nat): Shared
    requires Possible(lib, s, m, d)
  {
    match m
    case Change(store) => s.(store := store)
    case Event(policy) => if Judge(lib, policy.spec).Good? then s.(cache := ValidOnes(s.store)) else s
    case Start(pod) => s.(tasks := s.tasks + [Task(pod, s.cache, 0, None, None)])
    case Skip(j, instant) =>
      var t := s.tasks[j];
      var decision := DecisionOn(lib, t, instant);
      var ttl := if decision.Pending? then Sooner(t.ttl, decision.left) else t.ttl;
      s.(tasks := s.tasks[j := t.(at := t.at + 1, ttl := ttl)])
    case Take(i, j, r) =>
      var t := s.tasks[j];
      s.(workers := s.workers[i := Drawing(j, t.pod, t.policies[t.at], r, false, false)])
    case Inside(i, step) =>
      var w := s.workers[i];
      s.(bucket := B.Next(s.bucket, step),
         workers := s.workers[i := w.(called := true, granted := w.granted || step.Swap?)])
    case Finish(i, policyOk) =>
      var w := s.workers[i];
      var a, t := AttemptOf(w, policyOk), s.tasks[w.task];
      s.(log := s.log + [a], workers := s.workers[i := Free],
         tasks := s.tasks[w.task := t.(at := t.at + 1, stop := StopAfter(a.effect))])
    case Tick(now) => s.(bucket := B.Next(s.bucket, B.Tick(now)))
  }

  ghost predicate Moves(lib: Library, s: Shared, moves: seq<Move>, d: nat)
    decreases |moves|
  {
    moves == [] || (Possible(lib, s, moves[0], d) && Moves(lib, After(lib, s, moves[0], d), moves[1..], d))
  }

  ghost function Final(lib: Library, s: Shared, moves: seq<Move>, d: nat): Shared
    requires Moves(lib, s, moves, d)
    decreases |moves|
  {
    if moves == [] then s else Final(lib, After(lib, s, moves[0], d), moves[1..], d)
  }

  // ---------------------------------------------------------------- safety and the budget

  /** The workers that have drawn a token for a request not yet made. */
  ghost function TokenHolders(workers: seq<Worker>): set<nat> {
    set i: nat | i < |workers| && workers[i].Drawing? && workers[i].granted
  }

  ghost predicate PoliciesValid(s: Shared) {
    (forall p <- s.cache :: Valid(p)) && (forall t <- s.tasks, p <- t.policies :: Valid(p))
  }

  ghost predicate Entitles(lib: Library, w: Worker) {
    w.Drawing? ==> Removable(lib, w.pod, w.policy.spec, w.r.now) && Valid(w.policy)
  }

  /** An attempt that is justified, with a request only on two grants. */
  ghost predicate Proper(lib: Library, a: Attempt) {
    Justified(lib, a) && Valid(a.policy) && (IsCall(a) ==> a.globalOk && a.policyOk)
  }

  ghost predicate Safe(lib: Library, s: Shared) {
    && PoliciesValid(s)
    && (forall w <- s.workers :: Entitles(lib, w))
    && (forall a <- s.log :: Proper(lib, a))
  }

  ghost predicate Paid(s: Shared, rate: nat, start: nat, d: nat) {
    && B.Grown(s.bucket, rate, start, |s.workers|, d)
    && Removals(s.log) + |TokenHolders(s.workers)| <= s.bucket.grants
  }

  lemma AttemptProper(lib: Library, w: Worker, policyOk: bool)
    requires w.Drawing? && Entitles(lib, w)
    ensures Proper(lib, AttemptOf(w, policyOk))
  {
  }

  lemma TakeEntitles(lib: Library, t: Task, j: nat, r: Readings)
    requires t.at < |t.policies| && (forall p <- t.policies :: Valid(p)) && DecisionOn(lib, t, r.now).Act?
    ensures Entitles(lib, Drawing(j, t.pod, t.policies[t.at], r, false, false))
  {
    DecisionOnRemovable(lib, t.pod, t.policies[t.at].spec, r.now);
  }

  lemma UpdatedTaskValid(s: Shared, j: nat, t': Task)
    requires PoliciesValid(s) && j < |s.tasks| && t'.policies == s.tasks[j].policies
    ensures PoliciesValid(s.(tasks := s.tasks[j := t']))
  {
    forall t <- s.tasks[j := t'], p <- t.policies
      ensures Valid(p)
    {
      assert s.tasks[j] in s.tasks && (t in s.tasks || t == t');
    }
  }

  lemma MoveSafe(lib: Library, s: Shared, m: Move, d: nat)
    requires Safe(lib, s) && Possible(lib, s, m, d)
    ensures Safe(lib, After(lib, s, m, d))
  {
    match m
    case Event(policy) =>
      forall p <- ValidOnes(s.store)
        ensures Valid(p)
      {
        CachedExactly(s.store, p);
      }
    case Skip(j, instant) => UpdatedTaskValid(s, j, After(lib, s, m, d).tasks[j]);
    case Take(i, j, r) =>
      assert s.tasks[j] in s.tasks;
      TakeEntitles(lib, s.tasks[j], j, r);
    case Inside(i, step) => assert s.workers[i] in s.workers;
    case Finish(i, policyOk) =>
      var w := s.workers[i];
      assert w in s.workers;
      AttemptProper(lib, w, policyOk);
      UpdatedTaskValid(s, w.task, After(lib, s, m, d).tasks[w.task]);
    case _ =>
  }

  lemma {:induction false} RemovalsSnoc(log: seq<Attempt>, a: Attempt)
    ensures Removals(log + [a]) == Removals(log) + (if IsCall(a) then 1 else 0)
  {
    if log == [] {
      assert log + [a] == [a] && [a][1..] == [];
    } else {
      assert (log + [a])[1..] == log[1..] + [a];
      RemovalsSnoc(log[1..], a);
    }
  }

  lemma TokenHoldersUpdate(workers: seq<Worker>, i: nat, w: Worker)
    requires i < |workers|
    ensures TokenHolders(workers[i := w])
         == if w.Drawing? && w.granted then TokenHolders(workers) + {i} else TokenHolders(workers) - {i}
  {
  }

  /** A request is made from the token of the worker that makes it. */
  lemma FinishPaid(s: Shared, i: nat, policyOk: bool)
    requires i < |s.workers| && s.workers[i].Drawing?
    ensures Removals(s.log + [AttemptOf(s.workers[i], policyOk)]) + |TokenHolders(s.workers[i := Free])|
         <= Removals(s.log) + |TokenHolders(s.workers)|
  {
    var a := AttemptOf(s.workers[i], policyOk);
    RemovalsSnoc(s.log, a);
    TokenHoldersUpdate(s.workers, i, Free);
    assert IsCall(a) ==> i in TokenHolders(s.workers);
  }

  lemma InsidePaid(s: Shared, i: nat, step: B.Step, w: Worker)
    requires i < |s.workers| && s.workers[i].Drawing? && B.Enabled(s.bucket, step)
    requires w == s.workers[i].(called := true, granted := s.workers[i].granted || step.Swap?)
    ensures |TokenHolders(s.workers[i := w])| - |TokenHolders(s.workers)| <= B.Next(s.bucket, step).grants - s.bucket.grants
  {
    TokenHoldersUpdate(s.workers, i, w);
    assert s.workers[i].granted ==> i in TokenHolders(s.workers);
  }

  lemma MovePaid(lib: Library, s: Shared, m: Move, rate: nat, start: nat, d: nat)
    requires Paid(s, rate, start, d) && Possible(lib, s, m, d)
    ensures Paid(After(lib, s, m, d), rate, start, d) && |After(lib, s, m, d).workers| == |s.workers|
  {
    var s' := After(lib, s, m, d);
    match m
    case Take(i, _, _) => TokenHoldersUpdate(s.workers, i, s'.workers[i]);
    case Inside(i, step) =>
      B.GrownStep(s.bucket, step, rate, start, |s.workers|, d);
      InsidePaid(s, i, step, s'.workers[i]);
    case Finish(i, policyOk) => FinishPaid(s, i, policyOk);
    case Tick(now) => B.GrownStep(s.bucket, B.Tick(now), rate, start, |s.workers|, d);
    case _ =>
  }

  lemma {:induction false} RunPaid(lib: Library, s: Shared, moves: seq<Move>, rate: nat, start: nat, d: nat)
    requires Moves(lib, s, moves, d) && Safe(lib, s) && Paid(s, rate, start, d)
    ensures var e := Final(lib, s, moves, d); Safe(lib, e) && Paid(e, rate, start, d) && |e.workers| == |s.workers|
    decreases |moves|
  {
    if moves != [] {
      MoveSafe(lib, s, moves[0], d);
      MovePaid(lib, s, moves[0], rate, start, d);
      RunPaid(lib, After(lib, s, moves[0], d), moves[1..], rate, start, d);
    }
  }

  /** However the calls of `n` workers to the global limiter overlap: every attempt is by a valid policy that
      entitled it, every request has two grants, and there are at most `rate` requests for the start and
      `rate` for each worker in every `60 - d` seconds. */
  lemma ParallelRemovalBudget(lib: Library, rate: nat, start: nat, n: nat, moves: seq<Move>, d: nat)
    requires d < WINDOW && Moves(lib, Fresh(rate, start, n), moves, d)
    ensures var e := Final(lib, Fresh(rate, start, n), moves, d);
            && (forall a <- e.log :: Proper(lib, a) && Entitled(lib, a.pod, a.policy.spec, a.readings.now))
            && start <= e.bucket.clock
            && Removals(e.log) <= rate * (1 + n * B.Windows(e.bucket.clock - start, WINDOW - d))
  {
    var s := Fresh(rate, start, n);
    assert B.History(s.bucket, rate, start, n, [], d);
    assert TokenHolders(s.workers) == {};
    RunPaid(lib, s, moves, rate, start, d);
    var e := Final(lib, s, moves, d);
    B.GrownBudget(e.bucket, rate, start, n, d);
    forall a <- e.log
      ensures Entitled(lib, a.pod, a.policy.spec, a.readings.now)
    {
      assert Proper(lib, a);
      RemovableExactly(lib, a.pod, a.policy.spec, a.readings.now);
    }
  }
}
