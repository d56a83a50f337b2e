/** What the policy cache holds in the course of a run, and what that means for a policy that was rejected
    (src/controller.rs:541-620). */
module CacheRuns {
  import opened Basics
  import opened Wrappers
  import opened Pods
  import opened Crd
  import opened Cel
  import opened RateLimiting
  import opened PodReconcile
  import opened PodProperties
  import opened PolicyReconcile
  import opened OperatorRuns

  predicate Accepts(lib: Library, step: Step) {
    step.PolicyEvent? && Judge(lib, step.policy.spec).Good?
  }

  /** The last policy event that was accepted. */
  function LastAccepted(lib: Library, steps: seq<Step>): (k: Option<nat>)
    ensures k.None? ==> forall i | 0 <= i < |steps| :: !Accepts(lib, steps[i])
    ensures k.Some? ==> k.value < |steps| && Accepts(lib, steps[k.value])
    ensures k.Some? ==> forall i | k.value < i < |steps| :: !Accepts(lib, steps[i])
    decreases |steps|
  {
    if steps == [] then None
    else
      var last := |steps| - 1;
      if Accepts(lib, steps[last]) then Some(last) else LastAccepted(lib, steps[..last])
  }

  /** What the last store change of a run put into the store. */
  function StoreAfter(steps: seq<Step>): seq<Policy>
    decreases |steps|
  {
    if steps == [] then []
    else
      var last := |steps| - 1;
      if steps[last].StoreChanges? then steps[last].store else StoreAfter(steps[..last])
  }

  lemma StepCache(lib: Library, s: State, step: Step)
    requires Enabled(s, step)
    ensures Next(lib, s, step).store == if step.StoreChanges? then step.store else s.store
    ensures Next(lib, s, step).cache == if Accepts(lib, step) then ValidOnes(s.store) else s.cache
  {
  }

  lemma {:induction false} Unwind(lib: Library, s: State, steps: seq<Step>)
    requires Runs(lib, s, steps) && steps != []
    ensures var front, last := steps[..|steps| - 1], steps[|steps| - 1];
            && Runs(lib, s, front) && Enabled(End(lib, s, front), last)
            && End(lib, s, steps) == Next(lib, End(lib, s, front), last)
    decreases |steps|
  {
    if |steps| > 1 {
      var s' := Next(lib, s, steps[0]);
      Unwind(lib, s', steps[1..]);
      assert steps[1..][..|steps| - 2] == steps[..|steps| - 1][1..];
    }
  }

  /** The valid part of the store at the last accepted event. */
  function CacheAfter(lib: Library, steps: seq<Step>): seq<Policy> {
    match LastAccepted(lib, steps)
    case None => []
    case Some(k) => ValidOnes(StoreAfter(steps[..k]))
  }

  lemma CacheAfterLast(lib: Library, steps: seq<Step>)
    requires steps != []
    ensures var front, last := steps[..|steps| - 1], steps[|steps| - 1];
            && StoreAfter(steps) == (if last.StoreChanges? then last.store else StoreAfter(front))
            && CacheAfter(lib, steps) == if Accepts(lib, last) then ValidOnes(StoreAfter(front)) else CacheAfter(lib, front)
  {
    var k := LastAccepted(lib, steps);
    if k.Some? && k.value < |steps| - 1 {
      assert steps[..|steps| - 1][..k.value] == steps[..k.value];
    }
  }

  /** In every run the cache is the valid part of the store as it was at the last accepted policy event,
      and empty before the first; rejected events leave no trace in it. */
  lemma {:induction false} CacheOfRun(lib: Library, rate: nat, start: nat, steps: seq<Step>)
    requires Runs(lib, Initial(rate, start), steps)
    ensures var s := End(lib, Initial(rate, start), steps);
            s.store == StoreAfter(steps) && s.cache == CacheAfter(lib, steps)
    decreases |steps|
  {
    if steps != [] {
      var s, last := Initial(rate, start), |steps| - 1;
      Unwind(lib, s, steps);
      CacheOfRun(lib, rate, start, steps[..last]);
      StepCache(lib, End(lib, s, steps[..last]), steps[last]);
      CacheAfterLast(lib, steps);
    }
  }

  predicate SameKey(p: Policy, q: Policy) {
    p.name == q.name && p.namespace == q.namespace
  }

  /** Whether a policy is cached does not depend on its own event. A rejection says that the cache will
      not include the policy, but after any run it does so exactly if an event of any policy was accepted,
      the policy was in the store at the last of these, and it passes validation, which does not look at
      whether its expression compiles. Likewise for any version of it, which may be one from before it was
      edited into what was rejected. */
  lemma CachedAfterRunExactly(lib: Library, rate: nat, start: nat, steps: seq<Step>, p: Policy)
    requires Runs(lib, Initial(rate, start), steps)
    ensures var s, k := End(lib, Initial(rate, start), steps), LastAccepted(lib, steps);
            && (p in s.cache <==> k.Some? && Valid(p) && p in StoreAfter(steps[..k.value]))
            && ((exists q <- s.cache :: SameKey(q, p))
                <==> k.Some? && exists q <- StoreAfter(steps[..k.value]) :: SameKey(q, p) && Valid(q))
  {
    CacheOfRun(lib, rate, start, steps);
    var s, k := End(lib, Initial(rate, start), steps), LastAccepted(lib, steps);
    if k.Some? {
      var store := StoreAfter(steps[..k.value]);
      forall q: Policy
        ensures q in s.cache <==> q in store && Valid(q)
      {
        CachedExactly(store, q);
      }
    }
  }

  /** A policy that validates but does not compile: after its own rejection it is cached exactly if it was
      in the store at the last event accepted before. */
  lemma UncompilableCachedExactly(lib: Library, rate: nat, start: nat, steps: seq<Step>, rejected: Step)
    requires Runs(lib, Initial(rate, start), steps + [rejected])
    requires rejected.PolicyEvent? && Uncompilable(lib, rejected.policy.spec)
    ensures var k := LastAccepted(lib, steps);
            (rejected.policy in End(lib, Initial(rate, start), steps + [rejected]).cache
             <==> k.Some? && rejected.policy in StoreAfter(steps[..k.value]))
  {
    var all := steps + [rejected];
    assert all[..|steps|] == steps;
    JudgeMeaning(lib, rejected.policy.spec);
    CachedAfterRunExactly(lib, rate, start, all, rejected.policy);
    var k := LastAccepted(lib, steps);
    assert LastAccepted(lib, all) == k;
    if k.Some? {
      assert all[..k.value] == steps[..k.value];
    }
  }

  // ---------------------------------------------------------------- two such runs

  lemma {:induction false} Append(lib: Library, s: State, steps: seq<Step>, step: Step)
    requires Runs(lib, s, steps) && Enabled(End(lib, s, steps), step)
    ensures Runs(lib, s, steps + [step])
    ensures End(lib, s, steps + [step]) == Next(lib, End(lib, s, steps), step)
    decreases |steps|
  {
    if steps == [] {
      Prepend(lib, s, step, []);
      assert [] + [step] == [step] + [];
    } else {
      Append(lib, Next(lib, s, steps[0]), steps[1..], step);
      assert (steps + [step])[1..] == steps[1..] + [step];
    }
  }

  /** The store is changed and the event of one policy handled. */
  lemma ChangeAndHandle(lib: Library, s: State, steps: seq<Step>, store: seq<Policy>, p: Policy) returns (longer: seq<Step>)
    requires Runs(lib, s, steps)
    ensures longer == steps + [StoreChanges(store), PolicyEvent(p, "", [], {})] && Runs(lib, s, longer)
    ensures var e := End(lib, s, steps);
            End(lib, s, longer) == if Judge(lib, p.spec).Good?
                                   then e.(store := store, refreshed := store, cache := ValidOnes(store))
                                   else e.(store := store)
  {
    var changes, event := StoreChanges(store), PolicyEvent(p, "", [], {});
    Append(lib, s, steps, changes);
    Append(lib, s, steps + [changes], event);
    longer := steps + [changes] + [event];
  }

  /** The policy is rejected, and cached as soon as another one is accepted. */
  lemma UncompilablePolicyGetsCached(lib: Library, rate: nat, start: nat, bad: Policy, good: Policy) returns (steps: seq<Step>)
    requires Uncompilable(lib, bad.spec) && Judge(lib, good.spec).Good?
    ensures Runs(lib, Initial(rate, start), steps) && bad in End(lib, Initial(rate, start), steps).cache
    ensures |steps| == 4 && steps[1].PolicyEvent? && steps[1].policy == bad
  {
    var s, store := Initial(rate, start), [bad, good];
    JudgeMeaning(lib, bad.spec);
    steps := ChangeAndHandle(lib, s, [], store, bad);
    steps := ChangeAndHandle(lib, s, steps, store, good);
    CachedExactly(store, bad);
  }

  /** A task that starts with one cached policy and unused limits. */
  lemma ActsOnCached(lib: Library, s: State, steps: seq<Step>, p: Policy, pod: Pod, r: Readings, rate: nat, start: nat)
    returns (longer: seq<Step>)
    requires Runs(lib, s, steps)
    requires var e := End(lib, s, steps); e.cache == [p] && e.tasks == [] && e.log == [] && e.limiter == NewLimiter(rate, start)
    requires rate > 0 && Removable(lib, pod, p.spec, r.now) && (p.spec.then_.actionType.Evict? ==> r.serializes)
    ensures longer == steps + [Begin(pod), Advance(0, r)] && Runs(lib, s, longer)
    ensures var e := End(lib, s, longer);
            && e.store == End(lib, s, steps).store
            && |e.log| == 1 && e.log[0].policy == p && e.log[0].pod == pod && IsCall(e.log[0])
  {
    Append(lib, s, steps, Begin(pod));
    Append(lib, s, steps + [Begin(pod)], Advance(0, r));
    DecisionOnRemovable(lib, pod, p.spec, r.now);
    longer := steps + [Begin(pod)] + [Advance(0, r)];
  }

  lemma RejectedEditStaysCached(lib: Library, rate: nat, start: nat, p: Policy, q: Policy) returns (steps: seq<Step>)
    requires Judge(lib, p.spec).Good? && !Judge(lib, q.spec).Good?
    ensures steps == [StoreChanges([p]), PolicyEvent(p, "", [], {})] + [StoreChanges([q]), PolicyEvent(q, "", [], {})]
    ensures Runs(lib, Initial(rate, start), steps)
    ensures End(lib, Initial(rate, start), steps) == Initial(rate, start).(store := [q], refreshed := [p], cache := [p])
  {
    var s := Initial(rate, start);
    FilterOne((x: Policy) => Validate(x.spec).Ok?, p);
    steps := ChangeAndHandle(lib, s, [], [p], p);
    steps := ChangeAndHandle(lib, s, steps, [q], q);
  }

  /** A policy is edited into one that is rejected: the operator still removes a pod as the policy was
      before, and as the stored one no longer asks for. */
  lemma RejectedEditKeepsActing(
    lib: Library, rate: nat, start: nat, p: Policy, edited: Spec, pod: Pod, r: Readings) returns (steps: seq<Step>)
    requires rate > 0 && Judge(lib, p.spec).Good? && !Judge(lib, edited).Good?
    requires Removable(lib, pod, p.spec, r.now) && (p.spec.then_.actionType.Evict? ==> r.serializes)
    ensures var q := p.(spec := edited);
            steps == [StoreChanges([p]), PolicyEvent(p, "", [], {})]
                     + [StoreChanges([q]), PolicyEvent(q, "", [], {})] + [Begin(pod), Advance(0, r)]
    ensures Runs(lib, Initial(rate, start), steps)
    ensures var e := End(lib, Initial(rate, start), steps);
            && e.store == [p.(spec := edited)]
            && |e.log| == 1 && e.log[0].policy == p && e.log[0].pod == pod && IsCall(e.log[0])
  {
    steps := RejectedEditStaysCached(lib, rate, start, p, p.(spec := edited));
    steps := ActsOnCached(lib, Initial(rate, start), steps, p, pod, r, rate, start);
  }
}
