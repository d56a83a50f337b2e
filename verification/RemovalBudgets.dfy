/** How many delete and evict requests the whole operator can send, over any run and in any span of time, if
    its calls to the limiter do not overlap: tasks interleave between two policies of their loop, as in
    OperatorRuns. Overlapping calls, as on several worker threads, are in ParallelRuns. */
module RemovalBudgets {
  import opened Wrappers
  import opened Cel
  import opened RateLimiting
  import opened RateLimitBounds
  import opened PolicyGenerations
  import opened PodReconcile
  import opened PodProperties
  import opened OperatorRuns

  /** The delete and evict requests among the attempts. */
  function Removals(attempts: seq<Attempt>): nat {
    if attempts == [] then 0 else (if IsCall(attempts[0]) then 1 else 0) + Removals(attempts[1..])
  }

  function RemovalsBy(attempts: seq<Attempt>, name: string): nat {
    if attempts == [] then 0
    else (if IsCall(attempts[0]) && attempts[0].policy.name == name then 1 else 0) + RemovalsBy(attempts[1..], name)
  }

  /** Those of policies with a positive limit. */
  function LimitedRemovals(attempts: seq<Attempt>, name: string): nat {
    if attempts == [] then 0
    else
      var a := attempts[0];
      (if IsCall(a) && Metered(CallsOf(a.policy, a.readings).1, name) then 1 else 0) + LimitedRemovals(attempts[1..], name)
  }

  ghost predicate ReadBefore(attempts: seq<Attempt>, t: nat) {
    forall a <- attempts :: a.readings.globalNow <= t && a.readings.newNow <= t && a.readings.policyNow <= t
  }

  /** The policy name never changes its positive limit. */
  ghost predicate SteadilyLimited(attempts: seq<Attempt>, name: string, limit: nat) {
    limit > 0 && forall a <- attempts | a.policy.name == name :: a.policy.spec.limits.maxDeletesPerMinute == Some(limit)
  }

  lemma {:induction false} DrawsReadBefore(attempts: seq<Attempt>, t: nat)
    requires ReadBefore(attempts, t)
    ensures forall i | 0 <= i < |Draws(attempts)| :: ReadBy(Draws(attempts)[i], t)
    decreases |attempts|
  {
    if attempts != [] {
      assert attempts[0] in attempts;
      DrawsReadBefore(attempts[1..], t);
    }
  }

  lemma {:induction false} DrawsSteadilyLimited(attempts: seq<Attempt>, name: string, limit: nat)
    requires SteadilyLimited(attempts, name, limit)
    ensures SteadyLimit(Draws(attempts), name, limit)
    decreases |attempts|
  {
    if attempts != [] {
      assert attempts[0] in attempts;
      DrawsSteadilyLimited(attempts[1..], name, limit);
    }
  }

  /** Two calls at the head of a run, a global one and a policy one. */
  lemma GrantsOfTwo(l: Limiter, g: Call, p: Call, rest: seq<Call>, name: string)
    requires g.GlobalCall? && p.PolicyCall?
    ensures var l1 := AfterCall(l, g);
            && GlobalGrants(l, [g, p] + rest) == (if Granted(l, g) then 1 else 0) + GlobalGrants(AfterCall(l1, p), rest)
            && PolicyGrants(l, [g, p] + rest, name)
                 == (if p.name == name && Granted(l1, p) then 1 else 0) + PolicyGrants(AfterCall(l1, p), rest, name)
            && MeteredGrants(l, [g, p] + rest, name)
                 == (if Metered(p, name) && Granted(l1, p) then 1 else 0) + MeteredGrants(AfterCall(l1, p), rest, name)
  {
    var calls := [g, p] + rest;
    assert calls[1..] == [p] + rest && calls[1..][1..] == rest;
  }

  lemma {:induction false} RemovalsPaid(l: Limiter, attempts: seq<Attempt>, name: string)
    requires Faithful(l, attempts)
    ensures Removals(attempts) <= GlobalGrants(l, Draws(attempts))
    ensures RemovalsBy(attempts, name) <= PolicyGrants(l, Draws(attempts), name)
    ensures LimitedRemovals(attempts, name) <= MeteredGrants(l, Draws(attempts), name)
    decreases |attempts|
  {
    if attempts != [] {
      var a, rest := attempts[0], attempts[1..];
      var c := CallsOf(a.policy, a.readings);
      GrantsOfTwo(l, c.0, c.1, Draws(rest), name);
      RemovalsPaid(AfterDraws(l, a.policy, a.readings), rest, name);
    }
  }

  /** End to end: over any run on any pods and policies, in whatever order the tasks look at their policies
      and whatever the clock does, the delete and evict requests sent up to the largest reading `t` are at most
      `rate * (1 + (t - start) / 60)`. */
  lemma RemovalBudget(lib: Library, rate: nat, start: nat, steps: seq<Step>, t: nat)
    requires Runs(lib, Initial(rate, start), steps)
    requires start <= t && ReadBefore(End(lib, Initial(rate, start), steps).log, t)
    ensures Removals(End(lib, Initial(rate, start), steps).log) <= rate * (1 + (t - start) / 60)
  {
    var log := End(lib, Initial(rate, start), steps).log;
    RunFaithful(lib, rate, start, steps);
    DrawsReadBefore(log, t);
    RemovalsPaid(NewLimiter(rate, start), log, "");
    GlobalBudget(rate, start, Draws(log), t);
  }

  /** The reading at which the bucket of a name is made: that of the first attempt by a policy of the name. */
  function FirstAttemptAt(attempts: seq<Attempt>, name: string): Option<nat> {
    if attempts == [] then None
    else if attempts[0].policy.name == name then Some(attempts[0].readings.newNow)
    else FirstAttemptAt(attempts[1..], name)
  }

  lemma {:induction false} FirstUseOfDraws(attempts: seq<Attempt>, name: string, limit: nat)
    requires SteadilyLimited(attempts, name, limit)
    ensures FirstUse(Draws(attempts), name) == FirstAttemptAt(attempts, name)
    decreases |attempts|
  {
    if attempts != [] {
      var draws := Draws(attempts);
      assert attempts[0] in attempts;
      FirstUseOfDraws(attempts[1..], name, limit);
      assert draws[1..][1..] == Draws(attempts[1..]);
    }
  }

  /** Those of a policy name whose positive limit never changes are at most that limit times one plus the
      minutes since its first attempt. */
  lemma PolicyRemovalBudget(lib: Library, rate: nat, start: nat, steps: seq<Step>, name: string, limit: nat, t: nat)
    requires Runs(lib, Initial(rate, start), steps)
    requires ReadBefore(End(lib, Initial(rate, start), steps).log, t)
    requires SteadilyLimited(End(lib, Initial(rate, start), steps).log, name, limit)
    ensures var log := End(lib, Initial(rate, start), steps).log;
            match FirstAttemptAt(log, name)
            case None => RemovalsBy(log, name) == 0
            case Some(first) => first <= t && RemovalsBy(log, name) <= limit * (1 + (t - first) / 60)
  {
    var log := End(lib, Initial(rate, start), steps).log;
    RunFaithful(lib, rate, start, steps);
    DrawsReadBefore(log, t);
    DrawsSteadilyLimited(log, name, limit);
    FirstUseOfDraws(log, name, limit);
    RemovalsPaid(NewLimiter(rate, start), log, name);
    PolicyBudget(NewLimiter(rate, start), Draws(log), name, limit, t);
  }

  /** And whatever the limits are changed to, those a policy name sends under a positive limit are at most
      one full bucket for the beginning of each of its bucket generations and one for every minute since. */
  lemma GenerationRemovalBudget(lib: Library, rate: nat, start: nat, steps: seq<Step>, name: string, t: nat)
    requires Runs(lib, Initial(rate, start), steps)
    requires ReadBefore(End(lib, Initial(rate, start), steps).log, t)
    ensures var log := End(lib, Initial(rate, start), steps).log;
            var gens := Generations(NewLimiter(rate, start), Draws(log), name, []);
            WithinAllowance(gens, t) && LimitedRemovals(log, name) <= TotalAllowance(gens, t)
  {
    var log := End(lib, Initial(rate, start), steps).log;
    RunFaithful(lib, rate, start, steps);
    DrawsReadBefore(log, t);
    RemovalsPaid(NewLimiter(rate, start), log, name);
    GenerationBudgets(rate, start, Draws(log), name, t);
  }

  // ---------------------------------------------------------------- any span of time

  function GlobalReadings(attempts: seq<Attempt>): seq<nat> {
    if attempts == [] then [] else [attempts[0].readings.globalNow] + GlobalReadings(attempts[1..])
  }

  /** The requests whose draw from the global limit read the clock in `lo .. hi` (`hi` excluded). */
  function RemovalsWithin(attempts: seq<Attempt>, lo: nat, hi: nat): nat {
    if attempts == [] then 0
    else
      (if IsCall(attempts[0]) && lo <= attempts[0].readings.globalNow < hi then 1 else 0)
      + RemovalsWithin(attempts[1..], lo, hi)
  }

  lemma {:induction false} SpanPaid(l: Limiter, attempts: seq<Attempt>, lo: nat, hi: nat)
    requires Faithful(l, attempts)
    ensures RemovalsWithin(attempts, lo, hi) <= GrantsWithin(l.global, GlobalReadings(attempts), lo, hi)
    decreases |attempts|
  {
    if attempts != [] {
      var a, rest := attempts[0], attempts[1..];
      SpanPaid(AfterDraws(l, a.policy, a.readings), rest, lo, hi);
      assert GlobalReadings(attempts)[1..] == GlobalReadings(rest);
    }
  }

  /** What the configured rate means for the cluster on one thread: if the clock does not go back, then in any span of
      `hi - lo` seconds of any run at most `rate * (1 + ceil((hi - lo - 1) / 60))` requests are sent; in
      sixty seconds that is twice the rate. */
  lemma RemovalsInAnySpan(lib: Library, rate: nat, start: nat, steps: seq<Step>, lo: nat, hi: nat)
    requires Runs(lib, Initial(rate, start), steps) && lo < hi
    requires Monotone(GlobalReadings(End(lib, Initial(rate, start), steps).log))
    ensures var log := End(lib, Initial(rate, start), steps).log;
            && RemovalsWithin(log, lo, hi) <= rate * (1 + Refills(hi - lo - 1))
            && (hi == lo + 60 ==> RemovalsWithin(log, lo, hi) <= 2 * rate)
  {
    var log := End(lib, Initial(rate, start), steps).log;
    RunFaithful(lib, rate, start, steps);
    SpanPaid(NewLimiter(rate, start), log, lo, hi);
    AnySpanBound(NewBucket(rate, start), GlobalReadings(log), lo, hi);
  }
}
