/** Policy buckets across limit changes (src/rate_limiter.rs:106-111): each change installs a full bucket
    and so begins a new generation. Every generation keeps its own budget; the policy as a whole has none. */
module PolicyGenerations {
  import opened Wrappers
  import opened RateLimiting
  import opened RateLimitBounds

  /** One bucket of a policy name: its limit, the reading at which it was made and what it has granted. */
  datatype Generation = Generation(limit: nat, born: nat, granted: nat)

  /** A full bucket for the start and one for every minute up to `t`. */
  function Allowance(g: Generation, t: nat): nat
    requires g.born <= t
  {
    g.limit * (1 + (t - g.born) / WINDOW)
  }

  function Spent(g: Generation, granted: bool): Generation {
    g.(granted := g.granted + if granted then 1 else 0)
  }

  predicate Metered(c: Call, name: string) {
    Names(c, name) && EffectiveLimit(c.maxPerMinute).Some?
  }

  /** A metered call counts for the newest generation, or begins the next one. */
  function Extend(l: Limiter, c: Call, name: string, gens: seq<Generation>): seq<Generation> {
    if !Metered(c, name) then gens
    else
      var limit, last := EffectiveLimit(c.maxPerMinute).value, |gens| - 1;
      if gens != [] && name in l.policies && l.policies[name].max == limit
      then gens[last := Spent(gens[last], Granted(l, c))]
      else gens + [Spent(Generation(limit, c.newNow, 0), Granted(l, c))]
  }

  function Generations(l: Limiter, calls: seq<Call>, name: string, gens: seq<Generation>): seq<Generation>
    decreases |calls|
  {
    if calls == [] then gens
    else Generations(AfterCall(l, calls[0]), calls[1..], name, Extend(l, calls[0], name, gens))
  }

  /** The grants that were given by a bucket; calls without a positive limit are not metered. */
  function MeteredGrants(l: Limiter, calls: seq<Call>, name: string): nat
    decreases |calls|
  {
    if calls == [] then 0
    else
      (if Metered(calls[0], name) && Granted(l, calls[0]) then 1 else 0)
      + MeteredGrants(AfterCall(l, calls[0]), calls[1..], name)
  }

  function TotalGranted(gens: seq<Generation>): nat {
    if gens == [] then 0 else TotalGranted(gens[..|gens| - 1]) + gens[|gens| - 1].granted
  }

  function TotalAllowance(gens: seq<Generation>, t: nat): nat
    requires forall k | 0 <= k < |gens| :: gens[k].born <= t
  {
    if gens == [] then 0
    else TotalAllowance(gens[..|gens| - 1], t) + Allowance(gens[|gens| - 1], t)
  }

  ghost predicate WithinAllowance(gens: seq<Generation>, t: nat) {
    && (forall k | 0 <= k < |gens| :: gens[k].born <= t && gens[k].granted <= Allowance(gens[k], t))
    && (forall k | 0 < k < |gens| :: gens[k - 1].limit != gens[k].limit)
  }

  /** A generation's bucket holds at most the rest of its allowance as credit. */
  ghost predicate Backs(b: Bucket, g: Generation, t: nat) {
    b.max == g.limit && b.lastReset <= t && g.born <= t && g.granted + Credit(b, t) <= Allowance(g, t)
  }

  /** The stored bucket is that of the newest generation. */
  ghost predicate Tracks(l: Limiter, name: string, gens: seq<Generation>, t: nat) {
    && WithinAllowance(gens, t)
    && (name in l.policies <==> gens != [])
    && (gens != [] ==> Backs(l.policies[name], gens[|gens| - 1], t))
  }

  lemma FirstBacking(limit: nat, born: nat, t: nat)
    requires born <= t
    ensures Backs(NewBucket(limit, born), Generation(limit, born, 0), t)
  {
    FullCredit(limit, born, t);
  }

  lemma DrawBacked(b: Bucket, g: Generation, now: nat, t: nat)
    requires Backs(b, g, t) && now <= t
    ensures Backs(Take(b, now), Spent(g, Admits(b, now)), t)
    ensures Spent(g, Admits(b, now)).granted <= Allowance(g, t)
  {
    CreditStep(b, now, t);
  }

  lemma NewestSpent(gens: seq<Generation>, granted: bool, t: nat)
    requires gens != [] && WithinAllowance(gens, t)
    requires Spent(gens[|gens| - 1], granted).granted <= Allowance(gens[|gens| - 1], t)
    ensures var next := gens[|gens| - 1 := Spent(gens[|gens| - 1], granted)];
            WithinAllowance(next, t) && TotalGranted(next) == TotalGranted(gens) + (if granted then 1 else 0)
  {
    var last := |gens| - 1;
    var next := gens[last := Spent(gens[last], granted)];
    assert next[..last] == gens[..last];
    assert Allowance(next[last], t) == Allowance(gens[last], t);
  }

  lemma NewestAdded(gens: seq<Generation>, g: Generation, t: nat)
    requires WithinAllowance(gens, t) && g.born <= t && g.granted <= Allowance(g, t)
    requires gens != [] ==> gens[|gens| - 1].limit != g.limit
    ensures WithinAllowance(gens + [g], t) && TotalGranted(gens + [g]) == TotalGranted(gens) + g.granted
  {
    assert (gens + [g])[..|gens|] == gens;
  }

  lemma CallTracked(l: Limiter, c: Call, name: string, gens: seq<Generation>, t: nat)
    requires Tracks(l, name, gens, t) && ReadBy(c, t)
    ensures Tracks(AfterCall(l, c), name, Extend(l, c, name, gens), t)
    ensures TotalGranted(Extend(l, c, name, gens))
         == TotalGranted(gens) + (if Metered(c, name) && Granted(l, c) then 1 else 0)
  {
    if Metered(c, name) {
      var limit, granted := EffectiveLimit(c.maxPerMinute).value, Granted(l, c);
      if name in l.policies && l.policies[name].max == limit {
        DrawBacked(l.policies[name], gens[|gens| - 1], c.now, t);
        NewestSpent(gens, granted, t);
      } else {
        var g := Generation(limit, c.newNow, 0);
        FirstBacking(limit, c.newNow, t);
        DrawBacked(NewBucket(limit, c.newNow), g, c.now, t);
        NewestAdded(gens, Spent(g, granted), t);
      }
    }
  }

  lemma {:induction false} RunTracked(l: Limiter, calls: seq<Call>, name: string, gens: seq<Generation>, t: nat)
    requires Tracks(l, name, gens, t) && forall i | 0 <= i < |calls| :: ReadBy(calls[i], t)
    ensures WithinAllowance(Generations(l, calls, name, gens), t)
    ensures TotalGranted(Generations(l, calls, name, gens)) == TotalGranted(gens) + MeteredGrants(l, calls, name)
    decreases |calls|
  {
    if calls != [] {
      CallTracked(l, calls[0], name, gens, t);
      RunTracked(AfterCall(l, calls[0]), calls[1..], name, Extend(l, calls[0], name, gens), t);
    }
  }

  lemma {:induction false} SumWithinAllowance(gens: seq<Generation>, t: nat)
    requires WithinAllowance(gens, t)
    ensures TotalGranted(gens) <= TotalAllowance(gens, t)
    decreases |gens|
  {
    if gens != [] {
      SumWithinAllowance(gens[..|gens| - 1], t);
    }
  }

  /** In every run, limits changing or not, the metered grants of a name split into its generations, each
      begun by a limit different from the one before, and each generation grants at most one full bucket
      for its beginning and one for every sixty seconds since. */
  lemma GenerationBudgets(max: nat, start: nat, calls: seq<Call>, name: string, t: nat)
    requires forall i | 0 <= i < |calls| :: ReadBy(calls[i], t)
    ensures var gens := Generations(NewLimiter(max, start), calls, name, []);
            && WithinAllowance(gens, t)
            && TotalGranted(gens) == MeteredGrants(NewLimiter(max, start), calls, name)
            && MeteredGrants(NewLimiter(max, start), calls, name) <= TotalAllowance(gens, t)
  {
    RunTracked(NewLimiter(max, start), calls, name, [], t);
    SumWithinAllowance(Generations(NewLimiter(max, start), calls, name, []), t);
  }

  // ---------------------------------------------------------------- no budget across changes

  /** `n` calls for one name at one clock reading, with two limits in turn. */
  function Alternating(name: string, a: nat, b: nat, now: nat, n: nat): seq<Call> {
    seq(n, i => PolicyCall(name, Some(if i % 2 == 0 then a else b), now, now))
  }

  lemma {:induction false} AlternatingGranted(l: Limiter, name: string, a: nat, b: nat, now: nat, n: nat)
    requires a > 0 && b > 0 && a != b && (name in l.policies ==> l.policies[name].max != a)
    ensures PolicyGrants(l, Alternating(name, a, b, now, n), name) == n
    decreases n
  {
    if n > 0 {
      var calls := Alternating(name, a, b, now, n);
      assert calls[1..] == Alternating(name, b, a, now, n - 1);
      AlternatingGranted(AfterCall(l, calls[0]), name, b, a, now, n - 1);
    }
  }

  /** Two policies of one name, or one policy edited back and forth, with two positive limits: any number
      of calls at a single clock reading are all granted, exactly if the limits differ. */
  lemma UnlimitedExactlyIfLimitsDiffer(max: nat, start: nat, name: string, a: nat, b: nat)
    requires a > 0 && b > 0
    ensures (forall n: nat :: PolicyGrants(NewLimiter(max, start), Alternating(name, a, b, start, n), name) == n)
            <==> a != b
  {
    if a == b {
      var calls := Alternating(name, a, b, start, a + 1);
      PolicyBudget(NewLimiter(max, start), calls, name, a, start);
      assert calls[0].newNow == start;
    } else {
      forall n: nat
        ensures PolicyGrants(NewLimiter(max, start), Alternating(name, a, b, start, n), name) == n
      {
        AlternatingGranted(NewLimiter(max, start), name, a, b, start, n);
      }
    }
  }
}
