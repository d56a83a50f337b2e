/** How many grants the sequential limiter can give: per bucket over any span of time,
    and per limiter over whole runs. */
module RateLimitBounds {
  import opened Basics
  import opened Wrappers
  import opened RateLimiting

  /** A refill is paid for by the sixty seconds that have passed. */
  lemma RefillPaid(max: nat, t: nat, now: nat, lastReset: nat)
    requires lastReset + WINDOW <= now <= t
    ensures max + max * ((t - now) / WINDOW) <= max * ((t - lastReset) / WINDOW)
  {
    assert max + max * ((t - now) / WINDOW) == max * (1 + (t - now) / WINDOW);
    MulMonotone(max, 1 + (t - now) / WINDOW, (t - lastReset) / WINDOW);
  }

  // ---------------------------------------------------------------- runs of one bucket

  function TakeAll(b: Bucket, nows: seq<nat>): Bucket
    decreases |nows|
  {
    if nows == [] then b else TakeAll(Take(b, nows[0]), nows[1..])
  }

  /** The number of calls granted at a reading in `lo .. hi` (`hi` excluded). */
  function GrantsWithin(b: Bucket, nows: seq<nat>, lo: nat, hi: nat): nat
    decreases |nows|
  {
    if nows == [] then 0
    else
      (if Admits(b, nows[0]) && lo <= nows[0] < hi then 1 else 0)
      + GrantsWithin(Take(b, nows[0]), nows[1..], lo, hi)
  }

  ghost predicate Monotone(nows: seq<nat>) {
    forall i, j | 0 <= i < j < |nows| :: nows[i] <= nows[j]
  }

  /** `ceil(seconds / 60)`: how many refills fit into a span. */
  function Refills(seconds: int): nat {
    if seconds <= 0 then 0 else (seconds + WINDOW - 1) / WINDOW
  }

  /** A bucket is reset by a call exactly if sixty seconds have passed since the last reset; so a reset moves
      `last_reset` forward by at least as much, whatever the clock does. */
  lemma ResetMovesForward(b: Bucket, now: nat)
    ensures Take(b, now).lastReset == if now >= b.lastReset + 60 then now else b.lastReset
    ensures Take(b, now).max == b.max
    ensures b.tokens <= b.max ==> Take(b, now).tokens <= b.max
  {
  }

  /** What can still be spent in a span ending at `hi`: before the span has begun, one bucket and
      one more for every refill that fits behind its first second; after that, the tokens in hand
      and one bucket for every refill that still fits. */
  function SpanCredit(b: Bucket, begun: bool, lo: nat, hi: nat): nat {
    if begun then b.tokens + b.max * Refills(hi - b.lastReset - WINDOW)
    else b.max * (1 + Refills(hi - lo - 1))
  }

  lemma SpanCreditStep(b: Bucket, begun: bool, now: nat, lo: nat, hi: nat)
    requires b.tokens <= b.max && now < hi
    requires begun ==> lo <= now
    ensures SpanCredit(Take(b, now), begun || lo <= now, lo, hi) + (if Admits(b, now) && lo <= now then 1 else 0)
         <= SpanCredit(b, begun, lo, hi)
  {
    if lo <= now {
      var r := Refill(b, now);
      var left := Refills(hi - r.lastReset - WINDOW);
      assert SpanCredit(Take(b, now), true, lo, hi) + (if Admits(b, now) then 1 else 0) == r.tokens + b.max * left;
      if begun && r != b {
        assert b.max + b.max * left == b.max * (1 + left);
        MulMonotone(b.max, 1 + left, Refills(hi - b.lastReset - WINDOW));
      } else if !begun {
        assert b.max * (1 + left) == b.max + b.max * left;
        MulMonotone(b.max, 1 + left, 1 + Refills(hi - lo - 1));
      }
    }
  }

  lemma {:induction false} NoneAfterSpan(b: Bucket, nows: seq<nat>, lo: nat, hi: nat)
    requires forall i | 0 <= i < |nows| :: nows[i] >= hi
    ensures GrantsWithin(b, nows, lo, hi) == 0
    decreases |nows|
  {
    if nows != [] {
      NoneAfterSpan(Take(b, nows[0]), nows[1..], lo, hi);
    }
  }

  lemma {:induction false} GrantsWithinCredit(b: Bucket, begun: bool, nows: seq<nat>, lo: nat, hi: nat)
    requires b.tokens <= b.max && Monotone(nows)
    requires begun ==> forall i | 0 <= i < |nows| :: lo <= nows[i]
    ensures GrantsWithin(b, nows, lo, hi) <= SpanCredit(b, begun, lo, hi)
    decreases |nows|
  {
    if nows != [] {
      var now := nows[0];
      if now >= hi {
        NoneAfterSpan(b, nows, lo, hi);
      } else {
        SpanCreditStep(b, begun, now, lo, hi);
        GrantsWithinCredit(Take(b, now), begun || lo <= now, nows[1..], lo, hi);
      }
    }
  }

  /** With a clock that never goes back, the grants in any span of `hi - lo` seconds are at most
      `max * (1 + ceil((hi - lo - 1) / 60))`; for sixty seconds that is twice the configured rate. */
  lemma AnySpanBound(b: Bucket, nows: seq<nat>, lo: nat, hi: nat)
    requires b.tokens <= b.max && Monotone(nows) && lo < hi
    ensures GrantsWithin(b, nows, lo, hi) <= b.max * (1 + Refills(hi - lo - 1))
    ensures hi == lo + 60 ==> GrantsWithin(b, nows, lo, hi) <= 2 * b.max
  {
    GrantsWithinCredit(b, false, nows, lo, hi);
    assert hi == lo + WINDOW ==> Refills(hi - lo - 1) == 1;
  }

  // ---------------------------------------------------------------- the bound is sharp

  function Copies(n: nat, now: nat): seq<nat> {
    seq(n, _ => now)
  }

  /** `count` bursts of `n` calls, a window apart. */
  function Bursts(n: nat, from: nat, count: nat): seq<nat>
    decreases count
  {
    if count == 0 then [] else Copies(n, from) + Bursts(n, from + WINDOW, count - 1)
  }

  lemma {:induction false} GrantsWithinAppend(b: Bucket, xs: seq<nat>, ys: seq<nat>, lo: nat, hi: nat)
    ensures GrantsWithin(b, xs + ys, lo, hi)
         == GrantsWithin(b, xs, lo, hi) + GrantsWithin(TakeAll(b, xs), ys, lo, hi)
    decreases |xs|
  {
    if xs == [] {
      assert xs + ys == ys;
    } else {
      assert (xs + ys)[1..] == xs[1..] + ys;
      GrantsWithinAppend(Take(b, xs[0]), xs[1..], ys, lo, hi);
    }
  }

  lemma {:induction false} BurstDrains(b: Bucket, now: nat, lo: nat, hi: nat)
    requires b.lastReset <= now < b.lastReset + WINDOW && lo <= now < hi
    ensures GrantsWithin(b, Copies(b.tokens, now), lo, hi) == b.tokens
    ensures TakeAll(b, Copies(b.tokens, now)) == b.(tokens := 0)
    decreases b.tokens
  {
    if b.tokens > 0 {
      assert Copies(b.tokens, now)[1..] == Copies(b.tokens - 1, now);
      BurstDrains(Take(b, now), now, lo, hi);
    }
  }

  /** The first call of a burst a window later refills, so the burst is granted in full again. */
  lemma RefillingBurst(b: Bucket, now: nat, lo: nat, hi: nat)
    requires b.max > 0 && b.lastReset + WINDOW <= now && lo <= now < hi
    ensures GrantsWithin(b, Copies(b.max, now), lo, hi) == b.max
    ensures TakeAll(b, Copies(b.max, now)) == Bucket(b.max, now, 0)
  {
    var full := NewBucket(b.max, now);
    BurstDrains(full, now, lo, hi);
    assert Take(b, now) == Take(full, now) && Admits(full, now);
  }

  lemma {:induction false} BurstsGranted(b: Bucket, from: nat, count: nat, lo: nat, hi: nat)
    requires b.max > 0 && b.lastReset + WINDOW <= from
    requires lo <= from && from + count * WINDOW < hi + WINDOW
    ensures GrantsWithin(b, Bursts(b.max, from, count), lo, hi) == b.max * count
    decreases count
  {
    if count > 0 {
      RefillingBurst(b, from, lo, hi);
      var rest := Bursts(b.max, from + WINDOW, count - 1);
      GrantsWithinAppend(b, Copies(b.max, from), rest, lo, hi);
      BurstsGranted(Bucket(b.max, from, 0), from + WINDOW, count - 1, lo, hi);
      assert b.max * count == b.max + b.max * (count - 1);
    }
  }

  lemma {:induction false} BurstsAtLeast(n: nat, from: nat, count: nat)
    ensures forall i | 0 <= i < |Bursts(n, from, count)| :: Bursts(n, from, count)[i] >= from
    ensures Monotone(Bursts(n, from, count))
    decreases count
  {
    if count > 0 {
      BurstsAtLeast(n, from + WINDOW, count - 1);
    }
  }

  /** For every rate and every span length some run with a monotone clock reaches the bound: a new
      bucket, drained in the last second of its first window and again at every refill. */
  lemma AnySpanBoundIsSharp(max: nat, width: nat) returns (nows: seq<nat>)
    requires max > 0 && width > 0
    ensures Monotone(nows)
    ensures GrantsWithin(NewBucket(max, 0), nows, WINDOW - 1, WINDOW - 1 + width) == max * (1 + Refills(width - 1))
  {
    var b, lo, hi := NewBucket(max, 0), WINDOW - 1, WINDOW - 1 + width;
    var count := Refills(width - 1);
    var first, rest := Copies(max, lo), Bursts(max, WINDOW, count);
    nows := first + rest;
    BurstDrains(b, lo, lo, hi);
    GrantsWithinAppend(b, first, rest, lo, hi);
    BurstsGranted(b.(tokens := 0), WINDOW, count, lo, hi);
    BurstsAtLeast(max, WINDOW, count);
  }

  // ---------------------------------------------------------------- runs of the limiter

  function AfterCalls(l: Limiter, calls: seq<Call>): Limiter
    decreases |calls|
  {
    if calls == [] then l else AfterCalls(AfterCall(l, calls[0]), calls[1..])
  }

  /** The number of granted global calls. */
  function GlobalGrants(l: Limiter, calls: seq<Call>): nat
    decreases |calls|
  {
    if calls == [] then 0
    else
      (if calls[0].GlobalCall? && Granted(l, calls[0]) then 1 else 0) + GlobalGrants(AfterCall(l, calls[0]), calls[1..])
  }

  predicate Names(c: Call, name: string) {
    c.PolicyCall? && c.name == name
  }

  /** The number of granted calls for one policy name. */
  function PolicyGrants(l: Limiter, calls: seq<Call>, name: string): nat
    decreases |calls|
  {
    if calls == [] then 0
    else
      (if Names(calls[0], name) && Granted(l, calls[0]) then 1 else 0)
      + PolicyGrants(AfterCall(l, calls[0]), calls[1..], name)
  }

  predicate ReadBy(c: Call, t: nat) {
    c.now <= t && (c.PolicyCall? ==> c.newNow <= t)
  }

  function Credit(b: Bucket, t: nat): nat
    requires b.lastReset <= t
  {
    b.tokens + b.max * ((t - b.lastReset) / WINDOW)
  }

  /** One call on one bucket: a grant is paid from the credit up to time `t`. */
  lemma CreditStep(b: Bucket, now: nat, t: nat)
    requires b.lastReset <= t && now <= t
    ensures Take(b, now).lastReset <= t
    ensures Credit(Take(b, now), t) + (if Admits(b, now) then 1 else 0) <= Credit(b, t)
  {
    if SaturatingSub(now, b.lastReset) >= WINDOW {
      RefillPaid(b.max, t, now, b.lastReset);
    }
  }

  lemma FullCredit(max: nat, start: nat, t: nat)
    requires start <= t
    ensures Credit(NewBucket(max, start), t) == max * (1 + (t - start) / WINDOW)
  {
    var q := (t - start) / WINDOW;
    assert max + max * q == max * (1 + q);
  }

  lemma {:induction false} GlobalGrantsWithinCredit(l: Limiter, calls: seq<Call>, t: nat)
    requires l.global.lastReset <= t && forall i | 0 <= i < |calls| :: ReadBy(calls[i], t)
    ensures GlobalGrants(l, calls) <= Credit(l.global, t)
    decreases |calls|
  {
    if calls != [] {
      if calls[0].GlobalCall? {
        CreditStep(l.global, calls[0].now, t);
      }
      GlobalGrantsWithinCredit(AfterCall(l, calls[0]), calls[1..], t);
    }
  }

  /** Over any run, whatever the clock does, the global grants are at most one full bucket for the
      start and one for every sixty seconds up to the largest reading. */
  lemma GlobalBudget(max: nat, start: nat, calls: seq<Call>, t: nat)
    requires start <= t && forall i | 0 <= i < |calls| :: ReadBy(calls[i], t)
    ensures GlobalGrants(NewLimiter(max, start), calls) <= max * (1 + (t - start) / 60)
  {
    GlobalGrantsWithinCredit(NewLimiter(max, start), calls, t);
    FullCredit(max, start, t);
  }

  /** A policy without a limit, or with one that is not positive, is always allowed and leaves no trace; any
      other draws from a bucket with its limit. */
  lemma UnlimitedExactly(l: Limiter, name: string, limit: Option<int>, newNow: nat, now: nat)
    ensures var c := PolicyCall(name, limit, newNow, now);
            if exists m: int :: limit == Some(m) && m >= 1
            then name in AfterCall(l, c).policies && AfterCall(l, c).policies[name].max == limit.value
            else Granted(l, c) && AfterCall(l, c) == l
  {
    assert limit.Some? ==> limit == Some(limit.value);
  }

  /** The reading at which a run whose first metered call installs a bucket does so. */
  function FirstUse(calls: seq<Call>, name: string): Option<nat> {
    if calls == [] then None
    else if Names(calls[0], name) && EffectiveLimit(calls[0].maxPerMinute).Some? then Some(calls[0].newNow)
    else FirstUse(calls[1..], name)
  }

  /** Every call for `name` carries the same positive limit. */
  ghost predicate SteadyLimit(calls: seq<Call>, name: string, limit: nat) {
    limit > 0 && forall i | 0 <= i < |calls| && Names(calls[i], name) :: calls[i].maxPerMinute == Some(limit)
  }

  lemma {:induction false} StoredPolicyWithinCredit(l: Limiter, calls: seq<Call>, name: string, limit: nat, t: nat)
    requires SteadyLimit(calls, name, limit) && forall i | 0 <= i < |calls| :: ReadBy(calls[i], t)
    requires name in l.policies && l.policies[name].max == limit && l.policies[name].lastReset <= t
    ensures PolicyGrants(l, calls, name) <= Credit(l.policies[name], t)
    decreases |calls|
  {
    if calls != [] {
      if Names(calls[0], name) {
        CreditStep(l.policies[name], calls[0].now, t);
      }
      StoredPolicyWithinCredit(AfterCall(l, calls[0]), calls[1..], name, limit, t);
    }
  }

  /** The same budget for one policy name while its limit stays the same, counted from the first use that
      finds no bucket or one with another limit: a generation of the bucket. */
  lemma {:induction false} PolicyBudget(l: Limiter, calls: seq<Call>, name: string, limit: nat, t: nat)
    requires SteadyLimit(calls, name, limit) && forall i | 0 <= i < |calls| :: ReadBy(calls[i], t)
    requires name in l.policies ==> l.policies[name].max != limit
    ensures match FirstUse(calls, name)
            case None => PolicyGrants(l, calls, name) == 0
            case Some(first) => first <= t && PolicyGrants(l, calls, name) <= limit * (1 + (t - first) / WINDOW)
    decreases |calls|
  {
    if calls != [] {
      var c := calls[0];
      if Names(c, name) {
        var b := NewBucket(limit, c.newNow);
        CreditStep(b, c.now, t);
        FullCredit(limit, c.newNow, t);
        StoredPolicyWithinCredit(AfterCall(l, c), calls[1..], name, limit, t);
      } else {
        PolicyBudget(AfterCall(l, c), calls[1..], name, limit, t);
      }
    }
  }

  // ---------------------------------------------------------------- the policy map

  /** The last positive limit passed for a name. */
  function LastLimit(calls: seq<Call>, name: string): Option<nat>
    decreases |calls|
  {
    if calls == [] then None
    else
      var c := calls[|calls| - 1];
      if Names(c, name) && EffectiveLimit(c.maxPerMinute).Some? then EffectiveLimit(c.maxPerMinute)
      else LastLimit(calls[..|calls| - 1], name)
  }

  lemma {:induction false} AfterCallsSnoc(l: Limiter, calls: seq<Call>, c: Call)
    ensures AfterCalls(l, calls + [c]) == AfterCall(AfterCalls(l, calls), c)
    decreases |calls|
  {
    if calls == [] {
      assert calls + [c] == [c];
    } else {
      assert (calls + [c])[1..] == calls[1..] + [c];
      AfterCallsSnoc(AfterCall(l, calls[0]), calls[1..], c);
    }
  }

  /** In every run a name has a stored bucket exactly when it has been called with a positive
      limit, and that bucket enforces the last such limit and is never over-full. */
  lemma {:induction false} PolicyMapAgreesWithCalls(max: nat, start: nat, calls: seq<Call>, name: string)
    ensures var l := AfterCalls(NewLimiter(max, start), calls);
            match LastLimit(calls, name)
            case None => name !in l.policies
            case Some(limit) =>
              name in l.policies && l.policies[name].max == limit && l.policies[name].tokens <= limit
    decreases |calls|
  {
    if calls != [] {
      var front, c := calls[..|calls| - 1], calls[|calls| - 1];
      assert calls == front + [c];
      AfterCallsSnoc(NewLimiter(max, start), front, c);
      PolicyMapAgreesWithCalls(max, start, front, name);
    }
  }

  /** The calls for other names, and the global calls, can be struck out of a run without changing
      a policy's bucket or its grants. */
  lemma {:induction false} PoliciesAreIndependent(l: Limiter, m: Limiter, calls: seq<Call>, name: string)
    requires (name in l.policies <==> name in m.policies) && (name in l.policies ==> l.policies[name] == m.policies[name])
    ensures var own := Only(calls, name);
            && (name in AfterCalls(l, calls).policies <==> name in AfterCalls(m, own).policies)
            && (name in AfterCalls(l, calls).policies ==>
                 AfterCalls(l, calls).policies[name] == AfterCalls(m, own).policies[name])
            && PolicyGrants(l, calls, name) == PolicyGrants(m, own, name)
    decreases |calls|
  {
    if calls != [] {
      var c := calls[0];
      if Names(c, name) {
        PoliciesAreIndependent(AfterCall(l, c), AfterCall(m, c), calls[1..], name);
        assert Only(calls, name)[1..] == Only(calls[1..], name);
      } else {
        assert Only(calls, name) == Only(calls[1..], name);
        PoliciesAreIndependent(AfterCall(l, c), m, calls[1..], name);
      }
    }
  }

  function Only(calls: seq<Call>, name: string): seq<Call> {
    Filter((c: Call) => Names(c, name), calls)
  }

  function OnlyGlobal(calls: seq<Call>): seq<Call> {
    Filter((c: Call) => c.GlobalCall?, calls)
  }

  /** Likewise the policy calls can be struck out without changing the global bucket or its grants. */
  lemma {:induction false} GlobalIsIndependent(l: Limiter, m: Limiter, calls: seq<Call>)
    requires l.global == m.global
    ensures AfterCalls(l, calls).global == AfterCalls(m, OnlyGlobal(calls)).global
    ensures GlobalGrants(l, calls) == GlobalGrants(m, OnlyGlobal(calls))
    decreases |calls|
  {
    if calls != [] {
      var c := calls[0];
      if c.GlobalCall? {
        GlobalIsIndependent(AfterCall(l, c), AfterCall(m, c), calls[1..]);
        assert OnlyGlobal(calls)[1..] == OnlyGlobal(calls[1..]);
      } else {
        assert OnlyGlobal(calls) == OnlyGlobal(calls[1..]);
        GlobalIsIndependent(AfterCall(l, c), m, calls[1..]);
      }
    }
  }
}
