/** The fixed-window token bucket and the limiter built from it (src/rate_limiter.rs).
    Clock readings are whole seconds since the epoch and are arguments here. */
module RateLimiting {
  import opened Wrappers

  const WINDOW := 60

  // ---------------------------------------------------------------- one bucket, as a value

  datatype Bucket = Bucket(max: nat, lastReset: nat, tokens: nat)

  function NewBucket(max: nat, now: nat): Bucket {
    Bucket(max, now, max)
  }

  function SaturatingSub(a: nat, b: nat): nat {
    if a >= b then a - b else 0
  }

  function Refill(b: Bucket, now: nat): Bucket {
    if SaturatingSub(now, b.lastReset) >= WINDOW then Bucket(b.max, now, b.max) else b
  }

  predicate Admits(b: Bucket, now: nat) {
    Refill(b, now).tokens > 0
  }

  function Take(b: Bucket, now: nat): Bucket {
    var r := Refill(b, now);
    if r.tokens > 0 then r.(tokens := r.tokens - 1) else r
  }

  // ---------------------------------------------------------------- one bucket, in place

  class TokenBucket {
    const maxPerMinute: nat
    var lastReset: nat
    var tokens: nat

    function Value(): Bucket
      reads this
    {
      Bucket(maxPerMinute, lastReset, tokens)
    }

    constructor (maxPerMinute: nat, now: nat)
      ensures Value() == NewBucket(maxPerMinute, now)
    {
      this.maxPerMinute := maxPerMinute;
      lastReset := now;
      tokens := maxPerMinute;
    }

    /** A weak compare-and-swap, which may fail although the comparison holds. */
    method CompareExchangeWeak(expected: nat, desired: nat, spurious: bool) returns (ok: bool, actual: nat)
      modifies this`tokens
      ensures actual == old(tokens)
      ensures ok == (actual == expected && !spurious)
      ensures tokens == if ok then desired else old(tokens)
    {
      actual := tokens;
      ok := actual == expected && !spurious;
      if ok {
        tokens := desired;
      }
    }

    /** One call with no other thread running; the first `spurious` swaps fail for no reason,
        which makes no difference. */
    method Allow(now: nat, spurious: nat) returns (granted: bool)
      modifies this
      ensures Value() == Take(old(Value()), now)
      ensures granted == Admits(old(Value()), now)
    {
      var elapsed := SaturatingSub(now, lastReset);
      if elapsed >= WINDOW {
        lastReset := now;
        tokens := maxPerMinute;
      }
      var seen := tokens;
      var left := spurious;
      while seen > 0
        invariant seen == tokens && Value() == Refill(old(Value()), now)
        decreases left
      {
        var ok, actual := CompareExchangeWeak(seen, seen - 1, left > 0);
        if ok {
          return true;
        }
        seen, left := actual, left - 1;
      }
      return false;
    }
  }

  // ---------------------------------------------------------------- the limiter, as a value

  datatype Limiter = Limiter(global: Bucket, policies: map<string, Bucket>)

  function NewLimiter(globalMax: nat, now: nat): Limiter {
    Limiter(NewBucket(globalMax, now), map[])
  }

  /** A missing, zero or negative limit means unlimited. */
  function EffectiveLimit(maxPerMinute: Option<int>): Option<nat> {
    match maxPerMinute
    case Some(l) => if l > 0 then Some(l) else None
    case None => None
  }

  /** The bucket a policy call draws from: the stored one, unless there is none or its limit changed. */
  function PolicyBucket(l: Limiter, name: string, limit: nat, newNow: nat): Bucket {
    if name in l.policies && l.policies[name].max == limit then l.policies[name] else NewBucket(limit, newNow)
  }

  /** `newNow` is the clock reading of `TokenBucket::new`, `now` the one of `allow`. */
  datatype Call =
    | GlobalCall(now: nat)
    | PolicyCall(name: string, maxPerMinute: Option<int>, newNow: nat, now: nat)

  predicate Granted(l: Limiter, c: Call) {
    match c
    case GlobalCall(now) => Admits(l.global, now)
    case PolicyCall(name, maxPerMinute, newNow, now) =>
      match EffectiveLimit(maxPerMinute)
      case None => true
      case Some(limit) => Admits(PolicyBucket(l, name, limit, newNow), now)
  }

  function AfterCall(l: Limiter, c: Call): Limiter {
    match c
    case GlobalCall(now) => l.(global := Take(l.global, now))
    case PolicyCall(name, maxPerMinute, newNow, now) =>
      match EffectiveLimit(maxPerMinute)
      case None => l
      case Some(limit) =>
        l.(policies := l.policies[name := Take(PolicyBucket(l, name, limit, newNow), now)])
  }

  // ---------------------------------------------------------------- the limiter, in place

  class RateLimiter {
    const globalLimiter: TokenBucket
    var policyLimiters: map<string, TokenBucket>

    ghost function Buckets(): set<TokenBucket>
      reads this
    {
      policyLimiters.Values + {globalLimiter}
    }

    /** No two names share a bucket, and none shares the global one. */
    ghost predicate Valid()
      reads this
    {
      && (forall n <- policyLimiters :: policyLimiters[n] != globalLimiter)
      && (forall m <- policyLimiters, n <- policyLimiters :: m != n ==> policyLimiters[m] != policyLimiters[n])
    }

    ghost function Value(): Limiter
      reads this, Buckets()
    {
      Limiter(globalLimiter.Value(), map n | n in policyLimiters :: policyLimiters[n].Value())
    }

    constructor (globalMax: nat, now: nat)
      ensures Valid() && fresh(Buckets())
      ensures Value() == NewLimiter(globalMax, now)
    {
      globalLimiter := new TokenBucket(globalMax, now);
      policyLimiters := map[];
    }

    method AllowGlobal(now: nat, spurious: nat) returns (granted: bool)
      requires Valid()
      modifies globalLimiter
      ensures Valid()
      ensures granted == Granted(old(Value()), GlobalCall(now))
      ensures Value() == AfterCall(old(Value()), GlobalCall(now))
    {
      granted := globalLimiter.Allow(now, spurious);
    }

    /** Makes sure a policy has a bucket with its limit: a full one is installed when there is none or the
        limit changed. */
    method InstallLimiter(name: string, limit: nat, newNow: nat)
      requires Valid()
      modifies this`policyLimiters
      ensures Valid() && fresh(Buckets() - old(Buckets()))
      ensures name in policyLimiters
      ensures Value() == old(Value()).(policies := old(Value()).policies[name := PolicyBucket(old(Value()), name, limit, newNow)])
    {
      if name !in policyLimiters || policyLimiters[name].maxPerMinute != limit {
        var bucket := new TokenBucket(limit, newNow);
        policyLimiters := policyLimiters[name := bucket];
      }
    }

    /** Draws from the stored bucket of a policy. */
    method AllowStored(name: string, now: nat, spurious: nat) returns (granted: bool)
      requires Valid() && name in policyLimiters
      modifies policyLimiters[name]
      ensures Valid()
      ensures granted == Admits(old(Value()).policies[name], now)
      ensures Value() == old(Value()).(policies := old(Value()).policies[name := Take(old(Value()).policies[name], now)])
    {
      granted := policyLimiters[name].Allow(now, spurious);
    }

    method AllowPolicy(name: string, maxPerMinute: Option<int>, newNow: nat, now: nat, spurious: nat)
      returns (granted: bool)
      requires Valid()
      modifies this`policyLimiters, policyLimiters.Values
      ensures Valid() && fresh(Buckets() - old(Buckets()))
      ensures granted == Granted(old(Value()), PolicyCall(name, maxPerMinute, newNow, now))
      ensures Value() == AfterCall(old(Value()), PolicyCall(name, maxPerMinute, newNow, now))
    {
      var limit := EffectiveLimit(maxPerMinute);
      if limit.None? {
        return true;
      }
      InstallLimiter(name, limit.value, newNow);
      granted := AllowStored(name, now, spurious);
    }
  }
}
