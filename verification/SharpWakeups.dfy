/** The bound on TTL wake-ups is reached for any number of TTLs. */
module SharpWakeups {
  import opened Wrappers
  import opened Pods
  import opened Crd
  import opened Ttl
  import opened Cel
  import opened Matching
  import opened RateLimiting
  import opened PodReconcile
  import opened PodProperties
  import opened TtlWakeups

  // ---------------------------------------------------------------- policies that only wait

  function DryRunSpec(ttl: int): Spec {
    TtlSpec(ttl, Limits(None, false, None)).(then_ := Then(Delete, None, true))
  }

  /** Dry-run policies with the TTLs 2, 4, ..., `2 * m`. */
  function EvenTtls(m: nat): (policies: seq<Policy>)
    ensures |policies| == m && forall k | 0 <= k < m :: policies[k].spec == DryRunSpec(2 * (k + 1))
  {
    seq(m, k => Policy("", None, DryRunSpec(2 * (k + 1)), None))
  }

  lemma DryRunWaits(lib: Library, ttl: int, now: int)
    requires ttl > 0
    ensures var pod, spec := AnnotatedPod("ns"), DryRunSpec(ttl);
            && Validate(spec).Ok? && Applies(pod, spec) && !Removable(lib, pod, spec, now)
            && (TtlPending(pod, spec, now) <==> NumSeconds(now) <= ttl)
            && (TtlPending(pod, spec, now) ==> TtlLeft(pod, spec, now) == Max(ttl - NumSeconds(now), 1))
  {
    assert "v" in DryRunSpec(ttl).trigger.annotationValues;
    assert now - 0 == now;
  }

  lemma {:induction false} NoneEntitled(lib: Library, pod: Pod, policies: seq<Policy>, rs: seq<Readings>)
    requires |policies| == |rs| && forall i | 0 <= i < |rs| :: !Removable(lib, pod, policies[i].spec, rs[i].now)
    ensures EntitledOnes(lib, pod, policies, rs) == []
    decreases |policies|
  {
    if policies != [] {
      NoneEntitled(lib, pod, policies[1..], rs[1..]);
    }
  }

  /** The delay of a run in which nothing can be removed: the time left of a pending TTL with the least. */
  lemma DelayOf(lib: Library, pod: Pod, policies: seq<Policy>, w: Wake, k: nat)
    requires |w.rs| == |policies| && forall i | 0 <= i < |policies| :: !Removable(lib, pod, policies[i].spec, w.rs[i].now)
    requires k < |policies| && TtlPending(pod, policies[k].spec, w.rs[k].now)
    requires forall i | 0 <= i < |policies| && TtlPending(pod, policies[i].spec, w.rs[i].now) ::
               TtlLeft(pod, policies[k].spec, w.rs[k].now) <= TtlLeft(pod, policies[i].spec, w.rs[i].now)
    ensures Delay(lib, pod, policies, w) == Some(TtlLeft(pod, policies[k].spec, w.rs[k].now))
  {
    NoneEntitled(lib, pod, policies, w.rs);
    AttemptsInOrder(lib, pod, policies, w.rs, w.limiter, w.metrics);
    assert |PoliciesOf(Reconcile(lib, pod, policies, w.rs, w.limiter, w.metrics).attempts)| == 0;
    RequeueIsShortestTtl(lib, pod, policies, w.rs, w.limiter, w.metrics, None);
  }

  // ---------------------------------------------------------------- their wake-ups

  /** A run in the middle of the given second of the pod's life. */
  function HalfPast(m: nat, second: int): (w: Wake)
    ensures |w.rs| == m && forall k | 0 <= k < m :: w.rs[k].now == second * NANOS + NANOS / 2
  {
    Wake(seq(m, _ => Readings(second * NANOS + NANOS / 2, 0, 0, 0, true, Failure)), NewLimiter(1, 0), Metrics(0, 0, 0, 0, 0))
  }

  /** Before the pod's creation, by half a second, the age counts as zero, and the first TTL is awaited;
      after it the delay is always a second, since some TTL ends in this second or the next. */
  lemma DelayHalfPast(lib: Library, m: nat, second: int)
    requires m > 0 && -1 <= second <= 2 * m && second != 0
    ensures Delay(lib, AnnotatedPod("ns"), EvenTtls(m), HalfPast(m, second)) == Some(if second < 0 then 2 else 1)
  {
    var pod, policies, w := AnnotatedPod("ns"), EvenTtls(m), HalfPast(m, second);
    var now := second * NANOS + NANOS / 2;
    NumSecondsBounds(now);
    var age := NumSeconds(now);
    assert age == if second < 0 then 0 else second;
    forall i | 0 <= i < m
      ensures !Removable(lib, pod, policies[i].spec, w.rs[i].now)
      ensures TtlPending(pod, policies[i].spec, w.rs[i].now) <==> age <= 2 * (i + 1)
      ensures TtlPending(pod, policies[i].spec, w.rs[i].now) ==>
                TtlLeft(pod, policies[i].spec, w.rs[i].now) == Max(2 * (i + 1) - age, 1)
    {
      DryRunWaits(lib, 2 * (i + 1), now);
    }
    DelayOf(lib, pod, policies, w, if second < 0 then 0 else (second + 1) / 2 - 1);
  }

  function EverySecond(m: nat, second: nat): seq<Wake>
    requires second <= 2 * m + 1
    decreases 2 * m + 1 - second
  {
    if second > 2 * m then [] else [HalfPast(m, second)] + EverySecond(m, second + 1)
  }

  lemma {:induction false} EverySecondRequeued(lib: Library, m: nat, second: nat)
    requires m > 0 && 0 < second <= 2 * m + 1
    ensures |EverySecond(m, second)| == 2 * m + 1 - second
    ensures Requeued(lib, AnnotatedPod("ns"), EvenTtls(m), EverySecond(m, second))
    decreases 2 * m + 1 - second
  {
    if second <= 2 * m {
      DelayHalfPast(lib, m, second);
      EverySecondRequeued(lib, m, second + 1);
      assert EverySecond(m, second)[1..] == EverySecond(m, second + 1);
    }
  }

  lemma OneTtlMore(pod: Pod, policies: seq<Policy>, p: Policy)
    requires Applies(pod, p.spec) && p.spec.when.ttlSeconds.Some?
    ensures Ttls(pod, policies + [p]) == Ttls(pod, policies) + {p.spec.when.ttlSeconds.value}
  {
    assert forall q :: q in policies + [p] <==> q in policies || q == p;
  }

  function Evens(m: nat): (r: set<int>)
    ensures |r| == m && forall t <- r :: t <= 2 * m
  {
    if m == 0 then {} else Evens(m - 1) + {2 * m}
  }

  lemma {:induction false} TtlsAreEvens(lib: Library, m: nat)
    ensures Ttls(AnnotatedPod("ns"), EvenTtls(m)) == Evens(m)
  {
    if m > 0 {
      var p := EvenTtls(m)[m - 1];
      assert EvenTtls(m) == EvenTtls(m - 1) + [p];
      assert p.spec.when.ttlSeconds == Some(2 * m);
      DryRunWaits(lib, 2 * m, 0);
      TtlsAreEvens(lib, m - 1);
      OneTtlMore(AnnotatedPod("ns"), EvenTtls(m - 1), p);
    }
  }

  /** For every number of TTLs there are valid policies and wake-ups, none of them sooner than requested,
      that reach the bound: one before the pod's creation time and two for each TTL. */
  lemma TtlWakeupsEndIsSharp(lib: Library, m: nat) returns (wakes: seq<Wake>)
    requires m > 0
    ensures var pod, policies := AnnotatedPod("ns"), EvenTtls(m);
            && (forall p <- policies :: Validate(p.spec).Ok?)
            && Requeued(lib, pod, policies, wakes)
            && |wakes| == 2 * |Ttls(pod, policies)| + 1 && |Ttls(pod, policies)| == m
  {
    var later := EverySecond(m, 1);
    wakes := [HalfPast(m, -1)] + later;
    TtlsAreEvens(lib, m);
    EverySecondRequeued(lib, m, 1);
    DelayHalfPast(lib, m, -1);
    assert wakes[1..] == later && later[0] == HalfPast(m, 1);
    forall p <- EvenTtls(m)
      ensures Validate(p.spec).Ok?
    {
      DryRunWaits(lib, p.spec.when.ttlSeconds.value, 0);
    }
  }
}
