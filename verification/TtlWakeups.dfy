/** Runs of `reconcile_pod` that are woken by their own TTL requeues: how late they can be, and that there
    are only finitely many of them. */
module TtlWakeups {
  import opened Basics
  import opened Wrappers
  import opened Pods
  import opened Crd
  import opened Ttl
  import opened Cel
  import opened Matching
  import opened RateLimiting
  import opened PodReconcile
  import opened PodProperties

  /** A run returns at `end`, after its last look at a policy, and the pod is looked at again when the
      requested delay has passed since then. For every pending TTL policy of the list, although the delay is
      the shortest of many, that is less than a second past the instant at which it first fires, plus the
      time the run still took after it had looked at this policy. It is less than that second exactly if for
      some pending policy of the list the time it had left, counted from the pod's age in whole seconds at
      `end`, reaches no further than `ttl + 1`; so it is whenever the rest of the run did not change that age. */
  lemma NoTtlIsDelayed(
    lib: Library, pod: Pod, policies: seq<Policy>, rs: seq<Readings>, limiter: Limiter, metrics: Metrics, i: nat, end: int)
    requires |policies| == |rs| && forall k | 0 <= k < |rs| :: rs[k].now <= end
    requires var e := Reconcile(lib, pod, policies, rs, limiter, metrics); e.stop.None? && e.ttl.Some?
    requires i < |policies| && Validate(policies[i].spec).Ok? && TtlPending(pod, policies[i].spec, rs[i].now)
    ensures var delay, ttl := Reconcile(lib, pod, policies, rs, limiter, metrics).ttl.value, policies[i].spec.when.ttlSeconds.value;
            var created := pod.creation.value;
            var wake := end + delay * NANOS;
            && delay >= 1
            && (forall now :: EvaluateTtl(pod, ttl, now) <==> now - created >= (ttl + 1) * NANOS)
            && wake - created < (ttl + 2) * NANOS + (end - rs[i].now)
            && (wake - created < (ttl + 2) * NANOS <==>
                  exists k :: 0 <= k < |policies| && TtlPending(pod, policies[k].spec, rs[k].now)
                    && (end - created) / NANOS + TtlLeft(pod, policies[k].spec, rs[k].now) <= ttl + 1)
            && ((end - created) / NANOS == (rs[i].now - created) / NANOS ==> wake - created < (ttl + 2) * NANOS)
  {
    RequeueIsShortestTtl(lib, pod, policies, rs, limiter, metrics, None);
    var delay, ttl := Reconcile(lib, pod, policies, rs, limiter, metrics).ttl.value, policies[i].spec.when.ttlSeconds.value;
    WakeLag(pod, ttl, rs[i].now, delay);
    WholeSeconds(end - pod.creation.value, delay, ttl + 2);
    WholeSeconds(rs[i].now - pod.creation.value, delay, ttl + 2);
    forall now
      ensures EvaluateTtl(pod, ttl, now) <==> now - pod.creation.value >= (ttl + 1) * NANOS
    {
      TtlMetExactly(pod, ttl, now);
    }
  }

  lemma WholeSeconds(age: int, delay: int, limit: int)
    ensures age + delay * NANOS < limit * NANOS <==> age / NANOS + delay < limit
  {
  }

  /** Three policies on a pod that is looked at when it is 100 seconds old: the first has a TTL of 100
      seconds and is pending, the second acts and its delete request fails, `lost` seconds later the third
      is looked at and the run ends. */
  function LateReadings(lost: nat): seq<Readings> {
    var at := (seconds: nat) => Readings(seconds * NANOS, 0, 0, 0, true, Failure);
    [at(100), at(100), at(100 + lost)]
  }

  function LatePolicies(lost: nat): seq<Policy> {
    var of := (ttl: nat) => Policy("", None, TtlSpec(ttl, Limits(None, false, None)), None);
    [of(100), of(1), of(200 + lost)]
  }

  /** The wake-up is then `lost` seconds past the instant at which the first TTL fires, without any bound. */
  lemma LateWakeup(lib: Library, lost: nat, metrics: Metrics)
    ensures var e := Reconcile(lib, AnnotatedPod("ns"), LatePolicies(lost), LateReadings(lost), NewLimiter(1, 0), metrics);
            && e.stop.None? && e.ttl == Some(1)
            && var end, ttl := LateReadings(lost)[2].now, LatePolicies(lost)[0].spec.when.ttlSeconds.value;
               end + e.ttl.value * NANOS == (ttl + 1 + lost) * NANOS
    ensures forall i | 0 <= i < 3 :: Validate(LatePolicies(lost)[i].spec).Ok? && LateReadings(lost)[i].now <= LateReadings(lost)[2].now
    ensures TtlPending(AnnotatedPod("ns"), LatePolicies(lost)[0].spec, LateReadings(lost)[0].now)
  {
    var limits := Limits(None, false, None);
    TtlSpecDecides(lib, "ns", 100, limits, 100);
    TtlSpecDecides(lib, "ns", 1, limits, 100);
    TtlSpecDecides(lib, "ns", 200 + lost, limits, 100 + lost);
    var pod, policies, rs := AnnotatedPod("ns"), LatePolicies(lost), LateReadings(lost);
    ThreeLooks(Decisions(lib, pod, policies, rs), pod, policies, rs, Start(NewLimiter(1, 0), metrics));
  }

  lemma ThreeLooks(ds: seq<Decision>, pod: Pod, policies: seq<Policy>, rs: seq<Readings>, s: Scan)
    requires |ds| == |policies| == |rs| == 3 && s.stop.None? && s.ttl.None?
    requires ds[0] == Pending(1) && ds[1] == Act && ds[2].Pending? && ds[2].left >= 1
    requires s.limiter == NewLimiter(1, 0) && policies[1].spec == TtlSpec(1, Limits(None, false, None))
    requires rs[1].globalNow == 0 && rs[1].response.Failure?
    ensures ScanAll(ds, pod, policies, rs, s).stop.None? && ScanAll(ds, pod, policies, rs, s).ttl == Some(1)
  {
    assert ds[0..] == ds && policies[0..] == policies && rs[0..] == rs;
    var s1 := Visit(ds[0], pod, policies[0], rs[0], s);
    var s2 := Visit(ds[1], pod, policies[1], rs[1], s1);
    var s3 := Visit(ds[2], pod, policies[2], rs[2], s2);
    ScanHead(ds, pod, policies, rs, 0, s);
    ScanHead(ds, pod, policies, rs, 1, s1);
    ScanHead(ds, pod, policies, rs, 2, s2);
  }

  // ---------------------------------------------------------------- finitely many wake-ups

  /** One run, with the limiter and metrics it starts from. */
  datatype Wake = Wake(rs: seq<Readings>, limiter: Limiter, metrics: Metrics)

  /** The delay a run asks for in its TTL branch: it returned early neither with a removal nor a rate
      limit nor an error, and some TTL is pending. */
  function Delay(lib: Library, pod: Pod, policies: seq<Policy>, w: Wake): Option<nat>
    requires |w.rs| == |policies|
  {
    var e := Reconcile(lib, pod, policies, w.rs, w.limiter, w.metrics);
    if e.stop.None? then e.ttl else None
  }

  /** Every run takes the TTL branch, and the next one reads its clock no sooner than requested. */
  ghost predicate Requeued(lib: Library, pod: Pod, policies: seq<Policy>, wakes: seq<Wake>)
    decreases |wakes|
  {
    wakes == [] ||
    (&& |wakes[0].rs| == |policies|
     && Delay(lib, pod, policies, wakes[0]).Some?
     && (|wakes| > 1 ==>
          forall i, j | 0 <= i < |wakes[0].rs| && 0 <= j < |wakes[1].rs| ::
            wakes[0].rs[i].now + Delay(lib, pod, policies, wakes[0]).value * NANOS <= wakes[1].rs[j].now)
     && Requeued(lib, pod, policies, wakes[1..]))
  }

  /** The distinct TTLs that can be pending for the pod. */
  ghost function Ttls(pod: Pod, policies: seq<Policy>): set<int> {
    set p <- policies | Applies(pod, p.spec) && p.spec.when.ttlSeconds.Some? :: p.spec.when.ttlSeconds.value
  }

  /** The TTLs that still lie `slack` seconds or less behind the pod's age at `instant`. */
  ghost function Ahead(ttls: set<int>, created: int, instant: int, slack: int): set<int> {
    set t <- ttls | instant - created < (t + slack) * NANOS
  }

  /** Two for every TTL that is not reached, one for every TTL in its last second, one for a clock that
      is behind the creation time. */
  ghost function Rank(ttls: set<int>, created: int, instant: int): nat {
    |Ahead(ttls, created, instant, 0)| + |Ahead(ttls, created, instant, 1)| + (if instant < created then 1 else 0)
  }

  lemma RankNeverRises(ttls: set<int>, created: int, x: int, y: int)
    requires x <= y
    ensures Rank(ttls, created, y) <= Rank(ttls, created, x)
  {
    SubsetSize(Ahead(ttls, created, y, 0), Ahead(ttls, created, x, 0));
    SubsetSize(Ahead(ttls, created, y, 1), Ahead(ttls, created, x, 1));
  }

  lemma StrictSubsetSize(a: set<int>, b: set<int>, t: int)
    requires a <= b && t in b && t !in a
    ensures |a| < |b|
  {
    SubsetSize(a, b - {t});
  }

  /** Waiting for the time left of a pending TTL brings the rank down, whichever way the age was
      truncated. */
  lemma RankFalls(ttls: set<int>, created: int, now: int, ttl: int)
    requires ttl in ttls && ttl > 0 && NumSeconds(now - created) <= ttl
    ensures Rank(ttls, created, now + Max(ttl - NumSeconds(now - created), 1) * NANOS) < Rank(ttls, created, now)
  {
    var age := NumSeconds(now - created);
    var later := now + Max(ttl - age, 1) * NANOS;
    NumSecondsBounds(now - created);
    SubsetSize(Ahead(ttls, created, later, 0), Ahead(ttls, created, now, 0));
    SubsetSize(Ahead(ttls, created, later, 1), Ahead(ttls, created, now, 1));
    if now >= created {
      var slack := if age < ttl then 0 else 1;
      assert ttl in Ahead(ttls, created, now, slack) && ttl !in Ahead(ttls, created, later, slack);
      StrictSubsetSize(Ahead(ttls, created, later, slack), Ahead(ttls, created, now, slack), ttl);
    }
  }

  /** A wake-up reduced to the reading and the TTL that decided its delay. */
  datatype Link = Link(now: int, ttl: int)

  function LinkDelay(l: Link, created: int): int {
    Max(l.ttl - NumSeconds(l.now - created), 1)
  }

  ghost predicate Chain(ttls: set<int>, created: int, links: seq<Link>, from: int)
    decreases |links|
  {
    links == [] ||
    (&& links[0].ttl in ttls && links[0].ttl > 0 && NumSeconds(links[0].now - created) <= links[0].ttl
     && from <= links[0].now
     && Chain(ttls, created, links[1..], links[0].now + LinkDelay(links[0], created) * NANOS))
  }

  lemma {:induction false} ChainWithinRank(ttls: set<int>, created: int, links: seq<Link>, from: int)
    requires Chain(ttls, created, links, from)
    ensures |links| <= Rank(ttls, created, from)
    decreases |links|
  {
    if links != [] {
      var now, ttl := links[0].now, links[0].ttl;
      ChainWithinRank(ttls, created, links[1..], now + LinkDelay(links[0], created) * NANOS);
      RankFalls(ttls, created, now, ttl);
      RankNeverRises(ttls, created, from, now);
    }
  }

  /** A Builtin policy's TTL, if it has one, is positive. */
  predicate PositiveTtl(spec: Spec) {
    spec.when.conditionType.Builtin? && spec.when.ttlSeconds.Some? ==> spec.when.ttlSeconds.value > 0
  }

  lemma ValidTtlsArePositive(spec: Spec)
    requires Validate(spec).Ok?
    ensures PositiveTtl(spec)
  {
  }

  lemma PendingTtlListed(pod: Pod, policies: seq<Policy>, p: Policy, now: int)
    requires p in policies && TtlPending(pod, p.spec, now) && PositiveTtl(p.spec)
    ensures p.spec.when.ttlSeconds.value in Ttls(pod, policies) && p.spec.when.ttlSeconds.value > 0
    ensures NumSeconds(now - pod.creation.value) <= p.spec.when.ttlSeconds.value
    ensures TtlLeft(pod, p.spec, now) == LinkDelay(Link(now, p.spec.when.ttlSeconds.value), pod.creation.value)
  {
  }

  /** The policy whose TTL decides the delay. */
  lemma DecidingTtl(lib: Library, pod: Pod, policies: seq<Policy>, w: Wake) returns (i: nat, l: Link)
    requires |w.rs| == |policies| && pod.creation.Some? && forall p <- policies :: PositiveTtl(p.spec)
    requires Delay(lib, pod, policies, w).Some?
    ensures i < |w.rs| && l.now == w.rs[i].now
    ensures l.ttl in Ttls(pod, policies) && l.ttl > 0 && NumSeconds(l.now - pod.creation.value) <= l.ttl
    ensures Delay(lib, pod, policies, w).value == LinkDelay(l, pod.creation.value)
  {
    RequeueIsShortestTtl(lib, pod, policies, w.rs, w.limiter, w.metrics, None);
    i :| 0 <= i < |policies| && TtlPending(pod, policies[i].spec, w.rs[i].now)
         && Delay(lib, pod, policies, w).value == TtlLeft(pod, policies[i].spec, w.rs[i].now);
    var p := policies[i];
    l := Link(w.rs[i].now, p.spec.when.ttlSeconds.value);
    PendingTtlListed(pod, policies, p, l.now);
  }

  lemma {:induction false} WakesChain(lib: Library, pod: Pod, policies: seq<Policy>, wakes: seq<Wake>, from: int)
    returns (links: seq<Link>)
    requires pod.creation.Some? && forall p <- policies :: PositiveTtl(p.spec)
    requires Requeued(lib, pod, policies, wakes)
    requires wakes != [] ==> forall i | 0 <= i < |wakes[0].rs| :: from <= wakes[0].rs[i].now
    ensures |links| == |wakes| && Chain(Ttls(pod, policies), pod.creation.value, links, from)
    decreases |wakes|
  {
    links := [];
    if wakes != [] {
      var i, l := DecidingTtl(lib, pod, policies, wakes[0]);
      var rest := WakesChain(lib, pod, policies, wakes[1..], l.now + LinkDelay(l, pod.creation.value) * NANOS);
      links := [l] + rest;
      assert links[1..] == rest;
    }
  }

  /** With a fixed pod and policy list, the TTL branch is taken at most twice per distinct TTL, and once
      more if the clock started behind the pod's creation time. */
  lemma TtlWakeupsEnd(lib: Library, pod: Pod, policies: seq<Policy>, wakes: seq<Wake>, from: int)
    requires pod.creation.Some? && forall p <- policies :: Validate(p.spec).Ok?
    requires Requeued(lib, pod, policies, wakes)
    requires wakes != [] ==> forall i | 0 <= i < |wakes[0].rs| :: from <= wakes[0].rs[i].now
    ensures |wakes| <= 2 * |Ttls(pod, policies)| + (if from < pod.creation.value then 1 else 0)
  {
    var ttls, created := Ttls(pod, policies), pod.creation.value;
    forall p <- policies
      ensures PositiveTtl(p.spec)
    {
      ValidTtlsArePositive(p.spec);
    }
    var links := WakesChain(lib, pod, policies, wakes, from);
    ChainWithinRank(ttls, created, links, from);
    SubsetSize(Ahead(ttls, created, from, 0), ttls);
    SubsetSize(Ahead(ttls, created, from, 1), ttls);
  }

  /** When the branch is not taken any more and the run did not end early, no TTL is pending. */
  lemma NoTtlLeft(lib: Library, pod: Pod, policies: seq<Policy>, w: Wake)
    requires |w.rs| == |policies|
    requires Reconcile(lib, pod, policies, w.rs, w.limiter, w.metrics).stop.None?
    requires Delay(lib, pod, policies, w).None?
    ensures forall i | 0 <= i < |policies| :: !TtlPending(pod, policies[i].spec, w.rs[i].now)
  {
    RequeueIsShortestTtl(lib, pod, policies, w.rs, w.limiter, w.metrics, None);
  }
}
