/** What `reconcile_pod` guarantees about one run, stated without its control flow. */
module PodProperties {
  import opened Basics
  import opened Wrappers
  import opened Pods
  import opened Crd
  import opened Ttl
  import opened Cel
  import opened Matching
  import opened RateLimiting
  import opened PodReconcile

  // ---------------------------------------------------------------- who may be removed

  /** The policy's own condition holds for the pod at instant `now`. */
  predicate ConditionMet(lib: Library, pod: Pod, when: When, now: int) {
    match when.conditionType
    case Builtin =>
      when.ttlSeconds.Some? && pod.creation.Some? && NumSeconds(now - pod.creation.value) > when.ttlSeconds.value
    case CEL => when.expression.Some? && EvaluateAfresh(lib, when.expression.value, pod, now) == Ok(true)
  }

  /** The policy entitles the operator to try to remove the pod. */
  predicate Removable(lib: Library, pod: Pod, spec: Spec, now: int) {
    && Applies(pod, spec)
    && ConditionMet(lib, pod, spec.when, now)
    && !IsNamespaceProtected(pod.Namespace(), spec.limits)
    && !spec.then_.dryRun
  }

  /** A matched Builtin policy with a creation time to count from, whose TTL has not passed. */
  predicate TtlPending(pod: Pod, spec: Spec, now: int) {
    && Applies(pod, spec)
    && spec.when.conditionType.Builtin? && spec.when.ttlSeconds.Some? && pod.creation.Some?
    && NumSeconds(now - pod.creation.value) <= spec.when.ttlSeconds.value
  }

  function TtlLeft(pod: Pod, spec: Spec, now: int): (left: nat)
    requires TtlPending(pod, spec, now)
  {
    Max(spec.when.ttlSeconds.value - NumSeconds(now - pod.creation.value), 1)
  }

  lemma DecisionOnRemovable(lib: Library, pod: Pod, spec: Spec, now: int)
    ensures Decide(lib, pod, spec, now).Act? <==> Removable(lib, pod, spec, now)
    ensures Decide(lib, pod, spec, now).Pending? <==> TtlPending(pod, spec, now)
    ensures TtlPending(pod, spec, now) ==> Decide(lib, pod, spec, now) == Pending(TtlLeft(pod, spec, now))
    ensures Decide(lib, pod, spec, now).NotApplicable? <==> !Applies(pod, spec)
  {
  }

  /** Some valid policy that protects system namespaces or not, and excludes these, can have a pod of `ns`
      removed. */
  ghost predicate Exposed(lib: Library, ns: string, protects: bool, excluded: Option<seq<string>>) {
    exists pod: Pod, spec: Spec, now: int ::
      && pod.Namespace() == ns && Validate(spec).Ok?
      && spec.limits.protectSystemNamespaces == protects && spec.limits.excludedNamespaces == excluded
      && Removable(lib, pod, spec, now)
  }

  /** A pod created at instant 0, and a policy that deletes it once its TTL is met. */
  function AnnotatedPod(ns: string): Pod {
    Pod("p", Some(ns), map[], map["a" := "v"], Some(0), "")
  }

  function TtlSpec(ttl: int, limits: Limits): Spec {
    Spec(Match(None, None), Trigger("a", {"v"}), When(Builtin, None, Some(ttl)), Then(Delete, None, false), limits)
  }

  lemma TtlSpecDecides(lib: Library, ns: string, ttl: int, limits: Limits, age: nat)
    requires ttl > 0
    ensures var pod, spec := AnnotatedPod(ns), TtlSpec(ttl, limits);
            && Validate(spec).Ok?
            && (age > ttl && !IsNamespaceProtected(ns, limits) <==> Removable(lib, pod, spec, age * NANOS))
            && (age > ttl && !IsNamespaceProtected(ns, limits) ==> Decide(lib, pod, spec, age * NANOS) == Act)
            && (age <= ttl ==> TtlPending(pod, spec, age * NANOS)
                               && Decide(lib, pod, spec, age * NANOS) == Pending(Max(ttl - age, 1)))
  {
    assert "v" in TtlSpec(ttl, limits).trigger.annotationValues;
    assert NumSeconds(age * NANOS - 0) == age;
  }

  /** What a policy protects: six namespaces if `protectSystemNamespaces` is set, and the excluded ones
      whether it is set or not. */
  lemma ProtectedNamespacesExactly(lib: Library, ns: string, protects: bool, excluded: Option<seq<string>>)
    ensures !Exposed(lib, ns, protects, excluded) <==>
      || (protects && ns in ["kube-system", "kube-public", "kube-node-lease",
                             "kube-apiserver", "kube-controller-manager", "kube-scheduler"])
      || (excluded.Some? && ns in excluded.value)
  {
    var limits := Limits(None, protects, excluded);
    TtlSpecDecides(lib, ns, 1, limits, 2);
    assert IsNamespaceProtected(ns, limits) <==>
      (protects && IsSystemNamespace(ns)) || (excluded.Some? && ns in excluded.value);
  }

  /** So the namespaces that the comments and the repository's README add to them are not protected. */
  lemma PromisedNamespacesAreExposed(lib: Library)
    ensures Exposed(lib, "default", true, None) && Exposed(lib, "kube-depod", true, None)
  {
    ProtectedNamespacesExactly(lib, "default", true, None);
    ProtectedNamespacesExactly(lib, "kube-depod", true, None);
  }

  /** An attempt is justified when its policy entitled it at the instant it was checked, and a request
      of the policy's own kind goes out only when both limits granted it. */
  ghost predicate Justified(lib: Library, a: Attempt) {
    && Removable(lib, a.pod, a.policy.spec, a.readings.now)
    && RightEffect(a)
  }

  /** The grace period sent with a delete: none if the policy sets none, otherwise its low 32 bits. */
  ghost predicate RightGrace(asked: Option<int>, sent: Option<nat>) {
    match asked
    case None => sent.None?
    case Some(g) =>
      sent.Some? && sent.value < 0x1_0000_0000 && (sent.value - g) % 0x1_0000_0000 == 0
  }

  ghost predicate RightEffect(a: Attempt) {
    && (a.effect.Denied? <==> !(a.globalOk && a.policyOk))
    && (a.effect.DeleteCall? ==> a.policy.spec.then_.actionType.Delete?)
    && (a.effect.EvictCall? ==> a.policy.spec.then_.actionType.Evict? && a.readings.serializes)
    && (a.effect.NotSerialized? ==> a.policy.spec.then_.actionType.Evict? && !a.readings.serializes)
    && (a.effect.DeleteCall? ==>
         && RightGrace(a.policy.spec.then_.gracePeriodSeconds, a.effect.deleteGrace)
         && (a.effect.succeeded <==> a.readings.response.Reply?))
    && (a.effect.EvictCall? ==>
         && a.effect.evictGrace == a.policy.spec.then_.gracePeriodSeconds
         && (a.effect.succeeded <==> a.readings.response in {Reply(None), Reply(Some("Success"))}))
  }

  // ---------------------------------------------------------------- the attempts of one run

  /** The policies that are acted on, in list order. */
  function Acting(ds: seq<Decision>, policies: seq<Policy>): seq<Policy>
    requires |ds| == |policies|
    decreases |ds|
  {
    if ds == [] then [] else (if ds[0].Act? then [policies[0]] else []) + Acting(ds[1..], policies[1..])
  }

  function PoliciesOf(attempts: seq<Attempt>): seq<Policy> {
    seq(|attempts|, i requires 0 <= i < |attempts| => attempts[i].policy)
  }

  /** Every attempt but the last was a request that failed. */
  ghost predicate OnlyLastMayEnd(attempts: seq<Attempt>) {
    forall j | 0 <= j < |attempts| - 1 :: IsFailedCall(attempts[j])
  }

  function Last(attempts: seq<Attempt>): Attempt
    requires attempts != []
  {
    attempts[|attempts| - 1]
  }

  function EndedBy(attempts: seq<Attempt>): Option<Outcome> {
    if attempts == [] then None else StopAfter(Last(attempts).effect)
  }

  predicate Succeeded(a: Attempt) {
    IsCall(a) && a.effect.succeeded
  }

  lemma AttemptFacts(pod: Pod, policy: Policy, r: Readings, limiter: Limiter)
    ensures var a := TryRemove(pod, policy, r, limiter);
            && a.pod == pod && a.policy == policy && a.readings == r
            && (StopAfter(a.effect).None? <==> IsFailedCall(a))
  {
  }

  /** The attempts a scan adds: those of the acting policies in order, up to the first that is not a
      failed request; that one ends the scan. */
  lemma {:induction false} ScanAttempts(ds: seq<Decision>, pod: Pod, policies: seq<Policy>, rs: seq<Readings>, s: Scan)
    returns (made: seq<Attempt>)
    requires |ds| == |policies| == |rs| && s.stop.None?
    ensures var e := ScanAll(ds, pod, policies, rs, s);
            && e.attempts == s.attempts + made
            && e.stop == EndedBy(made) && OnlyLastMayEnd(made)
            && PoliciesOf(made) <= Acting(ds, policies)
            && (e.stop.None? ==> PoliciesOf(made) == Acting(ds, policies))
    decreases |ds|
  {
    made := [];
    if ds == [] {
      return;
    }
    var s' := Visit(ds[0], pod, policies[0], rs[0], s);
    if ds[0].Act? {
      var a := TryRemove(pod, policies[0], rs[0], s.limiter);
      AttemptFacts(pod, policies[0], rs[0], s.limiter);
      var rest := [];
      if s'.stop.None? {
        rest := ScanAttempts(ds[1..], pod, policies[1..], rs[1..], s');
      }
      made := [a] + rest;
      assert s.attempts + made == s'.attempts + rest;
      assert PoliciesOf(made) == [policies[0]] + PoliciesOf(rest);
    } else {
      made := ScanAttempts(ds[1..], pod, policies[1..], rs[1..], s');
      assert Acting(ds, policies) == Acting(ds[1..], policies[1..]);
    }
  }

  /** The policies that entitle removal, in list order. */
  function EntitledOnes(lib: Library, pod: Pod, policies: seq<Policy>, rs: seq<Readings>): seq<Policy>
    requires |policies| == |rs|
    decreases |policies|
  {
    if policies == [] then []
    else
      (if Removable(lib, pod, policies[0].spec, rs[0].now) then [policies[0]] else [])
      + EntitledOnes(lib, pod, policies[1..], rs[1..])
  }

  lemma {:induction false} ActingIsEntitled(lib: Library, pod: Pod, policies: seq<Policy>, rs: seq<Readings>)
    requires |policies| == |rs|
    ensures Acting(Decisions(lib, pod, policies, rs), policies) == EntitledOnes(lib, pod, policies, rs)
    decreases |policies|
  {
    if policies != [] {
      DecisionOnRemovable(lib, pod, policies[0].spec, rs[0].now);
      ActingIsEntitled(lib, pod, policies[1..], rs[1..]);
      assert Decisions(lib, pod, policies, rs)[1..] == Decisions(lib, pod, policies[1..], rs[1..]);
    }
  }

  /** One run tries the policies that entitle removal, in list order, and stops at the first attempt that
      is not a failed request: so every attempt but the last failed, at most one succeeded, and that one
      came last. Unless it stopped, every such policy was tried. What it returns is decided by the last
      attempt (a denied one is retried in ten seconds) or, if nothing ended it, by the pending TTLs. */
  lemma AttemptsInOrder(lib: Library, pod: Pod, policies: seq<Policy>, rs: seq<Readings>, limiter: Limiter, metrics: Metrics)
    requires |policies| == |rs|
    ensures var e := Reconcile(lib, pod, policies, rs, limiter, metrics);
            && PoliciesOf(e.attempts) <= EntitledOnes(lib, pod, policies, rs)
            && (e.stop.None? ==> PoliciesOf(e.attempts) == EntitledOnes(lib, pod, policies, rs))
            && OnlyLastMayEnd(e.attempts)
            && (e.stop.None? <==> e.attempts == [] || IsFailedCall(Last(e.attempts)))
            && (e.stop == Some(Requeue(10)) <==> e.attempts != [] && Last(e.attempts).effect.Denied?)
            && (e.stop == Some(Error) <==> e.attempts != [] && Last(e.attempts).effect.NotSerialized?)
            && (e.stop == Some(AwaitChange) <==> e.attempts != [] && Succeeded(Last(e.attempts)))
  {
    var s := Start(limiter, metrics);
    var made := ScanAttempts(Decisions(lib, pod, policies, rs), pod, policies, rs, s);
    assert s.attempts + made == made;
    ActingIsEntitled(lib, pod, policies, rs);
  }

  /** Where an attempt comes from. */
  ghost predicate MadeFor(ds: seq<Decision>, pod: Pod, policies: seq<Policy>, rs: seq<Readings>, a: Attempt)
    requires |ds| == |policies| == |rs|
  {
    && a.pod == pod && RightEffect(a)
    && exists i :: 0 <= i < |ds| && ds[i].Act? && a.policy == policies[i] && a.readings == rs[i]
  }

  lemma LowBits(g: int)
    ensures 0 <= AsU32(g) < 0x1_0000_0000 && (AsU32(g) - g) % 0x1_0000_0000 == 0
  {
    var q := g / 0x1_0000_0000;
    assert AsU32(g) - g == -q * 0x1_0000_0000;
  }

  lemma TriedRightly(pod: Pod, policy: Policy, r: Readings, limiter: Limiter)
    ensures RightEffect(TryRemove(pod, policy, r, limiter))
  {
    LowBits(policy.spec.then_.gracePeriodSeconds.GetOr(0));
  }

  lemma {:induction false} AttemptSources(ds: seq<Decision>, pod: Pod, policies: seq<Policy>, rs: seq<Readings>, s: Scan)
    requires |ds| == |policies| == |rs|
    ensures forall a <- ScanAll(ds, pod, policies, rs, s).attempts ::
              a in s.attempts || MadeFor(ds, pod, policies, rs, a)
    decreases |ds|
  {
    if ds != [] && s.stop.None? {
      var s' := Visit(ds[0], pod, policies[0], rs[0], s);
      AttemptSources(ds[1..], pod, policies[1..], rs[1..], s');
      TriedRightly(pod, policies[0], rs[0], s.limiter);
      AttemptFacts(pod, policies[0], rs[0], s.limiter);
      forall a <- ScanAll(ds, pod, policies, rs, s).attempts | a !in s.attempts
        ensures MadeFor(ds, pod, policies, rs, a)
      {
        if a in s'.attempts {
          assert ds[0].Act? && a == TryRemove(pod, policies[0], rs[0], s.limiter);
        } else {
          assert MadeFor(ds[1..], pod, policies[1..], rs[1..], a);
          var i :| 0 <= i < |ds[1..]| && ds[1..][i].Act? && a.policy == policies[1..][i] && a.readings == rs[1..][i];
          assert ds[i + 1].Act? && a.policy == policies[i + 1] && a.readings == rs[i + 1];
        }
      }
    }
  }

  /** Every attempt of a run is for the pod at hand, by a policy of the list, and justified. */
  lemma AttemptsJustified(lib: Library, pod: Pod, policies: seq<Policy>, rs: seq<Readings>, limiter: Limiter, metrics: Metrics)
    requires |policies| == |rs|
    ensures forall a <- Reconcile(lib, pod, policies, rs, limiter, metrics).attempts ::
              a.pod == pod && a.policy in policies && Justified(lib, a)
  {
    var ds := Decisions(lib, pod, policies, rs);
    AttemptSources(ds, pod, policies, rs, Start(limiter, metrics));
    forall a <- Reconcile(lib, pod, policies, rs, limiter, metrics).attempts
      ensures a.pod == pod && a.policy in policies && Justified(lib, a)
    {
      assert MadeFor(ds, pod, policies, rs, a);
      var i :| 0 <= i < |ds| && ds[i].Act? && a.policy == policies[i] && a.readings == rs[i];
      DecisionOnRemovable(lib, pod, policies[i].spec, rs[i].now);
    }
  }

  // ---------------------------------------------------------------- the requeue delay

  lemma {:induction false} ScanTtl(ds: seq<Decision>, pod: Pod, policies: seq<Policy>, rs: seq<Readings>, s: Scan)
    requires |ds| == |policies| == |rs|
    requires ScanAll(ds, pod, policies, rs, s).stop.None?
    ensures var ttl := ScanAll(ds, pod, policies, rs, s).ttl;
            && (ttl.None? <==> s.ttl.None? && forall i | 0 <= i < |ds| :: !ds[i].Pending?)
            && (ttl.Some? ==>
                 && (s.ttl.Some? ==> ttl.value <= s.ttl.value)
                 && (forall i | 0 <= i < |ds| && ds[i].Pending? :: ttl.value <= ds[i].left)
                 && (ttl == s.ttl || exists i :: 0 <= i < |ds| && ds[i] == Pending(ttl.value)))
    decreases |ds|
  {
    if ds != [] {
      assert s.stop.None?;
      var s' := Visit(ds[0], pod, policies[0], rs[0], s);
      ScanTtl(ds[1..], pod, policies[1..], rs[1..], s');
      var ttl := ScanAll(ds, pod, policies, rs, s).ttl;
      assert forall i | 1 <= i < |ds| :: ds[i] == ds[1..][i - 1];
      if ttl.Some? && ttl != s'.ttl {
        var i :| 0 <= i < |ds[1..]| && ds[1..][i] == Pending(ttl.value);
        assert ds[i + 1] == Pending(ttl.value);
      }
    }
  }

  /** If no attempt ends the run, the pod is looked at again after the shortest time left of exactly the
      pending TTLs (each at least one second); without any, after the resync interval, if there is one. */
  lemma RequeueIsShortestTtl(
    lib: Library, pod: Pod, policies: seq<Policy>, rs: seq<Readings>, limiter: Limiter, metrics: Metrics, resync: Option<nat>)
    requires |policies| == |rs|
    requires Reconcile(lib, pod, policies, rs, limiter, metrics).stop.None?
    ensures var e := Reconcile(lib, pod, policies, rs, limiter, metrics);
            && (e.ttl.None? <==> forall i | 0 <= i < |policies| :: !TtlPending(pod, policies[i].spec, rs[i].now))
            && (e.ttl.None? ==> ActionFor(e, resync) == if resync.Some? then Requeue(resync.value) else AwaitChange)
            && (e.ttl.Some? ==>
                 && e.ttl.value >= 1 && ActionFor(e, resync) == Requeue(e.ttl.value)
                 && (forall i | 0 <= i < |policies| && TtlPending(pod, policies[i].spec, rs[i].now) ::
                       e.ttl.value <= TtlLeft(pod, policies[i].spec, rs[i].now))
                 && (exists i :: 0 <= i < |policies| && TtlPending(pod, policies[i].spec, rs[i].now)
                       && e.ttl.value == TtlLeft(pod, policies[i].spec, rs[i].now)))
  {
    var ds := Decisions(lib, pod, policies, rs);
    ScanTtl(ds, pod, policies, rs, Start(limiter, metrics));
    forall i | 0 <= i < |ds|
      ensures ds[i].Pending? <==> TtlPending(pod, policies[i].spec, rs[i].now)
      ensures ds[i].Pending? ==> ds[i].left == TtlLeft(pod, policies[i].spec, rs[i].now)
    {
      DecisionOnRemovable(lib, pod, policies[i].spec, rs[i].now);
    }
    var e := Reconcile(lib, pod, policies, rs, limiter, metrics);
    if e.ttl.Some? {
      var i :| 0 <= i < |ds| && ds[i] == Pending(e.ttl.value);
      assert TtlPending(pod, policies[i].spec, rs[i].now);
    }
  }

  // ---------------------------------------------------------------- the result

  /** The result of a run whose last attempt ended it. */
  ghost predicate AnswersLast(made: seq<Attempt>, outcome: Outcome) {
    made != [] && !IsFailedCall(Last(made)) ==>
      && (Last(made).effect.Denied? ==> outcome == Requeue(10))
      && (Last(made).effect.NotSerialized? ==> outcome == Error)
      && (Succeeded(Last(made)) ==> outcome == AwaitChange)
  }

  /** The result of a run that nothing ended: the least time left of the pending TTLs, else the resync
      interval. */
  ghost predicate AwaitsTtl(pod: Pod, policies: seq<Policy>, rs: seq<Readings>, resync: Option<nat>, outcome: Outcome)
    requires |policies| == |rs|
  {
    if forall i | 0 <= i < |policies| :: !TtlPending(pod, policies[i].spec, rs[i].now) then
      outcome == if resync.Some? then Requeue(resync.value) else AwaitChange
    else
      && outcome.Requeue? && outcome.seconds >= 1
      && (forall i | 0 <= i < |policies| && TtlPending(pod, policies[i].spec, rs[i].now) ::
            outcome.seconds <= TtlLeft(pod, policies[i].spec, rs[i].now))
      && (exists i :: 0 <= i < |policies| && TtlPending(pod, policies[i].spec, rs[i].now)
            && outcome.seconds == TtlLeft(pod, policies[i].spec, rs[i].now))
  }

  ghost predicate RightOutcome(
    pod: Pod, policies: seq<Policy>, rs: seq<Readings>, resync: Option<nat>, made: seq<Attempt>, outcome: Outcome)
    requires |policies| == |rs|
  {
    && AnswersLast(made, outcome)
    && (made == [] || IsFailedCall(Last(made)) ==> AwaitsTtl(pod, policies, rs, resync, outcome))
  }

  /** Every run returns what its last attempt or, if that did not end it, the pending TTLs call for. */
  lemma OutcomeExactly(
    lib: Library, pod: Pod, policies: seq<Policy>, rs: seq<Readings>, limiter: Limiter, metrics: Metrics, resync: Option<nat>)
    requires |policies| == |rs|
    ensures var e := Reconcile(lib, pod, policies, rs, limiter, metrics);
            RightOutcome(pod, policies, rs, resync, e.attempts, ActionFor(e, resync))
  {
    AttemptsInOrder(lib, pod, policies, rs, limiter, metrics);
    if Reconcile(lib, pod, policies, rs, limiter, metrics).stop.None? {
      RequeueIsShortestTtl(lib, pod, policies, rs, limiter, metrics, resync);
    }
  }

  // ---------------------------------------------------------------- metrics

  function Successes(attempts: seq<Attempt>): nat {
    |Filter((a: Attempt) => Succeeded(a), attempts)|
  }

  function Denials(attempts: seq<Attempt>): nat {
    |Filter((a: Attempt) => a.effect.Denied?, attempts)|
  }

  function FailedCalls(attempts: seq<Attempt>): nat {
    |Filter((a: Attempt) => IsFailedCall(a), attempts)|
  }

  lemma CountsAppend(xs: seq<Attempt>, ys: seq<Attempt>)
    ensures Successes(xs + ys) == Successes(xs) + Successes(ys)
    ensures Denials(xs + ys) == Denials(xs) + Denials(ys)
    ensures FailedCalls(xs + ys) == FailedCalls(xs) + FailedCalls(ys)
  {
    FilterAppend((a: Attempt) => Succeeded(a), xs, ys);
    FilterAppend((a: Attempt) => a.effect.Denied?, xs, ys);
    FilterAppend((a: Attempt) => IsFailedCall(a), xs, ys);
  }

  lemma CountsOfOne(a: Attempt)
    ensures Successes([a]) == if Succeeded(a) then 1 else 0
    ensures Denials([a]) == if a.effect.Denied? then 1 else 0
    ensures FailedCalls([a]) == if IsFailedCall(a) then 1 else 0
  {
    FilterOne((b: Attempt) => Succeeded(b), a);
    FilterOne((b: Attempt) => b.effect.Denied?, a);
    FilterOne((b: Attempt) => IsFailedCall(b), a);
  }

  /** The counters agree with the attempts: a removal for each request that succeeded, a rate-limit hit
      for each denial, an error for each failed request and possibly others. */
  ghost predicate Tallied(m: Metrics, attempts: seq<Attempt>) {
    m.podsDeleted == Successes(attempts) && m.rateLimited == Denials(attempts) && m.evaluationErrors >= FailedCalls(attempts)
  }

  predicate IsError(d: Decision) {
    d.Broken? || d.MissingTtl? || d.MissingExpression?
  }

  function Matches(ds: seq<Decision>): nat {
    |Filter((d: Decision) => !d.NotApplicable?, ds)|
  }

  function Errors(ds: seq<Decision>): nat {
    |Filter((d: Decision) => IsError(d), ds)|
  }

  /** How many policies a scan looks at. */
  function LookedAt(ds: seq<Decision>, pod: Pod, policies: seq<Policy>, rs: seq<Readings>, s: Scan): nat
    requires |ds| == |policies| == |rs|
    decreases |ds|
  {
    if ds == [] || s.stop.Some? then 0
    else 1 + LookedAt(ds[1..], pod, policies[1..], rs[1..], Visit(ds[0], pod, policies[0], rs[0], s))
  }

  /** The scan of the first `k` policies. */
  function ScanFirst(k: nat, ds: seq<Decision>, pod: Pod, policies: seq<Policy>, rs: seq<Readings>, s: Scan): Scan
    requires k <= |ds| == |policies| == |rs|
  {
    ScanAll(ds[..k], pod, policies[..k], rs[..k], s)
  }

  lemma ScanFirstStep(k: nat, ds: seq<Decision>, pod: Pod, policies: seq<Policy>, rs: seq<Readings>, s: Scan)
    requires 0 < k <= |ds| == |policies| == |rs| && s.stop.None?
    ensures ScanFirst(k, ds, pod, policies, rs, s)
         == ScanFirst(k - 1, ds[1..], pod, policies[1..], rs[1..], Visit(ds[0], pod, policies[0], rs[0], s))
  {
    assert ds[..k][1..] == ds[1..][..k - 1];
    assert policies[..k][1..] == policies[1..][..k - 1];
    assert rs[..k][1..] == rs[1..][..k - 1];
  }

  /** These are the first ones up to where the scan stops, which is at an attempt, or all. */
  lemma {:induction false} LookedAtFirst(ds: seq<Decision>, pod: Pod, policies: seq<Policy>, rs: seq<Readings>, s: Scan)
    requires |ds| == |policies| == |rs| && s.stop.None?
    ensures var k, e := LookedAt(ds, pod, policies, rs, s), ScanAll(ds, pod, policies, rs, s);
            && k <= |ds| && ScanFirst(k, ds, pod, policies, rs, s) == e
            && (forall j: nat | j < k :: ScanFirst(j, ds, pod, policies, rs, s).stop.None?)
            && (e.stop.None? ==> k == |ds|)
            && (e.stop.Some? ==> k > 0 && ds[k - 1].Act?)
    decreases |ds|
  {
    if ds != [] {
      var s' := Visit(ds[0], pod, policies[0], rs[0], s);
      var k := LookedAt(ds, pod, policies, rs, s);
      if s'.stop.None? {
        LookedAtFirst(ds[1..], pod, policies[1..], rs[1..], s');
      }
      ScanFirstStep(k, ds, pod, policies, rs, s);
      forall j: nat | j < k
        ensures ScanFirst(j, ds, pod, policies, rs, s).stop.None?
      {
        if j > 0 {
          ScanFirstStep(j, ds, pod, policies, rs, s);
        }
      }
    }
  }

  lemma VisitExactCounts(d: Decision, pod: Pod, policy: Policy, r: Readings, s: Scan)
    ensures var v := Visit(d, pod, policy, r, s);
            && v.metrics.policyMatches == s.metrics.policyMatches + (if d.NotApplicable? then 0 else 1)
            && v.metrics.evaluationErrors - FailedCalls(v.attempts)
                 == s.metrics.evaluationErrors - FailedCalls(s.attempts) + (if IsError(d) then 1 else 0)
  {
    if d.Act? {
      var a := TryRemove(pod, policy, r, s.limiter);
      CountsAppend(s.attempts, [a]);
      CountsOfOne(a);
    }
  }

  /** The exact counts of a scan: one match for each policy looked at that applies, one error for each that
      cannot be evaluated and for each failed request. */
  lemma {:induction false} ScanCounts(ds: seq<Decision>, pod: Pod, policies: seq<Policy>, rs: seq<Readings>, s: Scan)
    requires |ds| == |policies| == |rs| && s.stop.None?
    ensures var k, e := LookedAt(ds, pod, policies, rs, s), ScanAll(ds, pod, policies, rs, s);
            && k <= |ds| && ScanFirst(k, ds, pod, policies, rs, s) == e
            && (e.stop.None? ==> k == |ds|) && (e.stop.Some? ==> k > 0 && ds[k - 1].Act?)
            && e.metrics.policyMatches == s.metrics.policyMatches + Matches(ds[..k])
            && e.metrics.evaluationErrors - FailedCalls(e.attempts)
                 == s.metrics.evaluationErrors - FailedCalls(s.attempts) + Errors(ds[..k])
    decreases |ds|
  {
    LookedAtFirst(ds, pod, policies, rs, s);
    if ds != [] {
      var s' := Visit(ds[0], pod, policies[0], rs[0], s);
      VisitExactCounts(ds[0], pod, policies[0], rs[0], s);
      var rest := LookedAt(ds[1..], pod, policies[1..], rs[1..], s');
      if s'.stop.None? {
        ScanCounts(ds[1..], pod, policies[1..], rs[1..], s');
      }
      DecisionCounts(ds[0], ds[1..][..rest]);
      assert ds[..1 + rest] == [ds[0]] + ds[1..][..rest];
    }
  }

  lemma DecisionCounts(d: Decision, rest: seq<Decision>)
    ensures Matches([d] + rest) == (if d.NotApplicable? then 0 else 1) + Matches(rest)
    ensures Errors([d] + rest) == (if IsError(d) then 1 else 0) + Errors(rest)
  {
    assert ([d] + rest)[1..] == rest;
  }

  /** Every removal and every rate-limited run belongs to its own evaluated pod; every removal,
      rate-limited run and error belongs to its own policy match. */
  ghost predicate Accounted(m: Metrics) {
    && m.podsDeleted + m.rateLimited <= m.podsEvaluated
    && m.podsDeleted + m.rateLimited + m.evaluationErrors <= m.policyMatches
  }

  // ---------------------------------------------------------------- the limiter's view

  /** The limiter calls made by a sequence of attempts. */
  function Draws(attempts: seq<Attempt>): seq<Call>
    decreases |attempts|
  {
    if attempts == [] then []
    else
      var c := CallsOf(attempts[0].policy, attempts[0].readings);
      [c.0, c.1] + Draws(attempts[1..])
  }

  /** The recorded grants are those the limiter gives along the way, and requests went out only on two. */
  ghost predicate Faithful(limiter: Limiter, attempts: seq<Attempt>)
    decreases |attempts|
  {
    attempts == [] ||
    var a := attempts[0];
    var c := CallsOf(a.policy, a.readings);
    && a.globalOk == Granted(limiter, c.0)
    && a.policyOk == Granted(AfterCall(limiter, c.0), c.1)
    && (IsCall(a) ==> a.globalOk && a.policyOk)
    && Faithful(AfterDraws(limiter, a.policy, a.readings), attempts[1..])
  }

  function AfterAttempts(limiter: Limiter, attempts: seq<Attempt>): Limiter
    decreases |attempts|
  {
    if attempts == [] then limiter
    else AfterAttempts(AfterDraws(limiter, attempts[0].policy, attempts[0].readings), attempts[1..])
  }

  lemma {:induction false} FaithfulAppend(limiter: Limiter, xs: seq<Attempt>, ys: seq<Attempt>)
    ensures AfterAttempts(limiter, xs + ys) == AfterAttempts(AfterAttempts(limiter, xs), ys)
    ensures Faithful(limiter, xs + ys) <==> Faithful(limiter, xs) && Faithful(AfterAttempts(limiter, xs), ys)
    decreases |xs|
  {
    if xs == [] {
      assert xs + ys == ys;
    } else {
      assert (xs + ys)[1..] == xs[1..] + ys;
      FaithfulAppend(AfterDraws(limiter, xs[0].policy, xs[0].readings), xs[1..], ys);
    }
  }

  lemma OneDraw(pod: Pod, policy: Policy, r: Readings, limiter: Limiter)
    ensures var a := TryRemove(pod, policy, r, limiter);
            Faithful(limiter, [a]) && AfterAttempts(limiter, [a]) == AfterDraws(limiter, policy, r)
  {
    var a := TryRemove(pod, policy, r, limiter);
    assert [a][1..] == [];
  }

  // ---------------------------------------------------------------- the grace period

  /** A delete request carries the grace period the policy asks for, or none, exactly when that fits 32
      bits; a longer one is cut down to its low bits, while an eviction passes any period on. */
  lemma DeleteGrace(spec: Spec, r: Readings)
    requires spec.then_.actionType.Delete?
    ensures RightGrace(spec.then_.gracePeriodSeconds, Perform(spec, r).deleteGrace)
    ensures Perform(spec, r).deleteGrace == spec.then_.gracePeriodSeconds
      <==> (spec.then_.gracePeriodSeconds.Some? ==> 0 <= spec.then_.gracePeriodSeconds.value < 0x1_0000_0000)
  {
    LowBits(spec.then_.gracePeriodSeconds.GetOr(0));
  }

  lemma LongGraceIsCut(spec: Spec, r: Readings)
    requires spec.then_.actionType.Delete? && spec.then_.gracePeriodSeconds == Some(0x1_0000_0000)
    ensures Perform(spec, r).deleteGrace == Some(0)
  {
  }

  /** A scan only adds to the attempts it is given. */
  lemma {:induction false} ScanShift(
    ds: seq<Decision>, pod: Pod, policies: seq<Policy>, rs: seq<Readings>, s: Scan, before: seq<Attempt>)
    requires |ds| == |policies| == |rs|
    ensures var e := ScanAll(ds, pod, policies, rs, s);
            ScanAll(ds, pod, policies, rs, s.(attempts := before + s.attempts)) == e.(attempts := before + e.attempts)
    decreases |ds|
  {
    if ds != [] && s.stop.None? {
      var s' := Visit(ds[0], pod, policies[0], rs[0], s);
      VisitShift(ds[0], pod, policies[0], rs[0], s, before);
      ScanShift(ds[1..], pod, policies[1..], rs[1..], s', before);
    }
  }

  lemma VisitShift(d: Decision, pod: Pod, policy: Policy, r: Readings, s: Scan, before: seq<Attempt>)
    ensures var v := Visit(d, pod, policy, r, s);
            Visit(d, pod, policy, r, s.(attempts := before + s.attempts)) == v.(attempts := before + v.attempts)
  {
    var a := TryRemove(pod, policy, r, s.limiter);
    assert before + s.attempts + [a] == before + (s.attempts + [a]);
  }

  /** A scan from position `i` looks at policy `i` first. */
  lemma ScanHead(ds: seq<Decision>, pod: Pod, policies: seq<Policy>, rs: seq<Readings>, i: nat, s: Scan)
    requires |ds| == |policies| == |rs| && i < |ds| && s.stop.None?
    ensures ScanAll(ds[i..], pod, policies[i..], rs[i..], s)
         == ScanAll(ds[i + 1..], pod, policies[i + 1..], rs[i + 1..], Visit(ds[i], pod, policies[i], rs[i], s))
  {
    assert ds[i..][1..] == ds[i + 1..] && policies[i..][1..] == policies[i + 1..] && rs[i..][1..] == rs[i + 1..];
  }
}
