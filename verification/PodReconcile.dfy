/** What one run of `reconcile_pod` (src/controller.rs) does, as a recursive function over the policy
    list, and what that function guarantees. Times, API responses and failures are arguments. */
module PodReconcile {
  import opened Wrappers
  import opened Pods
  import opened Crd
  import opened Ttl
  import opened Cel
  import opened Matching
  import opened RateLimiting

  datatype Metrics = Metrics(
    podsEvaluated: nat, podsDeleted: nat, policyMatches: nat, evaluationErrors: nat, rateLimited: nat)

  /** The reply to a delete or evict request; a reply carries the `status` text of its body, if any. */
  datatype Response = Reply(status: Option<string>) | Failure

  /** What the outside world supplies while one policy is looked at: the instant of the condition
      check, the limiter's clock readings, whether the eviction body serializes, and the response. */
  datatype Readings = Readings(
    now: int, globalNow: nat, newNow: nat, policyNow: nat, serializes: bool, response: Response)

  /** What came of an attempt to remove the pod. The grace period is the one sent. */
  datatype Effect =
    | Denied
    | NotSerialized
    | DeleteCall(deleteGrace: Option<nat>, succeeded: bool)
    | EvictCall(evictGrace: Option<int>, succeeded: bool)

  datatype Attempt = Attempt(
    pod: Pod, policy: Policy, readings: Readings, globalOk: bool, policyOk: bool, effect: Effect)

  predicate IsCall(a: Attempt) {
    a.effect.DeleteCall? || a.effect.EvictCall?
  }

  predicate IsFailedCall(a: Attempt) {
    IsCall(a) && !a.effect.succeeded
  }

  /** `Ok(Action::requeue)`, `Ok(Action::await_change)` or an error. */
  datatype Outcome = Requeue(seconds: nat) | AwaitChange | Error

  // ---------------------------------------------------------------- one policy

  datatype Decision =
    | NotApplicable
    | Pending(left: nat)
    | Unmet
    | Broken
    | MissingTtl
    | MissingExpression
    | Protected
    | DryRun
    | Act

  function Guard(pod: Pod, spec: Spec): Decision {
    if IsNamespaceProtected(pod.Namespace(), spec.limits) then Protected
    else if spec.then_.dryRun then DryRun
    else Act
  }

  function Decide(lib: Library, pod: Pod, spec: Spec, now: int): Decision {
    if !MatchesPolicy(pod, spec) then NotApplicable
    else if !CheckTrigger(pod, spec.trigger) then NotApplicable
    else
      match spec.when.conditionType
      case Builtin => (
        match spec.when.ttlSeconds
        case Some(ttl) =>
          if EvaluateTtl(pod, ttl, now) then Guard(pod, spec)
          else (match CalculateTtlRequeue(pod, ttl, now) case Some(left) => Pending(left) case None => Unmet)
        case None => MissingTtl)
      case CEL => (
        match spec.when.expression
        case Some(expr) => (
          match EvaluateAfresh(lib, expr, pod, now)
          case Ok(met) => if met then Guard(pod, spec) else Unmet
          case Err(_) => Broken)
        case None => MissingExpression)
  }

  /** Both limits are drawn from, whatever the first one says. */
  function CallsOf(policy: Policy, r: Readings): (Call, Call) {
    (GlobalCall(r.globalNow), PolicyCall(policy.name, policy.spec.limits.maxDeletesPerMinute, r.newNow, r.policyNow))
  }

  /** `g as u32` */
  function AsU32(g: int): nat {
    g % 0x1_0000_0000
  }

  function Perform(spec: Spec, r: Readings): Effect {
    var grace := spec.then_.gracePeriodSeconds;
    match spec.then_.actionType
    case Delete =>
      DeleteCall(match grace case Some(g) => Some(AsU32(g)) case None => None, r.response.Reply?)
    case Evict =>
      if !r.serializes then NotSerialized
      else EvictCall(grace, r.response.Reply? && r.response.status.GetOr("Success") == "Success")
  }

  function TryRemove(pod: Pod, policy: Policy, r: Readings, limiter: Limiter): Attempt {
    var (g, p) := CallsOf(policy, r);
    var globalOk, policyOk := Granted(limiter, g), Granted(AfterCall(limiter, g), p);
    Attempt(pod, policy, r, globalOk, policyOk,
      if globalOk && policyOk then Perform(policy.spec, r) else Denied)
  }

  function AfterDraws(limiter: Limiter, policy: Policy, r: Readings): Limiter {
    var (g, p) := CallsOf(policy, r);
    AfterCall(AfterCall(limiter, g), p)
  }

  // ---------------------------------------------------------------- the loop

  /** The loop's variables: `ttl` is `ttl_requeue_seconds`, `attempts` the removals tried so far and
      `stop` the result of an early return. */
  datatype Scan = Scan(
    limiter: Limiter, metrics: Metrics, ttl: Option<nat>, attempts: seq<Attempt>, stop: Option<Outcome>)

  /** The early return an attempt causes, if any. */
  function StopAfter(e: Effect): Option<Outcome> {
    match e
    case Denied => Some(Requeue(10))
    case NotSerialized => Some(Error)
    case DeleteCall(_, ok) => if ok then Some(AwaitChange) else None
    case EvictCall(_, ok) => if ok then Some(AwaitChange) else None
  }

  function CountEffect(m: Metrics, e: Effect): Metrics {
    match e
    case Denied => m.(rateLimited := m.rateLimited + 1)
    case NotSerialized => m
    case _ => if e.succeeded then m.(podsDeleted := m.podsDeleted + 1)
              else m.(evaluationErrors := m.evaluationErrors + 1)
  }

  function CountDecision(m: Metrics, d: Decision): Metrics {
    if d.NotApplicable? then m
    else
      var m' := m.(policyMatches := m.policyMatches + 1);
      if d.Broken? || d.MissingTtl? || d.MissingExpression? then m'.(evaluationErrors := m'.evaluationErrors + 1)
      else m'
  }

  function Sooner(ttl: Option<nat>, left: nat): Option<nat> {
    match ttl
    case Some(current) => Some(if current <= left then current else left)
    case None => Some(left)
  }

  function Visit(d: Decision, pod: Pod, policy: Policy, r: Readings, s: Scan): Scan {
    var s' := s.(metrics := CountDecision(s.metrics, d));
    match d
    case Pending(left) => s'.(ttl := Sooner(s.ttl, left))
    case Act =>
      var a := TryRemove(pod, policy, r, s.limiter);
      Scan(AfterDraws(s.limiter, policy, r), CountEffect(s'.metrics, a.effect), s.ttl, s.attempts + [a], StopAfter(a.effect))
    case _ => s'
  }

  /** `ds[i]` is the decision on policy `i` and `rs[i]` what happens while it is looked at. */
  function ScanAll(ds: seq<Decision>, pod: Pod, policies: seq<Policy>, rs: seq<Readings>, s: Scan): Scan
    requires |ds| == |policies| == |rs|
    decreases |ds|
  {
    if ds == [] || s.stop.Some? then s
    else ScanAll(ds[1..], pod, policies[1..], rs[1..], Visit(ds[0], pod, policies[0], rs[0], s))
  }

  function Decisions(lib: Library, pod: Pod, policies: seq<Policy>, rs: seq<Readings>): (ds: seq<Decision>)
    requires |policies| == |rs|
    ensures |ds| == |policies|
    ensures forall i | 0 <= i < |ds| :: ds[i] == Decide(lib, pod, policies[i].spec, rs[i].now)
  {
    seq(|policies|, i requires 0 <= i < |policies| => Decide(lib, pod, policies[i].spec, rs[i].now))
  }

  function Start(limiter: Limiter, metrics: Metrics): Scan {
    Scan(limiter, metrics.(podsEvaluated := metrics.podsEvaluated + 1), None, [], None)
  }

  function Reconcile(lib: Library, pod: Pod, policies: seq<Policy>, rs: seq<Readings>, limiter: Limiter, metrics: Metrics): Scan
    requires |policies| == |rs|
  {
    ScanAll(Decisions(lib, pod, policies, rs), pod, policies, rs, Start(limiter, metrics))
  }

  function ActionFor(s: Scan, resync: Option<nat>): Outcome {
    if s.stop.Some? then s.stop.value
    else if s.ttl.Some? then Requeue(s.ttl.value)
    else if resync.Some? then Requeue(resync.value)
    else AwaitChange
  }
}
