/** The operator's shared context with its two reconcile functions (src/controller.rs, src/lib.rs). The
    requests they send are recorded in ghost logs. */
module Operator {
  import opened Wrappers
  import opened Pods
  import opened Crd
  import opened Ttl
  import opened Cel
  import opened Matching
  import opened RateLimiting
  import opened StatusUpdater
  import opened PodReconcile
  import opened PodProperties
  import opened PolicyReconcile
  import opened Entitlement

  class Context {
    const evaluator: CelEvaluator
    const rateLimiter: RateLimiter
    const periodicResync: Option<nat>
    var metrics: Metrics
    var policies: seq<Policy>
    ghost var attempts: seq<Attempt>
    ghost var patches: seq<PatchRequest>
    ghost var touched: seq<Pod>

    ghost predicate Valid()
      reads this, evaluator, rateLimiter
    {
      evaluator.Valid() && rateLimiter.Valid()
    }

    /** The operator as `main` starts it: nothing cached yet. */
    constructor (evaluator: CelEvaluator, rateLimiter: RateLimiter, periodicResync: Option<nat>)
      requires evaluator.Valid() && rateLimiter.Valid()
      ensures Valid() && this.evaluator == evaluator && this.rateLimiter == rateLimiter
      ensures this.periodicResync == periodicResync
      ensures metrics == Metrics(0, 0, 0, 0, 0) && policies == [] && attempts == [] && patches == [] && touched == []
    {
      this.evaluator, this.rateLimiter, this.periodicResync := evaluator, rateLimiter, periodicResync;
      metrics, policies := Metrics(0, 0, 0, 0, 0), [];
      attempts, patches, touched := [], [], [];
    }

    // -------------------------------------------------------------- reconcile_pod

    /** The checks made on one policy before anything is tried. */
    method Check(pod: Pod, spec: Spec, now: int) returns (d: Decision)
      requires Valid()
      modifies evaluator
      ensures Valid()
      ensures d == Decide(evaluator.lib, pod, spec, now)
      ensures d.Act? <==> Entitled(evaluator.lib, pod, spec, now)
    {
      DecisionMeaning(evaluator.lib, pod, spec, now);
      if !MatchesPolicy(pod, spec) || !CheckTrigger(pod, spec.trigger) {
        return NotApplicable;
      }
      match spec.when.conditionType {
        case Builtin =>
          if spec.when.ttlSeconds.None? {
            return MissingTtl;
          }
          var ttl := spec.when.ttlSeconds.value;
          if !EvaluateTtl(pod, ttl, now) {
            var left := CalculateTtlRequeue(pod, ttl, now);
            return if left.Some? then Pending(left.value) else Unmet;
          }
        case CEL =>
          if spec.when.expression.None? {
            return MissingExpression;
          }
          var met := evaluator.Evaluate(spec.when.expression.value, pod, now);
          if met.Err? {
            return Broken;
          }
          if !met.value {
            return Unmet;
          }
      }
      d := Guard(pod, spec);
    }

    /** Draws from both limits and, if both allow it, sends the delete or evict request. */
    method TryToRemove(pod: Pod, policy: Policy, r: Readings) returns (a: Attempt)
      requires Valid()
      modifies rateLimiter`policyLimiters, rateLimiter.Buckets()
      ensures Valid() && fresh(rateLimiter.Buckets() - old(rateLimiter.Buckets()))
      ensures a == TryRemove(pod, policy, r, old(rateLimiter.Value()))
      ensures rateLimiter.Value() == AfterDraws(old(rateLimiter.Value()), policy, r)
    {
      var spuriousGlobal: nat, spuriousPolicy: nat := *, *;
      var globalOk := rateLimiter.AllowGlobal(r.globalNow, spuriousGlobal);
      var policyOk := rateLimiter.AllowPolicy(
        policy.name, policy.spec.limits.maxDeletesPerMinute, r.newNow, r.policyNow, spuriousPolicy);
      a := Attempt(pod, policy, r, globalOk, policyOk,
        if globalOk && policyOk then Perform(policy.spec, r) else Denied);
    }

    /** The concrete variables that a scan describes; `before` is the log at the start of the run. */
    ghost predicate At(s: Scan, ttl: Option<nat>, stop: Option<Outcome>, before: seq<Attempt>)
      reads this, rateLimiter, rateLimiter.Buckets()
    {
      s == Scan(rateLimiter.Value(), metrics, ttl, s.attempts, stop) && attempts == before + s.attempts
    }

    /** What follows the check of one policy in the loop over the policies. */
    method Proceed(d: Decision, pod: Pod, policy: Policy, r: Readings, ttl: Option<nat>, ghost s: Scan, ghost before: seq<Attempt>)
      returns (ttl': Option<nat>, stop: Option<Outcome>)
      requires Valid() && At(s, ttl, None, before)
      modifies this`metrics, this`attempts, rateLimiter`policyLimiters, rateLimiter.Buckets()
      ensures Valid() && fresh(rateLimiter.Buckets() - old(rateLimiter.Buckets()))
      ensures At(Visit(d, pod, policy, r, s), ttl', stop, before)
    {
      metrics := CountDecision(metrics, d);
      ttl', stop := ttl, None;
      if d.Pending? {
        ttl' := Sooner(ttl, d.left);
      } else if d.Act? {
        var a := TryToRemove(pod, policy, r);
        attempts := attempts + [a];
        metrics := CountEffect(metrics, a.effect);
        stop := StopAfter(a.effect);
      }
    }

    /** The body of the loop over the policies. */
    method VisitPolicy(pod: Pod, policy: Policy, r: Readings, ttl: Option<nat>, ghost s: Scan, ghost before: seq<Attempt>)
      returns (ttl': Option<nat>, stop: Option<Outcome>)
      requires Valid() && At(s, ttl, None, before)
      modifies this`metrics, this`attempts, evaluator, rateLimiter`policyLimiters, rateLimiter.Buckets()
      ensures Valid() && fresh(rateLimiter.Buckets() - old(rateLimiter.Buckets()))
      ensures At(Visit(Decide(evaluator.lib, pod, policy.spec, r.now), pod, policy, r, s), ttl', stop, before)
    {
      var d := Check(pod, policy.spec, r.now);
      ttl', stop := Proceed(d, pod, policy, r, ttl, s, before);
    }

    method ReconcilePod(pod: Pod, rs: seq<Readings>) returns (outcome: Outcome)
      requires Valid() && |rs| == |policies|
      modifies this`metrics, this`attempts, evaluator, rateLimiter`policyLimiters, rateLimiter.Buckets()
      ensures Valid() && fresh(rateLimiter.Buckets() - old(rateLimiter.Buckets()))
      ensures var e := Reconcile(evaluator.lib, pod, policies, rs, old(rateLimiter.Value()), old(metrics));
              && outcome == ActionFor(e, periodicResync)
              && metrics == e.metrics
              && rateLimiter.Value() == e.limiter
              && attempts == old(attempts) + e.attempts
      ensures RightOutcome(pod, policies, rs, periodicResync, attempts[|old(attempts)|..], outcome)
    {
      OutcomeExactly(evaluator.lib, pod, policies, rs, rateLimiter.Value(), metrics, periodicResync);
      ghost var ds := Decisions(evaluator.lib, pod, policies, rs);
      ghost var s := Start(rateLimiter.Value(), metrics);
      ghost var end := ScanAll(ds, pod, policies, rs, s);
      metrics := metrics.(podsEvaluated := metrics.podsEvaluated + 1);
      var ttl: Option<nat> := None;
      assert ds[0..] == ds && policies[0..] == policies && rs[0..] == rs;
      for i := 0 to |policies|
        invariant Valid() && fresh(rateLimiter.Buckets() - old(rateLimiter.Buckets()))
        invariant At(s, ttl, None, old(attempts))
        invariant ScanAll(ds[i..], pod, policies[i..], rs[i..], s) == end
      {
        ScanHead(ds, pod, policies, rs, i, s);
        var stop;
        ttl, stop := VisitPolicy(pod, policies[i], rs[i], ttl, s, old(attempts));
        s := Visit(ds[i], pod, policies[i], rs[i], s);
        if stop.Some? {
          assert attempts[|old(attempts)|..] == end.attempts;
          return stop.value;
        }
      }
      assert attempts[|old(attempts)|..] == end.attempts;
      if ttl.Some? {
        return Requeue(ttl.value);
      } else if periodicResync.Some? {
        return Requeue(periodicResync.value);
      }
      return AwaitChange;
    }

    // -------------------------------------------------------------- reconcile_policy

    /** `update_policy_status`: builds a status that holds nothing but the condition and sends it. */
    method UpdatePolicyStatus(policy: Policy, condition: Condition)
      modifies this`patches
      ensures patches == old(patches) + [PatchRequest(PolicyNamespace(policy), policy.name, StatusWith(condition))]
    {
      var status := new StatusRecord();
      status.UpdateCondition(condition);
      patches := patches + [PatchRequest(PolicyNamespace(policy), policy.name, status.Value())];
    }

    /** Validates the spec and, for a CEL condition, compiles its expression. */
    method JudgeSpec(spec: Spec) returns (v: Verdict)
      requires Valid()
      modifies evaluator
      ensures Valid()
      ensures v == Judge(evaluator.lib, spec)
    {
      var valid := Validate(spec);
      if valid.Err? {
        return BadSpec(valid.error.Text());
      }
      if spec.when.expression.Some? && spec.when.conditionType.CEL? {
        var compiled := evaluator.Validate(spec.when.expression.value);
        if compiled.Err? {
          return BadCel("CEL compilation failed: " + ErrorText(compiled.error));
        }
      }
      return Good;
    }

    /** The loop over restricted namespaces: a list request that fails skips its namespace. */
    method TouchPerNamespace(touch: string -> seq<Pod>, namespaces: seq<string>, failing: set<nat>)
      modifies this`touched
      ensures touched == old(touched) + PerNamespace(touch, namespaces, failing, 0)
    {
      ghost var all := PerNamespace(touch, namespaces, failing, 0);
      for i := 0 to |namespaces|
        invariant touched + PerNamespace(touch, namespaces, failing, i) == old(touched) + all
      {
        if i in failing {
          continue;
        }
        touched := touched + touch(namespaces[i]);
      }
    }

    /** Lists the pods in the policy's scope and touches those that match; fails only with the single list
        request over all namespaces. */
    method TouchPods(spec: Spec, cluster: seq<Pod>, failing: set<nat>) returns (ok: bool)
      modifies this`touched
      ensures ok == Touched(spec, cluster, failing).Some?
      ensures touched == old(touched) + Touched(spec, cluster, failing).GetOr([])
    {
      var namespaces := ListedNamespaces(spec);
      if namespaces == [] {
        if 0 in failing {
          return false;
        }
        touched := touched + ToTouch(ListPods(cluster, None, spec), spec);
      } else {
        TouchPerNamespace(TouchIn(cluster, spec), namespaces, failing);
      }
      return true;
    }

    /** `store` is what the reflector's store holds when the cache is refreshed, `cluster` the pods the API
        server lists, `failing` the list requests that fail. */
    method ReconcilePolicy(policy: Policy, store: seq<Policy>, stamp: string, cluster: seq<Pod>, failing: set<nat>)
      returns (outcome: Outcome)
      requires Valid()
      modifies this`policies, this`patches, this`touched, evaluator
      ensures Valid()
      ensures var run := RunFor(Judge(evaluator.lib, policy.spec), policy, store, stamp, cluster, failing);
              && outcome == run.outcome
              && policies == run.cache.GetOr(old(policies))
              && patches == old(patches) + (if run.patch.Some? then [run.patch.value] else [])
              && touched == old(touched) + run.touched
    {
      var v := JudgeSpec(policy.spec);
      if v.Good? {
        policies := ValidOnes(store);
      }
      if !Shown(policy.status, v) {
        UpdatePolicyStatus(policy, ConditionFor(v, stamp));
      }
      if !v.Good? {
        return AwaitChange;
      }
      var ok := TouchPods(policy.spec, cluster, failing);
      return if ok then AwaitChange else Requeue(60);
    }
  }
}
