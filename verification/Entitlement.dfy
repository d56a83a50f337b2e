/** What a removal requires, written with the fields of the pod and the policy alone: a second definition
    that shares nothing with the functions the reconcile loop is made of. */
module Entitlement {
  import opened Wrappers
  import opened Pods
  import opened Crd
  import opened Ttl
  import opened Cel
  import opened Matching
  import opened PodReconcile
  import opened PodProperties

  // ---------------------------------------------------------------- scope

  /** The pod lives in a selected namespace, if any are selected, has every selected label with its value,
      and carries the trigger annotation with an accepted value. */
  ghost predicate InScope(pod: Pod, spec: Spec) {
    && (spec.match_.namespaceSelector.None? || |spec.match_.namespaceSelector.value| == 0
        || exists i :: 0 <= i < |spec.match_.namespaceSelector.value|
             && spec.match_.namespaceSelector.value[i] == (if pod.namespace.Some? then pod.namespace.value else ""))
    && (spec.match_.podSelector.Some? ==> spec.match_.podSelector.value.Items <= pod.labels.Items)
    && (exists v :: v in spec.trigger.annotationValues && (spec.trigger.annotationKey, v) in pod.annotations.Items)
  }

  lemma AppliesExactly(pod: Pod, spec: Spec)
    ensures Applies(pod, spec) <==> InScope(pod, spec)
  {
    if CheckTrigger(pod, spec.trigger) {
      assert (spec.trigger.annotationKey, pod.annotations[spec.trigger.annotationKey]) in pod.annotations.Items;
    }
    if spec.match_.podSelector.Some? {
      var wanted := spec.match_.podSelector.value;
      assert forall k <- wanted :: (k, wanted[k]) in wanted.Items;
    }
  }

  // ---------------------------------------------------------------- guardrails

  /** The namespace is one of six system namespaces and these are protected, or it is excluded. */
  ghost predicate Sheltered(ns: string, limits: Limits) {
    || (limits.protectSystemNamespaces
        && ns in ["kube-system", "kube-public", "kube-node-lease",
                  "kube-apiserver", "kube-controller-manager", "kube-scheduler"])
    || (limits.excludedNamespaces.Some? && ns in limits.excludedNamespaces.value)
  }

  lemma ShelteredExactly(ns: string, limits: Limits)
    ensures IsNamespaceProtected(ns, limits) <==> Sheltered(ns, limits)
  {
  }

  // ---------------------------------------------------------------- conditions

  /** More than `ttl` whole seconds, in nanoseconds, have passed since the creation; the fraction of a
      second is cut off, towards zero. */
  ghost predicate Expired(pod: Pod, ttl: int, now: int) {
    && pod.creation.Some?
    && var age := now - pod.creation.value;
       if ttl >= 0 then age >= (ttl + 1) * 1_000_000_000 else age > ttl * 1_000_000_000
  }

  lemma ExpiredExactly(pod: Pod, ttl: int, now: int)
    ensures EvaluateTtl(pod, ttl, now) <==> Expired(pod, ttl, now)
  {
    if pod.creation.Some? {
      NumSecondsBounds(now - pod.creation.value);
    }
  }

  /** What an expression sees: the pod, whole epoch seconds, and the whole seconds between the epoch seconds
      of the creation and now, never negative. */
  function Seen(pod: Pod, now: int): Variables {
    var seconds := now / 1_000_000_000;
    match pod.creation
    case None => Variables(pod, seconds, None)
    case Some(created) =>
      var age := seconds - created / 1_000_000_000;
      Variables(pod, seconds, Some(if age < 0 then 0 else age))
  }

  /** The expression compiles, its variables can be built, and this is what executing it gives. */
  ghost predicate Gives(lib: Library, expr: string, pod: Pod, now: int, result: Result<Value, string>) {
    && lib.compile(expr).Ok? && lib.contextFailure(pod).None?
    && lib.execute(lib.compile(expr).value, Seen(pod, now)) == result
  }

  /** The answers of an evaluation: a Boolean is itself and a number is whether it is not zero, NaN included;
      anything else is an error, and every error is that of the step that failed. */
  lemma EvaluationExactly(lib: Library, expr: string, pod: Pod, now: int)
    ensures forall b: bool :: Gives(lib, expr, pod, now, Ok(Bool(b))) ==> EvaluateAfresh(lib, expr, pod, now) == Ok(b)
    ensures forall i: int :: Gives(lib, expr, pod, now, Ok(Int(i))) ==> EvaluateAfresh(lib, expr, pod, now) == Ok(i != 0)
    ensures forall n: nat :: Gives(lib, expr, pod, now, Ok(UInt(n))) ==> EvaluateAfresh(lib, expr, pod, now) == Ok(n > 0)
    ensures forall x: real ::
              Gives(lib, expr, pod, now, Ok(Double(Finite(x)))) ==> EvaluateAfresh(lib, expr, pod, now) == Ok(x < 0.0 || x > 0.0)
    ensures Gives(lib, expr, pod, now, Ok(Double(NotFinite))) ==> EvaluateAfresh(lib, expr, pod, now) == Ok(true)
    ensures Gives(lib, expr, pod, now, Ok(Other)) ==>
              EvaluateAfresh(lib, expr, pod, now) == Err(EvaluationError("Expression did not evaluate to boolean"))
    ensures forall t: string ::
              Gives(lib, expr, pod, now, Err(t)) ==> EvaluateAfresh(lib, expr, pod, now) == Err(EvaluationError(t))
    ensures forall t: string :: lib.compile(expr) == Err(t) <==> EvaluateAfresh(lib, expr, pod, now) == Err(CompilationError(t))
    ensures forall t: string :: lib.compile(expr).Ok? && lib.contextFailure(pod) == Some(NotSerializable(t))
              <==> EvaluateAfresh(lib, expr, pod, now) == Err(SerializationError(t))
    ensures forall t: string :: lib.compile(expr).Ok? && lib.contextFailure(pod) == Some(NotRepresentable(t))
              ==> EvaluateAfresh(lib, expr, pod, now) == Err(EvaluationError(t))
  {
    assert ContextOf(pod, now) == Seen(pod, now);
  }

  /** Executing the expression gives true or a number other than zero. */
  ghost predicate Holds(lib: Library, expr: string, pod: Pod, now: int) {
    && lib.compile(expr).Ok? && lib.contextFailure(pod).None?
    && match lib.execute(lib.compile(expr).value, Seen(pod, now))
       case Ok(Bool(b)) => b
       case Ok(Int(i)) => i < 0 || i > 0
       case Ok(UInt(n)) => n > 0
       case Ok(Double(f)) => f.NotFinite? || f.r < 0.0 || f.r > 0.0
       case _ => false
  }

  lemma HoldsExactly(lib: Library, expr: string, pod: Pod, now: int)
    ensures EvaluateAfresh(lib, expr, pod, now) == Ok(true) <==> Holds(lib, expr, pod, now)
  {
    assert ContextOf(pod, now) == Seen(pod, now);
  }

  ghost predicate Met(lib: Library, pod: Pod, when: When, now: int) {
    match when.conditionType
    case Builtin => when.ttlSeconds.Some? && Expired(pod, when.ttlSeconds.value, now)
    case CEL => when.expression.Some? && Holds(lib, when.expression.value, pod, now)
  }

  // ---------------------------------------------------------------- the decision

  ghost predicate Entitled(lib: Library, pod: Pod, spec: Spec, now: int) {
    && InScope(pod, spec) && Met(lib, pod, spec.when, now)
    && !Sheltered(if pod.namespace.Some? then pod.namespace.value else "", spec.limits)
    && !spec.then_.dryRun
  }

  lemma MetExactly(lib: Library, pod: Pod, when: When, now: int)
    ensures ConditionMet(lib, pod, when, now) <==> Met(lib, pod, when, now)
  {
    match when.conditionType
    case Builtin =>
      if when.ttlSeconds.Some? {
        ExpiredExactly(pod, when.ttlSeconds.value, now);
      }
    case CEL =>
      if when.expression.Some? {
        HoldsExactly(lib, when.expression.value, pod, now);
      }
  }

  lemma RemovableExactly(lib: Library, pod: Pod, spec: Spec, now: int)
    ensures Removable(lib, pod, spec, now) <==> Entitled(lib, pod, spec, now)
  {
    AppliesExactly(pod, spec);
    MetExactly(lib, pod, spec.when, now);
    ShelteredExactly(pod.Namespace(), spec.limits);
  }

  /** What each decision of the reconcile loop says about the pod and the policy. */
  lemma DecisionMeaning(lib: Library, pod: Pod, spec: Spec, now: int)
    ensures Decide(lib, pod, spec, now).Act? <==> Entitled(lib, pod, spec, now)
    ensures Decide(lib, pod, spec, now).NotApplicable? <==> !InScope(pod, spec)
    ensures Decide(lib, pod, spec, now).DryRun?
      <==> spec.then_.dryRun && Entitled(lib, pod, spec.(then_ := spec.then_.(dryRun := false)), now)
    ensures Decide(lib, pod, spec, now).Protected?
      <==> && InScope(pod, spec) && Met(lib, pod, spec.when, now)
           && Sheltered(if pod.namespace.Some? then pod.namespace.value else "", spec.limits)
  {
    RemovableExactly(lib, pod, spec, now);
    RemovableExactly(lib, pod, spec.(then_ := spec.then_.(dryRun := false)), now);
    AppliesExactly(pod, spec);
    MetExactly(lib, pod, spec.when, now);
    ShelteredExactly(pod.Namespace(), spec.limits);
  }

  /** Why a policy in scope does not hold: a TTL is still to come, a parameter is missing, or evaluating the
      expression failed, which counts as an error, or gave false, which does not. */
  lemma UnmetMeaning(lib: Library, pod: Pod, spec: Spec, now: int)
    requires InScope(pod, spec) && !Met(lib, pod, spec.when, now)
    ensures Decide(lib, pod, spec, now) ==
      match spec.when.conditionType
      case Builtin =>
        if spec.when.ttlSeconds.None? then MissingTtl
        else if pod.creation.None? then Unmet
        else
          var ttl, age := spec.when.ttlSeconds.value, NumSeconds(now - pod.creation.value);
          Pending(if age < ttl then ttl - age else 1)
      case CEL =>
        if spec.when.expression.None? then MissingExpression
        else if EvaluateAfresh(lib, spec.when.expression.value, pod, now).Err? then Broken
        else Unmet
  {
    AppliesExactly(pod, spec);
    MetExactly(lib, pod, spec.when, now);
  }

  lemma TtlPendingExactly(pod: Pod, spec: Spec, now: int)
    ensures TtlPending(pod, spec, now)
      <==> && InScope(pod, spec) && spec.when.conditionType.Builtin? && spec.when.ttlSeconds.Some?
           && pod.creation.Some? && !Expired(pod, spec.when.ttlSeconds.value, now)
  {
    AppliesExactly(pod, spec);
    if spec.when.ttlSeconds.Some? {
      ExpiredExactly(pod, spec.when.ttlSeconds.value, now);
    }
  }
}
