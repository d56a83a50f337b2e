/** What one run of `reconcile_policy` (src/controller.rs) does: the verdict on the policy, the status
    patch it sends, the cache it stores and the pods it touches. */
module PolicyReconcile {
  import opened Basics
  import opened Wrappers
  import opened Pods
  import opened Crd
  import opened Cel
  import opened Matching
  import opened StatusUpdater
  import opened PodReconcile

  // ---------------------------------------------------------------- the verdict and its condition

  datatype Verdict = BadSpec(message: string) | BadCel(message: string) | Good

  function Judge(lib: Library, spec: Spec): Verdict {
    match Validate(spec)
    case Err(e) => BadSpec(e.Text())
    case Ok(_) =>
      if spec.when.expression.Some? && spec.when.conditionType.CEL? then
        match ValidateAfresh(lib, spec.when.expression.value)
        case Err(e) => BadCel("CEL compilation failed: " + ErrorText(e))
        case Ok(_) => Good
      else Good
  }

  /** A policy is good exactly if it is valid and, for a CEL policy, its expression compiles; otherwise the
      verdict says which of the two failed first, with the compiler's text for the second. */
  lemma JudgeMeaning(lib: Library, spec: Spec)
    ensures Judge(lib, spec).Good?
      <==> Validate(spec).Ok?
           && (spec.when.conditionType.CEL? ==> spec.when.expression.Some? && lib.compile(spec.when.expression.value).Ok?)
    ensures Judge(lib, spec).BadSpec? <==> Validate(spec).Err?
    ensures Judge(lib, spec).BadCel? <==> Uncompilable(lib, spec)
    ensures Uncompilable(lib, spec) ==>
              Judge(lib, spec).message
              == "CEL compilation failed: CEL compilation error: " + lib.compile(spec.when.expression.value).error
  {
    if Uncompilable(lib, spec) {
      var text := lib.compile(spec.when.expression.value).error;
      Nested(text);
      assert Judge(lib, spec).message == "CEL compilation failed: " + ErrorText(CompilationError(text));
    }
  }

  lemma Nested(text: string)
    ensures "CEL compilation failed: " + ErrorText(CompilationError(text))
         == "CEL compilation failed: CEL compilation error: " + text
  {
    Reassociate("CEL compilation failed: ", "CEL compilation error: ", text);
    assert "CEL compilation failed: " + "CEL compilation error: " == "CEL compilation failed: CEL compilation error: ";
  }

  lemma Reassociate(a: string, b: string, c: string)
    ensures a + (b + c) == (a + b) + c
  {
  }

  /** A valid CEL policy whose expression does not compile. */
  predicate Uncompilable(lib: Library, spec: Spec) {
    && Validate(spec).Ok? && spec.when.conditionType.CEL?
    && spec.when.expression.Some? && lib.compile(spec.when.expression.value).Err?
  }

  function ConditionFor(v: Verdict, stamp: string): Condition {
    match v
    case BadSpec(m) => InvalidSpec(m, stamp)
    case BadCel(m) => InvalidCel(m, stamp)
    case Good => Ready(stamp)
  }

  /** The test each branch makes before it patches; time stamps do not matter, and Ready is recognized
      by its reason, the failures by their message. */
  predicate Says(c: Condition, v: Verdict) {
    match v
    case BadSpec(m) => c.conditionType == "InvalidSpec" && c.status == "True" && c.message == Some(m)
    case BadCel(m) => c.conditionType == "InvalidCEL" && c.status == "True" && c.message == Some(m)
    case Good => c.conditionType == "Ready" && c.status == "True" && c.reason == Some("PolicyValidated")
  }

  predicate Shown(status: Option<Status>, v: Verdict) {
    status.Some? && exists c <- status.value.conditions :: Says(c, v)
  }

  /** The status that `update_policy_status` builds from scratch. */
  function StatusWith(c: Condition): Status {
    DEFAULT_STATUS.(conditions := Update(DEFAULT_STATUS.conditions, c))
  }

  /** `get_policy_namespace` */
  function PolicyNamespace(policy: Policy): string {
    if policy.namespace.Some? then policy.namespace.value
    else
      var selector := policy.spec.match_.namespaceSelector;
      if selector.Some? && |selector.value| == 1 then selector.value[0] else "default"
  }

  datatype PatchRequest = PatchRequest(namespace: string, name: string, status: Status)

  function PatchFor(policy: Policy, v: Verdict, stamp: string): Option<PatchRequest> {
    if Shown(policy.status, v) then None
    else Some(PatchRequest(PolicyNamespace(policy), policy.name, StatusWith(ConditionFor(v, stamp))))
  }

  /** A status that was just written needs no further patch. */
  lemma WrittenIsShown(v: Verdict, stamp: string)
    ensures StatusWith(ConditionFor(v, stamp)).conditions == [ConditionFor(v, stamp)]
    ensures Shown(Some(StatusWith(ConditionFor(v, stamp))), v)
  {
    var c := ConditionFor(v, stamp);
    assert StatusWith(c).conditions == [] + [c];
    assert Says(c, v);
    assert c in StatusWith(c).conditions;
  }

  /** No patch is sent exactly if the status holds a condition that agrees with the one that would be written
      in its type, its status and, for a failure, its message or, for Ready, its reason. */
  lemma PatchNeededExactly(policy: Policy, v: Verdict, stamp: string)
    ensures var new_ := ConditionFor(v, stamp);
            PatchFor(policy, v, stamp).None? <==>
              policy.status.Some? && exists c <- policy.status.value.conditions ::
                && c.conditionType == new_.conditionType && c.status == new_.status
                && (if v.Good? then c.reason == new_.reason else c.message == new_.message)
  {
    var new_ := ConditionFor(v, stamp);
    assert forall c: Condition :: Says(c, v) <==>
      && c.conditionType == new_.conditionType && c.status == new_.status
      && (if v.Good? then c.reason == new_.reason else c.message == new_.message);
  }

  /** A patch goes to the policy's own namespace. If its metadata names none, it goes to the one namespace it
      selects, if it selects a single one, and to `default` otherwise. */
  lemma PatchGoesTo(policy: Policy, v: Verdict, stamp: string, ns: string)
    requires PatchFor(policy, v, stamp).Some?
    ensures PatchFor(policy, v, stamp).value.name == policy.name
    ensures var selected := policy.spec.match_.namespaceSelector;
            PatchFor(policy, v, stamp).value.namespace == ns <==>
              || policy.namespace == Some(ns)
              || (policy.namespace == None && selected == Some([ns]))
              || (policy.namespace == None && ns == "default" && forall one: string :: selected != Some([one]))
  {
    var selected := policy.spec.match_.namespaceSelector;
    if selected.Some? && |selected.value| == 1 {
      assert selected.value == [selected.value[0]];
    }
  }

  // ---------------------------------------------------------------- the policy cache

  /** The policies of the store that pass validation, in store order. */
  function ValidOnes(store: seq<Policy>): seq<Policy> {
    Filter((p: Policy) => Validate(p.spec).Ok?, store)
  }

  /** They are the valid ones in store order, each as often as it is stored. */
  lemma CacheKeepsOrder(before: seq<Policy>, p: Policy, after: seq<Policy>)
    ensures ValidOnes(before + [p] + after)
         == ValidOnes(before) + (if Validate(p.spec).Ok? then [p] else []) + ValidOnes(after)
    ensures ValidOnes([]) == []
  {
    var valid := (q: Policy) => Validate(q.spec).Ok?;
    FilterAppend(valid, before + [p], after);
    FilterAppend(valid, before, [p]);
    FilterOne(valid, p);
  }

  // ---------------------------------------------------------------- the pods to touch

  /** The namespaces to list one by one; none means a single list over all namespaces. */
  function ListedNamespaces(spec: Spec): seq<string> {
    spec.match_.namespaceSelector.GetOr([])
  }

  predicate Listed(p: Pod, namespace: Option<string>, spec: Spec) {
    && (namespace.Some? ==> p.Namespace() == namespace.value)
    && (spec.match_.podSelector.Some? ==> HasLabels(p, spec.match_.podSelector.value))
  }

  /** What the API server returns for a list request with a label selector. */
  function ListPods(cluster: seq<Pod>, namespace: Option<string>, spec: Spec): seq<Pod> {
    Filter((p: Pod) => Listed(p, namespace, spec), cluster)
  }

  /** The listed pods that pass both filters. */
  function ToTouch(listed: seq<Pod>, spec: Spec): seq<Pod> {
    Filter((p: Pod) => CheckTrigger(p, spec.trigger) && MatchesPolicy(p, spec), listed)
  }

  function TouchIn(cluster: seq<Pod>, spec: Spec): string -> seq<Pod> {
    (ns: string) => ToTouch(ListPods(cluster, Some(ns), spec), spec)
  }

  /** The per-namespace loop from namespace `i` on; list requests whose position is in `failing` fail and
      are skipped. */
  function PerNamespace(touch: string -> seq<Pod>, namespaces: seq<string>, failing: set<nat>, i: nat): seq<Pod>
    decreases |namespaces| - i
  {
    if i >= |namespaces| then []
    else (if i in failing then [] else touch(namespaces[i])) + PerNamespace(touch, namespaces, failing, i + 1)
  }

  /** All touches, or None when the single list request fails. */
  function Touched(spec: Spec, cluster: seq<Pod>, failing: set<nat>): Option<seq<Pod>> {
    if ListedNamespaces(spec) != [] then
      Some(PerNamespace(TouchIn(cluster, spec), ListedNamespaces(spec), failing, 0))
    else if 0 in failing then None
    else Some(ToTouch(ListPods(cluster, None, spec), spec))
  }

  // ---------------------------------------------------------------- one run

  /** What a run sends, stores, touches and returns. Whether a patch succeeds changes none of it. */
  datatype PolicyRun = PolicyRun(
    patch: Option<PatchRequest>, cache: Option<seq<Policy>>, touched: seq<Pod>, outcome: Outcome)

  function RunFor(
    v: Verdict, policy: Policy, store: seq<Policy>, stamp: string, cluster: seq<Pod>, failing: set<nat>): PolicyRun
  {
    var patch := PatchFor(policy, v, stamp);
    if !v.Good? then PolicyRun(patch, None, [], AwaitChange)
    else
      match Touched(policy.spec, cluster, failing)
      case Some(touched) => PolicyRun(patch, Some(ValidOnes(store)), touched, AwaitChange)
      case None => PolicyRun(patch, Some(ValidOnes(store)), [], Requeue(60))
  }

  // ---------------------------------------------------------------- the touch set

  /** The positions from `i` on at which a namespace is listed and the request does not fail. */
  ghost function ListedAt(namespaces: seq<string>, namespace: string, failing: set<nat>, i: nat): set<nat> {
    set k: nat | i <= k < |namespaces| && namespaces[k] == namespace && k !in failing
  }

  /** How often the pods of a namespace are listed: once with all the others, unless that request fails, or
      for each of the namespace's own requests that does not fail. */
  ghost function TimesListed(spec: Spec, namespace: string, failing: set<nat>): nat {
    if spec.match_.namespaceSelector.None? || spec.match_.namespaceSelector.value == [] then
      if 0 in failing then 0 else 1
    else |ListedAt(spec.match_.namespaceSelector.value, namespace, failing, 0)|
  }

  lemma ListedCount(cluster: seq<Pod>, namespace: Option<string>, spec: Spec, p: Pod)
    ensures multiset(ToTouch(ListPods(cluster, namespace, spec), spec))[p]
         == if Applies(p, spec) && (namespace.Some? ==> p.Namespace() == namespace.value)
            then multiset(cluster)[p] else 0
  {
    FilterCount((q: Pod) => Listed(q, namespace, spec), cluster, p);
    FilterCount((q: Pod) => CheckTrigger(q, spec.trigger) && MatchesPolicy(q, spec), ListPods(cluster, namespace, spec), p);
  }

  lemma OneMore(a: nat, b: nat)
    ensures a * (1 + b) == a + a * b
  {
  }

  lemma ListedAtStep(namespaces: seq<string>, home: string, failing: set<nat>, i: nat)
    requires i < |namespaces|
    ensures |ListedAt(namespaces, home, failing, i)|
         == (if namespaces[i] == home && i !in failing then 1 else 0) + |ListedAt(namespaces, home, failing, i + 1)|
  {
    var later := ListedAt(namespaces, home, failing, i + 1);
    assert ListedAt(namespaces, home, failing, i)
        == if namespaces[i] == home && i !in failing then later + {i} else later;
  }

  /** A pod found `found` times in its own namespace and nowhere else. */
  lemma {:induction false} PerNamespaceCount(
    touch: string -> seq<Pod>, namespaces: seq<string>, failing: set<nat>, i: nat, p: Pod, home: string, found: nat)
    requires i <= |namespaces|
    requires forall ns :: multiset(touch(ns))[p] == if ns == home then found else 0
    ensures multiset(PerNamespace(touch, namespaces, failing, i))[p] == found * |ListedAt(namespaces, home, failing, i)|
    decreases |namespaces| - i
  {
    if i < |namespaces| {
      var first := if i in failing then [] else touch(namespaces[i]);
      var rest := PerNamespace(touch, namespaces, failing, i + 1);
      var later := |ListedAt(namespaces, home, failing, i + 1)|;
      PerNamespaceCount(touch, namespaces, failing, i + 1, p, home, found);
      assert multiset(first + rest)[p] == multiset(first)[p] + multiset(rest)[p];
      ListedAtStep(namespaces, home, failing, i);
      OneMore(found, later);
    } else {
      assert ListedAt(namespaces, home, failing, i) == {};
    }
  }

  lemma TouchedCount(spec: Spec, cluster: seq<Pod>, failing: set<nat>, p: Pod)
    ensures Touched(spec, cluster, failing).None? <==> ListedNamespaces(spec) == [] && 0 in failing
    ensures multiset(Touched(spec, cluster, failing).GetOr([]))[p]
         == if Applies(p, spec) then multiset(cluster)[p] * TimesListed(spec, p.Namespace(), failing) else 0
  {
    var namespaces := ListedNamespaces(spec);
    if namespaces == [] {
      ListedCount(cluster, None, spec, p);
    } else {
      var found := if Applies(p, spec) then multiset(cluster)[p] else 0;
      forall ns: string
        ensures multiset(TouchIn(cluster, spec)(ns))[p] == if ns == p.Namespace() then found else 0
      {
        ListedCount(cluster, Some(ns), spec, p);
      }
      PerNamespaceCount(TouchIn(cluster, spec), namespaces, failing, 0, p, p.Namespace(), found);
    }
  }

  /** A run for an accepted policy touches every pod of the cluster as often as it is listed if
      `reconcile_pod` would count it as a match of the policy, through either branch and whichever list
      requests fail; it touches no other pod, and a run for a rejected policy touches none. It asks for a
      requeue exactly if it lists all pods at once and that fails. */
  lemma TouchSetAgreesWithMatching(
    v: Verdict, policy: Policy, store: seq<Policy>, stamp: string, cluster: seq<Pod>, failing: set<nat>, p: Pod)
    ensures var run := RunFor(v, policy, store, stamp, cluster, failing);
            && multiset(run.touched)[p]
               == (if v.Good? && Applies(p, policy.spec)
                   then multiset(cluster)[p] * TimesListed(policy.spec, p.Namespace(), failing) else 0)
            && run.outcome == (if v.Good? && ListedNamespaces(policy.spec) == [] && 0 in failing
                               then Requeue(60) else AwaitChange)
    ensures Applies(p, policy.spec) && failing == {} ==> TimesListed(policy.spec, p.Namespace(), failing) >= 1
  {
    TouchedCount(policy.spec, cluster, failing, p);
    var namespaces := ListedNamespaces(policy.spec);
    if Applies(p, policy.spec) && failing == {} && namespaces != [] {
      var k: nat :| k < |namespaces| && namespaces[k] == p.Namespace();
      assert k in ListedAt(namespaces, p.Namespace(), {}, 0);
    }
  }

  /** The usual case: distinct pods and distinct names. Every pod of the cluster is touched exactly once
      if it matches and the request that would list it does not fail, and not at all otherwise. */
  lemma EachMatchingPodOnce(spec: Spec, cluster: seq<Pod>, failing: set<nat>, p: Pod)
    requires forall q <- cluster :: multiset(cluster)[q] == 1
    requires forall i, j | 0 <= i < j < |ListedNamespaces(spec)| :: ListedNamespaces(spec)[i] != ListedNamespaces(spec)[j]
    ensures multiset(Touched(spec, cluster, failing).GetOr([]))[p]
         == if p in cluster && Applies(p, spec) && !ListFails(spec, p.Namespace(), failing) then 1 else 0
  {
    TouchedCount(spec, cluster, failing, p);
    var here, times := multiset(cluster)[p], TimesListed(spec, p.Namespace(), failing);
    assert here == if p in cluster then 1 else 0 by {
      assert p in cluster <==> p in multiset(cluster);
    }
    if Applies(p, spec) {
      ListedOnce(spec, p.Namespace(), failing);
      assert times == 1 ==> here * times == here;
    }
  }

  /** The request that would list the pods of a namespace fails. */
  ghost predicate ListFails(spec: Spec, namespace: string, failing: set<nat>) {
    if ListedNamespaces(spec) == [] then 0 in failing
    else exists k: nat :: k < |ListedNamespaces(spec)| && ListedNamespaces(spec)[k] == namespace && k in failing
  }

  lemma ListedOnce(spec: Spec, ns: string, failing: set<nat>)
    requires forall i, j | 0 <= i < j < |ListedNamespaces(spec)| :: ListedNamespaces(spec)[i] != ListedNamespaces(spec)[j]
    requires ListedNamespaces(spec) != [] ==> ns in ListedNamespaces(spec)
    ensures TimesListed(spec, ns, failing) == if ListFails(spec, ns, failing) then 0 else 1
  {
    var namespaces := ListedNamespaces(spec);
    if namespaces != [] {
      var k: nat :| k < |namespaces| && namespaces[k] == ns;
      assert ListedAt(namespaces, ns, failing, 0) == if k in failing then {} else {k};
    }
  }
}
