/** Which pods a policy applies to, and which namespaces it must spare (src/controller.rs). */
module Matching {
  import opened Pods
  import opened Crd

  predicate MatchesPolicy(pod: Pod, spec: Spec) {
    && (spec.match_.namespaceSelector.Some? && spec.match_.namespaceSelector.value != [] ==>
          pod.Namespace() in spec.match_.namespaceSelector.value)
    && (spec.match_.podSelector.Some? ==> HasLabels(pod, spec.match_.podSelector.value))
  }

  predicate HasLabels(pod: Pod, wanted: map<string, string>) {
    forall key <- wanted :: key in pod.labels && pod.labels[key] == wanted[key]
  }

  predicate CheckTrigger(pod: Pod, trigger: Trigger) {
    trigger.annotationKey in pod.annotations && pod.annotations[trigger.annotationKey] in trigger.annotationValues
  }

  /** What `reconcile_pod` counts as a policy match. */
  predicate Applies(pod: Pod, spec: Spec) {
    MatchesPolicy(pod, spec) && CheckTrigger(pod, spec.trigger)
  }

  predicate IsSystemNamespace(ns: string) {
    || ns == "kube-system" || ns == "kube-public" || ns == "kube-node-lease"
    || ns == "kube-apiserver" || ns == "kube-controller-manager" || ns == "kube-scheduler"
  }

  predicate IsNamespaceProtected(ns: string, limits: Limits) {
    || (limits.protectSystemNamespaces && IsSystemNamespace(ns))
    || (limits.excludedNamespaces.Some? && ns in limits.excludedNamespaces.value)
  }
}
