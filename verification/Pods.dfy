/** The parts of a Kubernetes Pod that the operator reads. */
module Pods {
  import opened Wrappers

  /** `creation` is an instant in nanosecond ticks. `payload` stands for the rest of the
      object (its spec and status), which only CEL expressions look at. A missing label or
      annotation table behaves like an empty one. */
  datatype Pod = Pod(
    name: string,
    namespace: Option<string>,
    labels: map<string, string>,
    annotations: map<string, string>,
    creation: Option<int>,
    payload: string)
  {
    /** `pod.namespace().unwrap_or_default()` */
    function Namespace(): string {
      namespace.GetOr("")
    }
  }
}
