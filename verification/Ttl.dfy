/** TTL arithmetic (src/controller.rs) and the ages that CEL expressions see (src/engine/cel.rs).
    Instants are integers counting nanosecond ticks. */
module Ttl {
  import opened Wrappers
  import opened Pods

  const NANOS := 1_000_000_000

  /** `TimeDelta::num_seconds`: whole seconds, truncated toward zero. */
  function NumSeconds(delta: int): int {
    if delta >= 0 then delta / NANOS else -((-delta) / NANOS)
  }

  /** `DateTime::timestamp`: whole seconds since the epoch, rounded down. */
  function Timestamp(instant: int): int {
    instant / NANOS
  }

  function Max(a: int, b: int): int {
    if a >= b then a else b
  }

  predicate EvaluateTtl(pod: Pod, ttl: int, now: int) {
    match pod.creation
    case Some(created) => NumSeconds(now - created) > ttl
    case None => false
  }

  function CalculateTtlRequeue(pod: Pod, ttl: int, now: int): (left: Option<nat>) {
    match pod.creation
    case Some(created) => Some(Max(ttl - NumSeconds(now - created), 1))
    case None => None
  }

  /** The `age` variable of a CEL evaluation. */
  function CelAge(pod: Pod, now: int): Option<int> {
    match pod.creation
    case Some(created) => Some(Max(Timestamp(now) - Timestamp(created), 0))
    case None => None
  }

  /** Truncation, stated without division. */
  lemma NumSecondsBounds(delta: int)
    ensures delta >= 0 ==> NumSeconds(delta) * NANOS <= delta < (NumSeconds(delta) + 1) * NANOS
    ensures delta < 0 ==> (NumSeconds(delta) - 1) * NANOS < delta <= NumSeconds(delta) * NANOS
    ensures NumSeconds(-delta) == -NumSeconds(delta)
  {
  }

  /** A positive TTL is met exactly from `ttl + 1` full seconds after creation on. */
  lemma TtlMetExactly(pod: Pod, ttl: int, now: int)
    requires ttl >= 0
    ensures EvaluateTtl(pod, ttl, now) <==> pod.creation.Some? && now - pod.creation.value >= (ttl + 1) * NANOS
  {
    if pod.creation.Some? {
      NumSecondsBounds(now - pod.creation.value);
    }
  }

  /** Waking exactly `delay` seconds later, where `delay` is at least one second and no longer
      than this TTL's own requeue, never lands a full second past the TTL's firing instant. */
  lemma WakeLag(pod: Pod, ttl: int, now: int, delay: nat)
    requires ttl > 0 && pod.creation.Some? && !EvaluateTtl(pod, ttl, now)
    requires 1 <= delay <= CalculateTtlRequeue(pod, ttl, now).value
    ensures now + delay * NANOS - pod.creation.value < (ttl + 2) * NANOS
  {
    NumSecondsBounds(now - pod.creation.value);
  }

  /** The two ages never disagree for a full second: a Builtin TTL fires only when CEL's
      `age > ttl` already holds, and at the latest one second after it starts to hold. */
  lemma AgesAgreeWithinOneSecond(pod: Pod, ttl: int, now: int)
    requires ttl > 0 && pod.creation.Some?
    ensures EvaluateTtl(pod, ttl, now) ==> CelAge(pod, now).value > ttl
    ensures CelAge(pod, now).value > ttl ==> EvaluateTtl(pod, ttl, now + NANOS)
  {
    TtlMetExactly(pod, ttl, now);
    TtlMetExactly(pod, ttl, now + NANOS);
  }

  /** They disagree exactly in the second that CEL counts as `ttl + 1` while the clock's
      sub-second part is still behind the creation time's. */
  lemma AgesDisagreeExactly(pod: Pod, ttl: int, now: int)
    requires ttl > 0 && pod.creation.Some?
    ensures (CelAge(pod, now).value > ttl) != EvaluateTtl(pod, ttl, now)
      <==> && Timestamp(now) - Timestamp(pod.creation.value) == ttl + 1
           && now % NANOS < pod.creation.value % NANOS
  {
    TtlMetExactly(pod, ttl, now);
    var created := pod.creation.value;
    assert now == Timestamp(now) * NANOS + now % NANOS;
    assert created == Timestamp(created) * NANOS + created % NANOS;
  }
}
