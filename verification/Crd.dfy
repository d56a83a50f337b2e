/** The DepodPolicy resource (src/crd.rs): its spec, its status and spec validation. */
module Crd {
  import opened Wrappers

  datatype ConditionType = CEL | Builtin

  datatype ActionType = Delete | Evict

  datatype Match = Match(namespaceSelector: Option<seq<string>>, podSelector: Option<map<string, string>>)

  datatype Trigger = Trigger(annotationKey: string, annotationValues: set<string>)

  datatype When = When(conditionType: ConditionType, expression: Option<string>, ttlSeconds: Option<int>)

  datatype Then = Then(actionType: ActionType, gracePeriodSeconds: Option<int>, dryRun: bool)

  datatype Limits = Limits(
    maxDeletesPerMinute: Option<int>,
    protectSystemNamespaces: bool,
    excludedNamespaces: Option<seq<string>>)

  datatype Spec = Spec(match_: Match, trigger: Trigger, when: When, then_: Then, limits: Limits)

  datatype Condition = Condition(
    conditionType: string,
    status: string,
    lastTransitionTime: Option<string>,
    reason: Option<string>,
    message: Option<string>)

  datatype Status = Status(
    conditions: seq<Condition>,
    lastObservedTime: Option<string>,
    podsEvaluated: nat,
    podsMatched: nat,
    podsDeleted: nat,
    evaluationErrors: nat)

  datatype Policy = Policy(name: string, namespace: Option<string>, spec: Spec, status: Option<Status>)

  const DEFAULT_STATUS := Status([], None, 0, 0, 0, 0)

  // The condition constructors; `stamp` is the formatted current time.

  function InvalidCel(message: string, stamp: string): Condition {
    Condition("InvalidCEL", "True", Some(stamp), Some("CELCompilationError"), Some(message))
  }

  function InvalidSpec(message: string, stamp: string): Condition {
    Condition("InvalidSpec", "True", Some(stamp), Some("SpecValidationError"), Some(message))
  }

  function Ready(stamp: string): Condition {
    Condition("Ready", "True", Some(stamp), Some("PolicyValidated"),
      Some("Policy spec is valid and ready for evaluation"))
  }

  /** The Unicode White_Space property, which `str::trim` strips. */
  predicate IsWhitespace(c: char) {
    var n := c as int;
    || 0x9 <= n <= 0xD || n == 0x20 || n == 0x85 || n == 0xA0 || n == 0x1680
    || 0x2000 <= n <= 0x200A || n == 0x2028 || n == 0x2029 || n == 0x202F || n == 0x205F || n == 0x3000
  }

  /** `s.trim().is_empty()` */
  predicate IsBlank(s: string) {
    forall i | 0 <= i < |s| :: IsWhitespace(s[i])
  }

  /** The reasons for which validation rejects a spec, in the order they are checked. */
  datatype Failure =
    | EmptyAnnotationKey
    | EmptyAnnotationValues
    | CelWithoutExpression
    | CelWithTtl
    | BuiltinWithoutTtl
    | TtlNotPositive
    | BuiltinWithExpression
    | NegativeGracePeriod
  {
    /** `Error::ValidationError(..).to_string()` (src/error.rs) */
    function Text(): string {
      "CRD validation error: " +
      match this
      case EmptyAnnotationKey => "trigger.annotation_key cannot be empty"
      case EmptyAnnotationValues => "trigger.annotation_values cannot be empty"
      case CelWithoutExpression => "when.expression required and cannot be empty for CEL type"
      case CelWithTtl => "when.ttlSeconds must not be set for CEL type (use expression instead)"
      case BuiltinWithoutTtl => "when.ttlSeconds required for Builtin type"
      case TtlNotPositive => "when.ttlSeconds must be a positive integer"
      case BuiltinWithExpression => "when.expression must not be set for Builtin type (use ttlSeconds instead)"
      case NegativeGracePeriod => "then.gracePeriodSeconds must be non-negative"
    }
  }

  function ValidateWhen(when: When): Result<(), Failure> {
    match when.conditionType
    case CEL =>
      if when.expression.None? || IsBlank(when.expression.value) then Err(CelWithoutExpression)
      else if when.ttlSeconds.Some? then Err(CelWithTtl)
      else Ok(())
    case Builtin =>
      if when.ttlSeconds.None? then Err(BuiltinWithoutTtl)
      else if when.ttlSeconds.value <= 0 then Err(TtlNotPositive)
      else if when.expression.Some? then Err(BuiltinWithExpression)
      else Ok(())
  }

  function Validate(spec: Spec): Result<(), Failure> {
    if spec.trigger.annotationKey == "" then Err(EmptyAnnotationKey)
    else if spec.trigger.annotationValues == {} then Err(EmptyAnnotationValues)
    else
      match ValidateWhen(spec.when)
      case Err(e) => Err(e)
      case Ok(_) =>
        if spec.then_.gracePeriodSeconds.Some? && spec.then_.gracePeriodSeconds.value < 0
        then Err(NegativeGracePeriod)
        else Ok(())
  }

  /** What a validated spec guarantees to the reconcile loops: the parameter its condition needs,
      and no other. */
  lemma ValidSpecs(spec: Spec)
    ensures Validate(spec).Ok? <==>
      && |spec.trigger.annotationKey| > 0
      && (exists v :: v in spec.trigger.annotationValues)
      && (spec.when.conditionType.Builtin? ==>
            spec.when.ttlSeconds.Some? && spec.when.ttlSeconds.value > 0 && spec.when.expression.None?)
      && (spec.when.conditionType.CEL? ==>
            && spec.when.ttlSeconds.None? && spec.when.expression.Some?
            && exists i | 0 <= i < |spec.when.expression.value| :: !IsWhitespace(spec.when.expression.value[i]))
      && spec.then_.gracePeriodSeconds.GetOr(0) >= 0
  {
    if spec.trigger.annotationValues != {} {
      var v :| v in spec.trigger.annotationValues;
    }
  }

  /** The characters with the White_Space property, by code point. */
  const WHITE_SPACE := {
    0x09, 0x0A, 0x0B, 0x0C, 0x0D, 0x20, 0x85, 0xA0, 0x1680,
    0x2000, 0x2001, 0x2002, 0x2003, 0x2004, 0x2005, 0x2006, 0x2007, 0x2008, 0x2009, 0x200A,
    0x2028, 0x2029, 0x202F, 0x205F, 0x3000}

  /** What is wrong with a spec, whatever else is. */
  ghost predicate Faulty(spec: Spec, f: Failure) {
    var when, grace := spec.when, spec.then_.gracePeriodSeconds;
    match f
    case EmptyAnnotationKey => |spec.trigger.annotationKey| == 0
    case EmptyAnnotationValues => !exists v :: v in spec.trigger.annotationValues
    case CelWithoutExpression =>
      when.conditionType == CEL && forall text: string | when.expression == Some(text) ::
        forall i | 0 <= i < |text| :: text[i] as int in WHITE_SPACE
    case CelWithTtl => when.conditionType == CEL && exists ttl: int :: when.ttlSeconds == Some(ttl)
    case BuiltinWithoutTtl => when.conditionType == Builtin && when.ttlSeconds == None
    case TtlNotPositive => when.conditionType == Builtin && exists ttl: int :: when.ttlSeconds == Some(ttl) && ttl < 1
    case BuiltinWithExpression => when.conditionType == Builtin && exists text: string :: when.expression == Some(text)
    case NegativeGracePeriod => exists g: int :: grace == Some(g) && g < 0
  }

  /** The place of a failure in the order of the checks. */
  function Rank(f: Failure): nat {
    match f
    case EmptyAnnotationKey => 0
    case EmptyAnnotationValues => 1
    case CelWithoutExpression => 2
    case CelWithTtl => 3
    case BuiltinWithoutTtl => 4
    case TtlNotPositive => 5
    case BuiltinWithExpression => 6
    case NegativeGracePeriod => 7
  }

  lemma BlankExactly(text: string)
    ensures IsBlank(text) <==> forall i | 0 <= i < |text| :: text[i] as int in WHITE_SPACE
  {
    assert forall c: char :: IsWhitespace(c) <==> c as int in WHITE_SPACE;
  }

  /** Validation reports the first fault of a spec, in the order of its checks, and accepts exactly the specs
      without any. */
  lemma RejectionMeaning(spec: Spec)
    ensures Validate(spec).Ok? <==> forall f :: !Faulty(spec, f)
    ensures Validate(spec).Err? ==>
              && Faulty(spec, Validate(spec).error)
              && forall f | Faulty(spec, f) :: Rank(Validate(spec).error) <= Rank(f)
  {
    if spec.trigger.annotationValues != {} {
      var v :| v in spec.trigger.annotationValues;
    }
    var when, grace := spec.when, spec.then_.gracePeriodSeconds;
    if when.expression.Some? {
      BlankExactly(when.expression.value);
      assert when.expression == Some(when.expression.value);
    }
    assert when.ttlSeconds.Some? ==> when.ttlSeconds == Some(when.ttlSeconds.value);
    assert grace.Some? ==> grace == Some(grace.value);
    match Validate(spec)
    case Err(f) => assert Faulty(spec, f);
    case Ok(_) =>
      forall f
        ensures !Faulty(spec, f)
      {
      }
  }

  /** The length of a message, without what all of them begin with. */
  function Length(f: Failure): nat {
    match f
    case EmptyAnnotationKey => 38
    case EmptyAnnotationValues => 41
    case CelWithoutExpression => 57
    case CelWithTtl => 69
    case BuiltinWithoutTtl => 41
    case TtlNotPositive => 42
    case BuiltinWithExpression => 73
    case NegativeGracePeriod => 44
  }

  lemma MessageLength(f: Failure)
    ensures |f.Text()| == 22 + Length(f)
  {
  }

  lemma FirstAfter(prefix: string, text: string)
    requires text != ""
    ensures |prefix| < |prefix + text| && (prefix + text)[|prefix|] == text[0]
  {
  }

  lemma SameLengthDiffers()
    ensures EmptyAnnotationValues.Text() != BuiltinWithoutTtl.Text()
  {
    FirstAfter("CRD validation error: ", "trigger.annotation_values cannot be empty");
    FirstAfter("CRD validation error: ", "when.ttlSeconds required for Builtin type");
  }

  /** Rejections for different reasons carry different messages, so that a change of the reason is seen as a
      change of the status. */
  lemma MessagesDiffer(f: Failure, g: Failure)
    requires f != g
    ensures f.Text() != g.Text()
  {
    if Length(f) != Length(g) {
      MessageLength(f);
      MessageLength(g);
    } else {
      SameLengthDiffers();
    }
  }
}
