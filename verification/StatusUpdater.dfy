/** In-place updates of a policy's status (src/status_updater.rs) and what the condition list is
    after any sequence of them. */
module StatusUpdater {
  import opened Basics
  import opened Wrappers
  import opened Crd

  // ---------------------------------------------------------------- the operations, as values

  /** `conditions.retain(|c| c.condition_type != type)` */
  function Without(conditions: seq<Condition>, conditionType: string): seq<Condition> {
    Filter(OtherType(conditionType), conditions)
  }

  function OtherType(conditionType: string): Condition -> bool {
    (c: Condition) => c.conditionType != conditionType
  }

  lemma {:induction false} FilterKeepsTypesDistinct(keep: Condition -> bool, conditions: seq<Condition>)
    requires DistinctTypes(conditions)
    ensures DistinctTypes(Filter(keep, conditions))
    decreases |conditions|
  {
    if conditions != [] {
      var rest := conditions[1..];
      FilterKeepsTypesDistinct(keep, rest);
      forall i | 0 <= i < |Filter(keep, rest)|
        ensures Filter(keep, rest)[i].conditionType != conditions[0].conditionType
      {
        FilterMember(keep, rest, Filter(keep, rest)[i]);
      }
    }
  }

  lemma UpdateKeepsTypesDistinct(conditions: seq<Condition>, c: Condition)
    requires DistinctTypes(conditions)
    ensures DistinctTypes(Update(conditions, c))
  {
    var r := Without(conditions, c.conditionType);
    FilterKeepsTypesDistinct(OtherType(c.conditionType), conditions);
    forall i | 0 <= i < |r|
      ensures r[i].conditionType != c.conditionType
    {
      FilterMember(OtherType(c.conditionType), conditions, r[i]);
    }
  }

  function Update(conditions: seq<Condition>, c: Condition): seq<Condition> {
    Without(conditions, c.conditionType) + [c]
  }

  ghost predicate DistinctTypes(conditions: seq<Condition>) {
    forall i, j | 0 <= i < j < |conditions| :: conditions[i].conditionType != conditions[j].conditionType
  }

  datatype Operation =
    | RecordPodEvaluated
    | RecordPolicyMatch
    | RecordPodDeleted
    | RecordEvaluationError
    | UpdateCondition(condition: Condition)
    | UpdateLastObservedTime
    | ResetCounters
    | Initialize
    | MarkInvalidCel(message: string)
    | MarkInvalidSpec(message: string)
    | MarkReady
    | ValidateAndUpdateWhen(when: When)

  function Observed(s: Status, stamp: string): Status {
    s.(lastObservedTime := Some(stamp))
  }

  /** The status after an operation at the (formatted) time `stamp`. */
  function Apply(s: Status, op: Operation, stamp: string): Status {
    match op
    case RecordPodEvaluated => Observed(s.(podsEvaluated := s.podsEvaluated + 1), stamp)
    case RecordPolicyMatch =>
      Observed(s.(podsMatched := s.podsMatched + 1, podsEvaluated := s.podsEvaluated + 1), stamp)
    case RecordPodDeleted => Observed(s.(podsDeleted := s.podsDeleted + 1), stamp)
    case RecordEvaluationError => Observed(s.(evaluationErrors := s.evaluationErrors + 1), stamp)
    case UpdateCondition(c) => s.(conditions := Update(s.conditions, c))
    case UpdateLastObservedTime => Observed(s, stamp)
    case ResetCounters => s.(podsEvaluated := 0, podsMatched := 0, podsDeleted := 0, evaluationErrors := 0)
    case Initialize => Observed(s.(conditions := [Ready(stamp)]), stamp)
    case MarkInvalidCel(m) => Marked(s, InvalidCel(m, stamp), stamp)
    case MarkInvalidSpec(m) => Marked(s, InvalidSpec(m, stamp), stamp)
    case MarkReady => Marked(s, Ready(stamp), stamp)
    case ValidateAndUpdateWhen(when) => AfterVerdict(s, ValidateWhen(when), stamp)
  }

  function Marked(s: Status, c: Condition, stamp: string): Status {
    Observed(s.(conditions := Update(s.conditions, c)), stamp)
  }

  /** Ready is only recorded when no condition is present yet. */
  function AfterVerdict(s: Status, verdict: Result<(), Failure>, stamp: string): Status {
    match verdict
    case Ok(_) => if s.conditions == [] then Marked(s, Ready(stamp), stamp) else s
    case Err(e) => Marked(s, InvalidSpec(e.Text(), stamp), stamp)
  }

  // ---------------------------------------------------------------- the operations, in place

  class StatusRecord {
    var conditions: seq<Condition>
    var lastObservedTime: Option<string>
    var podsEvaluated: nat
    var podsMatched: nat
    var podsDeleted: nat
    var evaluationErrors: nat

    function Value(): Status
      reads this
    {
      Status(conditions, lastObservedTime, podsEvaluated, podsMatched, podsDeleted, evaluationErrors)
    }

    constructor ()
      ensures Value() == DEFAULT_STATUS
    {
      conditions, lastObservedTime := [], None;
      podsEvaluated, podsMatched, podsDeleted, evaluationErrors := 0, 0, 0, 0;
    }

    method RecordPodEvaluated(stamp: string)
      modifies this
      ensures Value() == Apply(old(Value()), Operation.RecordPodEvaluated, stamp)
    {
      podsEvaluated := podsEvaluated + 1;
      UpdateLastObservedTime(stamp);
    }

    method RecordPolicyMatch(stamp: string)
      modifies this
      ensures Value() == Apply(old(Value()), Operation.RecordPolicyMatch, stamp)
    {
      podsMatched := podsMatched + 1;
      podsEvaluated := podsEvaluated + 1;
      UpdateLastObservedTime(stamp);
    }

    method RecordPodDeleted(stamp: string)
      modifies this
      ensures Value() == Apply(old(Value()), Operation.RecordPodDeleted, stamp)
    {
      podsDeleted := podsDeleted + 1;
      UpdateLastObservedTime(stamp);
    }

    method RecordEvaluationError(stamp: string)
      modifies this
      ensures Value() == Apply(old(Value()), Operation.RecordEvaluationError, stamp)
    {
      evaluationErrors := evaluationErrors + 1;
      UpdateLastObservedTime(stamp);
    }

    method UpdateCondition(c: Condition)
      modifies this
      ensures Value() == old(Value()).(conditions := Update(old(conditions), c))
    {
      conditions := Without(conditions, c.conditionType);
      conditions := conditions + [c];
    }

    method UpdateLastObservedTime(stamp: string)
      modifies this`lastObservedTime
      ensures Value() == Apply(old(Value()), Operation.UpdateLastObservedTime, stamp)
    {
      lastObservedTime := Some(stamp);
    }

    method ResetCounters()
      modifies this
      ensures Value() == old(Value()).(podsEvaluated := 0, podsMatched := 0, podsDeleted := 0, evaluationErrors := 0)
    {
      podsEvaluated, podsMatched, podsDeleted, evaluationErrors := 0, 0, 0, 0;
    }

    method Initialize(stamp: string)
      modifies this
      ensures Value() == Apply(old(Value()), Operation.Initialize, stamp)
    {
      conditions := [];
      conditions := conditions + [Ready(stamp)];
      UpdateLastObservedTime(stamp);
    }

    method MarkInvalidCel(message: string, stamp: string)
      modifies this
      ensures Value() == Marked(old(Value()), InvalidCel(message, stamp), stamp)
    {
      UpdateCondition(InvalidCel(message, stamp));
      UpdateLastObservedTime(stamp);
    }

    method MarkInvalidSpec(message: string, stamp: string)
      modifies this
      ensures Value() == Marked(old(Value()), InvalidSpec(message, stamp), stamp)
    {
      UpdateCondition(InvalidSpec(message, stamp));
      UpdateLastObservedTime(stamp);
    }

    method MarkReady(stamp: string)
      modifies this
      ensures Value() == Marked(old(Value()), Ready(stamp), stamp)
    {
      UpdateCondition(Ready(stamp));
      UpdateLastObservedTime(stamp);
    }

    method ValidateAndUpdateWhen(when: When, stamp: string) returns (r: Result<(), Failure>)
      modifies this
      ensures r == ValidateWhen(when)
      ensures Value() == AfterVerdict(old(Value()), r, stamp)
    {
      r := ValidateWhen(when);
      match r {
        case Ok(_) =>
          if conditions == [] {
            MarkReady(stamp);
          }
        case Err(e) =>
          MarkInvalidSpec(e.Text(), stamp);
      }
    }
  }

  // ---------------------------------------------------------------- sequences of operations

  function ApplyAll(s: Status, ops: seq<(Operation, string)>): Status
    decreases |ops|
  {
    if ops == [] then s else ApplyAll(Apply(s, ops[0].0, ops[0].1), ops[1..])
  }

  lemma OperationKeepsTypesDistinct(s: Status, op: Operation, stamp: string)
    requires DistinctTypes(s.conditions)
    ensures DistinctTypes(Apply(s, op, stamp).conditions)
  {
    var after := Apply(s, op, stamp).conditions;
    if after != s.conditions && !op.Initialize? {
      UpdateKeepsTypesDistinct(s.conditions, after[|after| - 1]);
    }
  }

  /** No operation ever puts two conditions of one type into the list. */
  lemma {:induction false} TypesStayDistinct(s: Status, ops: seq<(Operation, string)>)
    requires DistinctTypes(s.conditions)
    ensures DistinctTypes(ApplyAll(s, ops).conditions)
    decreases |ops|
  {
    if ops != [] {
      OperationKeepsTypesDistinct(s, ops[0].0, ops[0].1);
      TypesStayDistinct(Apply(s, ops[0].0, ops[0].1), ops[1..]);
    }
  }

  function UpdateAll(conditions: seq<Condition>, updates: seq<Condition>): seq<Condition>
    decreases |updates|
  {
    if updates == [] then conditions else UpdateAll(Update(conditions, updates[0]), updates[1..])
  }

  /** No later update in `updates` has the type of update `i`. */
  ghost predicate LastOfType(updates: seq<Condition>, i: nat)
    requires i < |updates|
  {
    forall j | i < j < |updates| :: updates[j].conditionType != updates[i].conditionType
  }

  /** The updates among the first `k` that no later update overwrites, in order. */
  ghost function LastWrites(updates: seq<Condition>, k: nat): seq<Condition>
    requires k <= |updates|
  {
    if k == 0 then []
    else LastWrites(updates, k - 1) + (if LastOfType(updates, k - 1) then [updates[k - 1]] else [])
  }

  lemma LastOfTypeSnoc(updates: seq<Condition>, c: Condition, i: nat)
    requires i < |updates|
    ensures LastOfType(updates + [c], i) <==> LastOfType(updates, i) && updates[i].conditionType != c.conditionType
  {
    var more := updates + [c];
    assert more[i] == updates[i] && more[|updates|] == c;
    assert forall j | i < j < |updates| :: more[j] == updates[j];
    if LastOfType(updates + [c], i) {
      assert forall j | i < j < |updates| :: more[j].conditionType != more[i].conditionType;
    }
  }

  /** One more update strikes the conditions of its type out of the last writes. */
  lemma {:induction false} LastWritesOfMore(updates: seq<Condition>, c: Condition, k: nat)
    requires k <= |updates|
    ensures LastWrites(updates + [c], k) == Without(LastWrites(updates, k), c.conditionType)
    decreases k
  {
    if k > 0 {
      var i := k - 1;
      LastWritesOfMore(updates, c, i);
      LastOfTypeSnoc(updates, c, i);
      var kept := if LastOfType(updates, i) then [updates[i]] else [];
      FilterAppend(OtherType(c.conditionType), LastWrites(updates, i), kept);
      FilterOne(OtherType(c.conditionType), updates[i]);
    }
  }

  lemma {:induction false} UpdateAllSnoc(conditions: seq<Condition>, updates: seq<Condition>, c: Condition)
    ensures UpdateAll(conditions, updates + [c]) == Update(UpdateAll(conditions, updates), c)
    decreases |updates|
  {
    if updates == [] {
      assert updates + [c] == [c];
    } else {
      assert (updates + [c])[1..] == updates[1..] + [c];
      UpdateAllSnoc(Update(conditions, updates[0]), updates[1..], c);
    }
  }

  /** The condition list is a last-write-wins log: from an empty list, any sequence of updates leaves
      exactly the last update of each type, ordered by when it was made. */
  lemma {:induction false} LastWriteWins(updates: seq<Condition>)
    ensures UpdateAll([], updates) == LastWrites(updates, |updates|)
    decreases |updates|
  {
    if updates != [] {
      var n := |updates| - 1;
      var front, c := updates[..n], updates[n];
      assert updates == front + [c];
      LastWriteWins(front);
      UpdateAllSnoc([], front, c);
      LastWritesOfMore(front, c, n);
    }
  }

  // ---------------------------------------------------------------- counters, time and marks

  /** How many of the operations are of a kind. */
  function Count(kind: Operation -> bool, ops: seq<(Operation, string)>): nat {
    |Filter((o: (Operation, string)) => kind(o.0), ops)|
  }

  lemma CountSnoc(kind: Operation -> bool, ops: seq<(Operation, string)>, o: (Operation, string))
    ensures Count(kind, ops + [o]) == Count(kind, ops) + (if kind(o.0) then 1 else 0)
  {
    FilterAppend((x: (Operation, string)) => kind(x.0), ops, [o]);
    FilterOne((x: (Operation, string)) => kind(x.0), o);
  }

  lemma {:induction false} ApplyAllAppend(s: Status, xs: seq<(Operation, string)>, ys: seq<(Operation, string)>)
    ensures ApplyAll(s, xs + ys) == ApplyAll(ApplyAll(s, xs), ys)
    decreases |xs|
  {
    if xs == [] {
      assert xs + ys == ys;
    } else {
      assert (xs + ys)[1..] == xs[1..] + ys;
      ApplyAllAppend(Apply(s, xs[0].0, xs[0].1), xs[1..], ys);
    }
  }

  /** The counters count the operations since they were last reset: a match is an evaluation as well. */
  lemma {:induction false} CountersCount(s: Status, before: seq<(Operation, string)>, stamp: string, ops: seq<(Operation, string)>)
    requires forall o <- ops :: !o.0.ResetCounters?
    ensures var e := ApplyAll(s, before + [(ResetCounters, stamp)] + ops);
            && e.podsMatched == Count((o: Operation) => o.RecordPolicyMatch?, ops)
            && e.podsEvaluated == e.podsMatched + Count((o: Operation) => o.RecordPodEvaluated?, ops)
            && e.podsDeleted == Count((o: Operation) => o.RecordPodDeleted?, ops)
            && e.evaluationErrors == Count((o: Operation) => o.RecordEvaluationError?, ops)
    decreases |ops|
  {
    var start := before + [(ResetCounters, stamp)];
    if ops == [] {
      assert start + ops == start;
      ApplyAllAppend(s, before, [(ResetCounters, stamp)]);
      OneOperation(ApplyAll(s, before), ResetCounters, stamp);
    } else {
      var front, o := ops[..|ops| - 1], ops[|ops| - 1];
      assert ops == front + [o] && start + ops == (start + front) + [o];
      assert o in ops;
      CountersCount(s, before, stamp, front);
      ApplyAllAppend(s, start + front, [o]);
      OneOperation(ApplyAll(s, start + front), o.0, o.1);
      CountSnoc((x: Operation) => x.RecordPolicyMatch?, front, o);
      CountSnoc((x: Operation) => x.RecordPodEvaluated?, front, o);
      CountSnoc((x: Operation) => x.RecordPodDeleted?, front, o);
      CountSnoc((x: Operation) => x.RecordEvaluationError?, front, o);
    }
  }

  lemma OneOperation(s: Status, op: Operation, stamp: string)
    ensures ApplyAll(s, [(op, stamp)]) == Apply(s, op, stamp)
  {
    assert [(op, stamp)][1..] == [];
  }

  /** Every operation but three kinds stamps the time: plain condition updates and resets do not, nor does a
      validation that succeeds while some condition is present. */
  lemma StampedExactly(s: Status, op: Operation, stamp: string)
    ensures Apply(s, op, stamp).lastObservedTime
         == if || op.UpdateCondition? || op.ResetCounters?
               || (op.ValidateAndUpdateWhen? && ValidateWhen(op.when).Ok? && |s.conditions| > 0)
            then s.lastObservedTime else Some(stamp)
  {
  }

  /** The condition that each mark leaves last in the list, field by field. */
  lemma MarksMeaning(s: Status, message: string, stamp: string)
    ensures var cs := Apply(s, MarkInvalidCel(message), stamp).conditions;
            cs != [] && cs[|cs| - 1] == Condition("InvalidCEL", "True", Some(stamp), Some("CELCompilationError"), Some(message))
    ensures var cs := Apply(s, MarkInvalidSpec(message), stamp).conditions;
            cs != [] && cs[|cs| - 1] == Condition("InvalidSpec", "True", Some(stamp), Some("SpecValidationError"), Some(message))
    ensures var cs := Apply(s, MarkReady, stamp).conditions;
            cs != [] && cs[|cs| - 1] == Condition("Ready", "True", Some(stamp), Some("PolicyValidated"),
                                                  Some("Policy spec is valid and ready for evaluation"))
  {
  }

  /** What each operation does to the condition list: most leave it alone. */
  lemma ListMeaning(s: Status, op: Operation, stamp: string)
    ensures (|| op.RecordPodEvaluated? || op.RecordPolicyMatch? || op.RecordPodDeleted? || op.RecordEvaluationError?
             || op.UpdateLastObservedTime? || op.ResetCounters?) ==> Apply(s, op, stamp).conditions == s.conditions
    ensures op.Initialize? ==>
              Apply(s, op, stamp).conditions == [Condition("Ready", "True", Some(stamp), Some("PolicyValidated"),
                                                           Some("Policy spec is valid and ready for evaluation"))]
    ensures op.UpdateCondition? ==>
              var cs := Apply(s, op, stamp).conditions;
              && cs != [] && cs[|cs| - 1] == op.condition
              && (forall c: Condition | c != op.condition ::
                    c in cs <==> c in s.conditions && c.conditionType != op.condition.conditionType)
  {
    if op.UpdateCondition? {
      var kept := Without(s.conditions, op.condition.conditionType);
      forall c: Condition
        ensures c in kept <==> c in s.conditions && c.conditionType != op.condition.conditionType
      {
        FilterMember(OtherType(op.condition.conditionType), s.conditions, c);
      }
    }
  }

  /** A When that was found invalid and is then corrected stays marked invalid and does not become Ready: a
      validation that succeeds marks Ready only in a list without any condition. */
  lemma CorrectedWhenStaysInvalid(s: Status, bad: When, good: When, first: string, then_: string)
    requires ValidateWhen(bad).Err? && ValidateWhen(good).Ok?
    ensures var marked := Apply(s, ValidateAndUpdateWhen(bad), first);
            && Apply(marked, ValidateAndUpdateWhen(good), then_) == marked
            && InvalidSpec(ValidateWhen(bad).error.Text(), first) in marked.conditions
            && (forall c <- marked.conditions | c.conditionType == "InvalidSpec" ::
                  c == InvalidSpec(ValidateWhen(bad).error.Text(), first))
            && (forall c: Condition | c.conditionType != "InvalidSpec" :: c in marked.conditions <==> c in s.conditions)
    ensures s.conditions == [] ==> Apply(s, ValidateAndUpdateWhen(good), then_).conditions == [Ready(then_)]
  {
    var text := ValidateWhen(bad).error.Text();
    MarkedInvalid(s, text, first);
  }

  lemma MarkedInvalid(s: Status, text: string, stamp: string)
    ensures var cs := Update(s.conditions, InvalidSpec(text, stamp));
            && InvalidSpec(text, stamp) in cs
            && (forall c <- cs | c.conditionType == "InvalidSpec" :: c == InvalidSpec(text, stamp))
            && (forall c: Condition | c.conditionType != "InvalidSpec" :: c in cs <==> c in s.conditions)
  {
    forall c: Condition
      ensures c in Without(s.conditions, "InvalidSpec") <==> c in s.conditions && c.conditionType != "InvalidSpec"
    {
      FilterMember(OtherType("InvalidSpec"), s.conditions, c);
    }
  }
}
