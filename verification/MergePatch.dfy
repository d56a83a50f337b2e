/** JSON values, JSON Merge Patch (section 2 of RFC 7396), and how a DepodPolicyStatus travels
    through a merge patch of the status subresource (src/controller.rs, src/crd.rs). */
module MergePatch {
  import opened Wrappers
  import opened Crd

  datatype Json =
    | Null
    | Bool(b: bool)
    | Number(n: int)
    | Text(s: string)
    | Array(items: seq<Json>)
    | Object(members: map<string, Json>)

  function Members(target: Json): map<string, Json> {
    if target.Object? then target.members else map[]
  }

  function Apply(target: Json, patch: Json): Json
    decreases patch
  {
    if !patch.Object? then patch
    else
      var base := Members(target);
      Object(map k | k in base.Keys + patch.members.Keys && !(k in patch.members && patch.members[k].Null?) ::
               if k in patch.members then Apply(if k in base then base[k] else Null, patch.members[k]) else base[k])
  }

  /** A patch leaves no null member behind, at any depth it reaches. */
  lemma {:induction false} Idempotent(target: Json, patch: Json)
    ensures Apply(Apply(target, patch), patch) == Apply(target, patch)
    decreases patch
  {
    if patch.Object? {
      var once := Apply(target, patch);
      var twice := Apply(once, patch);
      assert twice.members.Keys == once.members.Keys;
      forall k | k in once.members
        ensures twice.members[k] == once.members[k]
      {
        if k in patch.members {
          Idempotent(if k in Members(target) then Members(target)[k] else Null, patch.members[k]);
        }
      }
      assert twice.members == once.members;
    }
  }

  // ---------------------------------------------------------------- serde for the status

  function EncodeText(t: Option<string>): Json {
    match t
    case Some(v) => Text(v)
    case None => Null
  }

  function EncodeCondition(c: Condition): Json {
    Object(map[
      "type" := Text(c.conditionType),
      "status" := Text(c.status),
      "lastTransitionTime" := EncodeText(c.lastTransitionTime),
      "reason" := EncodeText(c.reason),
      "message" := EncodeText(c.message)])
  }

  function EncodeConditions(cs: seq<Condition>): (r: seq<Json>)
    ensures |r| == |cs|
  {
    if cs == [] then [] else [EncodeCondition(cs[0])] + EncodeConditions(cs[1..])
  }

  /** All fields are always serialized; an absent time becomes null. */
  function EncodeStatus(s: Status): Json {
    Object(map[
      "conditions" := Array(EncodeConditions(s.conditions)),
      "lastObservedTime" := EncodeText(s.lastObservedTime),
      "pods_evaluated" := Number(s.podsEvaluated),
      "pods_matched" := Number(s.podsMatched),
      "pods_deleted" := Number(s.podsDeleted),
      "evaluation_errors" := Number(s.evaluationErrors)])
  }

  // Decoding gives None for a value that does not have the expected shape.

  function DecodeText(m: map<string, Json>, key: string): Option<Option<string>> {
    if key !in m || m[key].Null? then Some(None)
    else if m[key].Text? then Some(Some(m[key].s))
    else None
  }

  /** A field with `#[serde(default)]`. */
  function DecodeCount(m: map<string, Json>, key: string): Option<nat> {
    if key !in m then Some(0)
    else if m[key].Number? && m[key].n >= 0 then Some(m[key].n)
    else None
  }

  function DecodeCondition(j: Json): Option<Condition> {
    if !j.Object? then None
    else
      var m := j.members;
      var t, r, x := DecodeText(m, "lastTransitionTime"), DecodeText(m, "reason"), DecodeText(m, "message");
      if "type" in m && m["type"].Text? && "status" in m && m["status"].Text? && t.Some? && r.Some? && x.Some?
      then Some(Condition(m["type"].s, m["status"].s, t.value, r.value, x.value))
      else None
  }

  function DecodeConditions(items: seq<Json>): Option<seq<Condition>> {
    if items == [] then Some([])
    else
      match (DecodeCondition(items[0]), DecodeConditions(items[1..]))
      case (Some(c), Some(cs)) => Some([c] + cs)
      case _ => None
  }

  function DecodeStatus(j: Json): Option<Status> {
    if !j.Object? then None
    else
      var m := j.members;
      var cs :=
        if "conditions" !in m then Some([])
        else if m["conditions"].Array? then DecodeConditions(m["conditions"].items)
        else None;
      var t := DecodeText(m, "lastObservedTime");
      var e, k := DecodeCount(m, "pods_evaluated"), DecodeCount(m, "pods_matched");
      var d, x := DecodeCount(m, "pods_deleted"), DecodeCount(m, "evaluation_errors");
      if cs.Some? && t.Some? && e.Some? && k.Some? && d.Some? && x.Some?
      then Some(Status(cs.value, t.value, e.value, k.value, d.value, x.value))
      else None
  }

  lemma ConditionRoundTrip(c: Condition)
    ensures DecodeCondition(EncodeCondition(c)) == Some(c)
  {
  }

  lemma {:induction false} ConditionsRoundTrip(cs: seq<Condition>)
    ensures DecodeConditions(EncodeConditions(cs)) == Some(cs)
  {
    if cs != [] {
      ConditionRoundTrip(cs[0]);
      assert EncodeConditions(cs)[1..] == EncodeConditions(cs[1..]);
      assert [cs[0]] + cs[1..] == cs;
      ConditionsRoundTrip(cs[1..]);
    }
  }

  /** What a patch that holds no nested object does to one member. */
  lemma FlatPatch(target: Json, patch: Json, key: string)
    requires patch.Object? && (key in patch.members ==> !patch.members[key].Object?)
    ensures var r := Apply(target, patch).members;
            if key !in patch.members then key in r <==> key in Members(target)
            else if patch.members[key].Null? then key !in r
            else key in r && r[key] == patch.members[key]
    ensures key !in patch.members && key in Members(target) ==> Apply(target, patch).members[key] == Members(target)[key]
  {
  }

  /** Whatever the stored status was, patching it with an encoded status makes it decode to exactly
      that status: the condition list is replaced as a whole and an absent time is removed. Members
      the operator does not know are kept. */
  lemma StatusPatchReplaces(target: Json, s: Status)
    ensures DecodeStatus(Apply(target, EncodeStatus(s))) == Some(s)
    ensures forall key | key !in EncodeStatus(s).members ::
              (key in Apply(target, EncodeStatus(s)).members <==> key in Members(target))
              && (key in Members(target) ==> Apply(target, EncodeStatus(s)).members[key] == Members(target)[key])
  {
    var patch := EncodeStatus(s);
    FlatPatch(target, patch, "conditions");
    FlatPatch(target, patch, "lastObservedTime");
    FlatPatch(target, patch, "pods_evaluated");
    FlatPatch(target, patch, "pods_matched");
    FlatPatch(target, patch, "pods_deleted");
    FlatPatch(target, patch, "evaluation_errors");
    ConditionsRoundTrip(s.conditions);
  }

  /** The members that a status patch leaves, by the names of the resource's schema. */
  lemma PatchedMembers(target: Json, s: Status)
    requires s.lastObservedTime.None?
    ensures var m := Apply(target, EncodeStatus(s)).members;
            && "conditions" in m && m["conditions"] == Array(EncodeConditions(s.conditions))
            && "pods_evaluated" in m && m["pods_evaluated"] == Number(s.podsEvaluated)
            && "pods_matched" in m && m["pods_matched"] == Number(s.podsMatched)
            && "pods_deleted" in m && m["pods_deleted"] == Number(s.podsDeleted)
            && "evaluation_errors" in m && m["evaluation_errors"] == Number(s.evaluationErrors)
            && "lastObservedTime" !in m
  {
    var patch := EncodeStatus(s);
    FlatPatch(target, patch, "conditions");
    FlatPatch(target, patch, "lastObservedTime");
    FlatPatch(target, patch, "pods_evaluated");
    FlatPatch(target, patch, "pods_matched");
    FlatPatch(target, patch, "pods_deleted");
    FlatPatch(target, patch, "evaluation_errors");
  }

  lemma MissingCount(m: map<string, Json>, missing: set<string>, key: string, n: nat)
    requires key in m && m[key] == Number(n)
    ensures DecodeCount(m - missing, key) == Some(if key in missing then 0 else n)
  {
  }

  lemma MissingText(m: map<string, Json>, missing: set<string>, key: string, t: Option<string>)
    requires key in m && m[key] == EncodeText(t)
    ensures DecodeText(m - missing, key) == Some(if key in missing then None else t)
  {
  }

  /** Every member of a stored status may be missing, for which a reader sees its default. */
  lemma MissingMembersDefault(s: Status, missing: set<string>)
    ensures DecodeStatus(Object(EncodeStatus(s).members - missing)) == Some(Status(
              if "conditions" in missing then [] else s.conditions,
              if "lastObservedTime" in missing then None else s.lastObservedTime,
              if "pods_evaluated" in missing then 0 else s.podsEvaluated,
              if "pods_matched" in missing then 0 else s.podsMatched,
              if "pods_deleted" in missing then 0 else s.podsDeleted,
              if "evaluation_errors" in missing then 0 else s.evaluationErrors))
  {
    var m := EncodeStatus(s).members;
    MissingText(m, missing, "lastObservedTime", s.lastObservedTime);
    MissingCount(m, missing, "pods_evaluated", s.podsEvaluated);
    MissingCount(m, missing, "pods_matched", s.podsMatched);
    MissingCount(m, missing, "pods_deleted", s.podsDeleted);
    MissingCount(m, missing, "evaluation_errors", s.evaluationErrors);
    ConditionsRoundTrip(s.conditions);
  }

  // ---------------------------------------------------------------- the stored object

  /** `json!({"status": status})` */
  function StatusPatch(s: Status): Json {
    Object(map["status" := EncodeStatus(s)])
  }

  /** The status a reader of the stored object sees; a null status is no status. */
  function StatusOf(object_: Json): Option<Status> {
    if "status" in Members(object_) then DecodeStatus(Members(object_)["status"]) else None
  }

  /** The patch changes nothing of the stored object but its status. */
  lemma ObjectPatchReplacesStatus(object_: Json, s: Status)
    ensures StatusOf(Apply(object_, StatusPatch(s))) == Some(s)
    ensures forall key | key != "status" ::
              (key in Members(Apply(object_, StatusPatch(s))) <==> key in Members(object_))
              && (key in Members(object_) ==> Members(Apply(object_, StatusPatch(s)))[key] == Members(object_)[key])
  {
    StatusPatchReplaces(if "status" in Members(object_) then Members(object_)["status"] else Null, s);
  }
}
