/** The policy controller and the API server together: every status patch the controller sends produces
    a watch event for the controller itself (src/controller.rs, RELEASE_NOTES.md v0.3.4), and an accepted
    policy whose pods cannot be listed is reconciled again a minute later. Snapshots in the queue may be stale
    in spec and in status. */
module PolicyProtocol {
  import opened Wrappers
  import opened Pods
  import opened Crd
  import M = MergePatch
  import opened Cel
  import opened PodReconcile
  import opened PolicyReconcile

  /** The stored object; `stored` is its JSON, of which the operator patches the status. */
  datatype ApiObject = ApiObject(namespace: string, name: string, spec: Spec, stored: M.Json)

  /** `queue` holds the events not yet reconciled, oldest first; `due` says that the last reconcile asked
      for another one in sixty seconds; `sent` counts the patches sent. */
  datatype State = State(object_: ApiObject, queue: seq<Policy>, due: bool, sent: nat)

  /** A user stores a spec (possibly the same one, and a watch that starts anew has the same effect); an
      event is dropped in favour of a later one; the oldest event is reconciled, its patch, if it sends one,
      succeeds or fails, and the pods of the cluster, if it lists them all at once, are listed or not; the
      sixty seconds are over. */
  datatype Step =
    | Edit(spec: Spec)
    | Coalesce(i: nat)
    | Reconcile(stamp: string, delivered: bool, listed: bool)
    | Again

  function Snapshot(o: ApiObject): Policy {
    Policy(o.name, Some(o.namespace), o.spec, M.StatusOf(o.stored))
  }

  predicate Enabled(s: State, step: Step) {
    match step
    case Edit(_) => true
    case Coalesce(i) => i + 1 < |s.queue|
    case Reconcile(_, _, _) => s.queue != []
    case Again => s.due && s.queue == []  // an event is reconciled at once and takes the place of the requeue
  }

  /** `Action::requeue` instead of `Action::await_change` */
  predicate Reschedules(judge: Spec -> Verdict, p: Policy, listed: bool) {
    judge(p.spec).Good? && ListedNamespaces(p.spec) == [] && !listed
  }

  /** This is what a run of `reconcile_policy` sends and returns. */
  lemma StepIsRun(
    judge: Spec -> Verdict, p: Policy, store: seq<Policy>, stamp: string, cluster: seq<Pod>, failing: set<nat>)
    ensures var run := RunFor(judge(p.spec), p, store, stamp, cluster, failing);
            && run.patch == PatchFor(p, judge(p.spec), stamp)
            && run.outcome == if Reschedules(judge, p, 0 !in failing) then Requeue(60) else AwaitChange
  {
  }

  /** The server merges a patch; it emits an event only if the object changed. */
  function Patched(s: State, status: Status): State {
    var o := s.object_.(stored := M.Apply(s.object_.stored, M.StatusPatch(status)));
    s.(object_ := o, queue := if o == s.object_ then s.queue else s.queue + [Snapshot(o)])
  }

  /** The oldest event is taken and its patch sent. */
  function Handled(judge: Spec -> Verdict, s: State, stamp: string, delivered: bool): State
    requires s.queue != []
  {
    var p := s.queue[0];
    var rest := s.(queue := s.queue[1..]);
    match PatchFor(p, judge(p.spec), stamp)
    case None => rest
    case Some(request) =>
      if delivered && request.namespace == s.object_.namespace && request.name == s.object_.name
      then Patched(rest.(sent := s.sent + 1), request.status)
      else rest.(sent := s.sent + 1)
  }

  /** `judge` gives the verdict on a spec. */
  function Next(judge: Spec -> Verdict, s: State, step: Step): State
    requires Enabled(s, step)
  {
    match step
    case Edit(spec) =>
      var o := s.object_.(spec := spec);
      s.(object_ := o, queue := s.queue + [Snapshot(o)])
    case Coalesce(i) => s.(queue := s.queue[..i] + s.queue[i + 1..])
    case Reconcile(stamp, delivered, listed) =>
      Handled(judge, s, stamp, delivered).(due := Reschedules(judge, s.queue[0], listed))
    case Again => s.(queue := [Snapshot(s.object_)], due := false)
  }

  ghost predicate Runs(judge: Spec -> Verdict, s: State, steps: seq<Step>)
    decreases |steps|
  {
    steps == [] || (Enabled(s, steps[0]) && Runs(judge, Next(judge, s, steps[0]), steps[1..]))
  }

  ghost function End(judge: Spec -> Verdict, s: State, steps: seq<Step>): State
    requires Runs(judge, s, steps)
    decreases |steps|
  {
    if steps == [] then s else End(judge, Next(judge, s, steps[0]), steps[1..])
  }

  // ---------------------------------------------------------------- what a step does

  /** What a delivered patch leads to: the server's status is the one written, alone. */
  lemma PatchedStatus(s: State, status: Status)
    ensures M.StatusOf(Patched(s, status).object_.stored) == Some(status)
    ensures Patched(s, status).object_ == s.object_.(stored := Patched(s, status).object_.stored)
    ensures Patched(s, status).sent == s.sent && Patched(s, status).due == s.due
    ensures Patched(s, status).queue == s.queue || Patched(s, status).queue == s.queue + [Snapshot(Patched(s, status).object_)]
  {
    M.ObjectPatchReplacesStatus(s.object_.stored, status);
  }

  lemma SentStatus(p: Policy, v: Verdict, stamp: string)
    ensures PatchFor(p, v, stamp).None? <==> Shown(p.status, v)
    ensures !Shown(p.status, v) ==> PatchFor(p, v, stamp).value.status == StatusWith(ConditionFor(v, stamp))
    ensures !Shown(p.status, v) && p.namespace.Some? ==> PatchFor(p, v, stamp).value.namespace == p.namespace.value
  {
  }

  /** The event was produced by this object. */
  predicate Own(p: Policy, o: ApiObject) {
    p.namespace == Some(o.namespace) && p.name == o.name
  }

  /** What reconciling an event does, without its branches. */
  lemma ReconcileEffect(judge: Spec -> Verdict, s: State, stamp: string, delivered: bool, listed: bool)
    requires s.queue != []
    ensures var p, s' := s.queue[0], Next(judge, s, Reconcile(stamp, delivered, listed));
            var written := Some(StatusWith(ConditionFor(judge(p.spec), stamp)));
            && s'.object_ == s.object_.(stored := s'.object_.stored)
            && (Shown(p.status, judge(p.spec)) ==> s' == s.(queue := s.queue[1..], due := s'.due))
            && (!Shown(p.status, judge(p.spec)) ==> s'.sent == s.sent + 1)
            && (!delivered ==> s'.object_ == s.object_ && s'.queue == s.queue[1..])
            && (s'.queue == s.queue[1..]
                || (s'.queue == s.queue[1..] + [Snapshot(s'.object_)] && M.StatusOf(s'.object_.stored) == written))
            && (!Shown(p.status, judge(p.spec)) && delivered && Own(p, s.object_) ==>
                  && M.StatusOf(s'.object_.stored) == written
                  && (s'.queue == s.queue[1..] ==> s'.object_ == s.object_))
            && (M.StatusOf(s'.object_.stored) == M.StatusOf(s.object_.stored) || M.StatusOf(s'.object_.stored) == written)
  {
    var p := s.queue[0];
    SentStatus(p, judge(p.spec), stamp);
    if !Shown(p.status, judge(p.spec)) {
      var request := PatchFor(p, judge(p.spec), stamp).value;
      var rest := s.(queue := s.queue[1..], sent := s.sent + 1);
      PatchedStatus(rest, request.status);
    }
  }

  ghost predicate EditFree(steps: seq<Step>) {
    forall k | 0 <= k < |steps| :: !steps[k].Edit?
  }

  // ---------------------------------------------------------------- the loop ends right

  /** Every event is the object's own, and the newest one shows it as it is. */
  ghost predicate Tracked(s: State) {
    && (forall k | 0 <= k < |s.queue| :: Own(s.queue[k], s.object_))
    && (s.queue != [] ==> s.queue[|s.queue| - 1] == Snapshot(s.object_))
  }

  function StatusIn(s: State): Option<Status> {
    M.StatusOf(s.object_.stored)
  }

  /** The object's status shows the verdict on its spec. */
  ghost predicate ShowsVerdict(judge: Spec -> Verdict, s: State) {
    Shown(StatusIn(s), judge(s.object_.spec))
  }

  /** A status that the operator wrote: one condition, a verdict. */
  ghost predicate Written(status: Option<Status>) {
    exists v, stamp :: status == Some(StatusWith(ConditionFor(v, stamp)))
  }

  /** The step sends a patch, and it is delivered. */
  ghost predicate Lands(judge: Spec -> Verdict, s: State, step: Step)
    requires Enabled(s, step)
  {
    step.Reconcile? && step.delivered && !Shown(s.queue[0].status, judge(s.queue[0].spec))
  }

  /** Events are tracked whether patches are delivered or not, and the status changes with a delivered one. */
  lemma StepTracked(judge: Spec -> Verdict, s: State, step: Step)
    requires Enabled(s, step) && Tracked(s)
    ensures Tracked(Next(judge, s, step))
    ensures if Lands(judge, s, step) then Written(StatusIn(Next(judge, s, step)))
            else StatusIn(Next(judge, s, step)) == StatusIn(s)
  {
    var s' := Next(judge, s, step);
    match step
    case Edit(_) =>
    case Again =>
    case Coalesce(i) =>
      assert s'.queue[|s'.queue| - 1] == s.queue[|s.queue| - 1];
    case Reconcile(stamp, delivered, listed) =>
      ReconcileEffect(judge, s, stamp, delivered, listed);
      if s'.queue == s.queue[1..] && s'.queue != [] {
        assert s'.queue[|s'.queue| - 1] == s.queue[|s.queue| - 1];
        assert s'.object_ == s.object_;
      }
  }

  /** The number of patches of a run that were delivered. */
  ghost function Landed(judge: Spec -> Verdict, s: State, steps: seq<Step>): nat
    requires Runs(judge, s, steps)
    decreases |steps|
  {
    if steps == [] then 0
    else (if Lands(judge, s, steps[0]) then 1 else 0) + Landed(judge, Next(judge, s, steps[0]), steps[1..])
  }

  lemma {:induction false} RunTracked(judge: Spec -> Verdict, s: State, steps: seq<Step>)
    requires Runs(judge, s, steps) && Tracked(s)
    ensures Tracked(End(judge, s, steps))
    ensures Landed(judge, s, steps) == 0 ==> StatusIn(End(judge, s, steps)) == StatusIn(s)
    ensures Landed(judge, s, steps) > 0 || Written(StatusIn(s)) ==> Written(StatusIn(End(judge, s, steps)))
    decreases |steps|
  {
    if steps != [] {
      StepTracked(judge, s, steps[0]);
      RunTracked(judge, Next(judge, s, steps[0]), steps[1..]);
    }
  }

  lemma {:induction false} Unwind(judge: Spec -> Verdict, s: State, steps: seq<Step>)
    requires Runs(judge, s, steps) && steps != []
    ensures var front, last := steps[..|steps| - 1], steps[|steps| - 1];
            && Runs(judge, s, front) && Enabled(End(judge, s, front), last)
            && End(judge, s, steps) == Next(judge, End(judge, s, front), last)
    decreases |steps|
  {
    if |steps| > 1 {
      Unwind(judge, Next(judge, s, steps[0]), steps[1..]);
      assert steps[1..][..|steps| - 2] == steps[..|steps| - 1][1..];
    }
  }

  lemma LastEvent(judge: Spec -> Verdict, s: State, step: Step)
    requires Enabled(s, step) && Tracked(s) && Next(judge, s, step).queue == []
    ensures step.Reconcile? && s.queue == [Snapshot(s.object_)]
    ensures Next(judge, s, step).object_.spec == s.object_.spec
    ensures !ShowsVerdict(judge, Next(judge, s, step)) <==> !ShowsVerdict(judge, s) && !step.delivered
  {
    if step.Reconcile? {
      ReconcileEffect(judge, s, step.stamp, step.delivered, step.listed);
      WrittenIsShown(judge(s.queue[0].spec), step.stamp);
    }
  }

  /** No event is left and no requeue is due. */
  predicate AtRest(s: State) {
    s.queue == [] && !s.due
  }

  /** Whatever is edited, coalesced, requeued, delivered or lost on the way: when a run has no event left, its
      last step reconciled one that shows the object as it was; and the object is then without the verdict on
      its spec exactly if that step needed a patch and the patch failed. No earlier failure matters. It stays
      so without another event exactly if, in addition, no requeue is due. */
  lemma RestWithoutVerdictExactly(judge: Spec -> Verdict, s: State, steps: seq<Step>)
    requires Tracked(s) && Runs(judge, s, steps) && steps != [] && End(judge, s, steps).queue == []
    ensures var front, last := steps[..|steps| - 1], steps[|steps| - 1];
            && Runs(judge, s, front) && last.Reconcile?
            && var before, e := End(judge, s, front), End(judge, s, steps);
               && before.queue == [Snapshot(before.object_)] && e.object_.spec == before.object_.spec
               && (!ShowsVerdict(judge, e) <==> !ShowsVerdict(judge, before) && !last.delivered)
               && (AtRest(e) && !ShowsVerdict(judge, e) <==>
                     && !ShowsVerdict(judge, before) && !last.delivered
                     && (judge(e.object_.spec).Good? && ListedNamespaces(e.object_.spec) == [] ==> last.listed))
  {
    var front, last := steps[..|steps| - 1], steps[|steps| - 1];
    Unwind(judge, s, steps);
    RunTracked(judge, s, front);
    LastEvent(judge, End(judge, s, front), last);
  }

  /** The last step, if it reconciles, does not lose its patch. */
  ghost predicate LastDelivered(steps: seq<Step>) {
    steps != [] && steps[|steps| - 1].Reconcile? ==> steps[|steps| - 1].delivered
  }

  lemma WrittenVerdict(v: Verdict, w: Verdict, stamp: string)
    requires Shown(Some(StatusWith(ConditionFor(v, stamp))), w)
    ensures v == w
  {
    var c := ConditionFor(v, stamp);
    assert StatusWith(c).conditions == [c];
    assert Says(c, w);
  }

  /** A new object, with the event of its creation. */
  function Created(o: ApiObject): State {
    State(o, [Snapshot(o)], false, 0)
  }

  /** An object that started without a status (or with one that the operator wrote) has, whenever the
      controller has no event left and the last patch was not lost, exactly one condition: the verdict on its
      current spec. Specs may have been edited, events dropped, requeues served and earlier patches lost on
      the way. */
  lemma Converges(judge: Spec -> Verdict, s: State, steps: seq<Step>) returns (stamp: string)
    requires Tracked(s) && (s.queue == [] ==> ShowsVerdict(judge, s))
    requires StatusIn(s).None? || Written(StatusIn(s))
    requires Runs(judge, s, steps) && LastDelivered(steps) && End(judge, s, steps).queue == []
    ensures var e := End(judge, s, steps).object_;
            var verdict := ConditionFor(judge(e.spec), stamp);
            M.StatusOf(e.stored) == Some(StatusWith(verdict)) && StatusWith(verdict).conditions == [verdict]
  {
    if steps != [] {
      RestWithoutVerdictExactly(judge, s, steps);
    }
    RunTracked(judge, s, steps);
    var e := End(judge, s, steps).object_;
    assert Written(M.StatusOf(e.stored));
    var v, t :| M.StatusOf(e.stored) == Some(StatusWith(ConditionFor(v, t)));
    WrittenVerdict(v, judge(e.spec), t);
    WrittenIsShown(v, t);
    stamp := t;
  }

  /** The same from the creation of an object, for the verdicts the operator gives: validation first, then
      the CEL compiler. */
  lemma OperatorConverges(lib: Library, o: ApiObject, steps: seq<Step>) returns (stamp: string)
    requires M.StatusOf(o.stored).None?
    requires var judge := (spec: Spec) => Judge(lib, spec);
             Runs(judge, Created(o), steps) && LastDelivered(steps) && End(judge, Created(o), steps).queue == []
    ensures var e := End((spec: Spec) => Judge(lib, spec), Created(o), steps).object_;
            M.StatusOf(e.stored) == Some(StatusWith(ConditionFor(Judge(lib, e.spec), stamp)))
  {
    stamp := Converges((spec: Spec) => Judge(lib, spec), Created(o), steps);
  }

  // ---------------------------------------------------------------- where it does not

  lemma WrittenHasOne(status: Option<Status>)
    requires Written(status)
    ensures status.Some? && |status.value.conditions| == 1
  {
    var v, t :| status == Some(StatusWith(ConditionFor(v, t)));
    WrittenIsShown(v, t);
  }

  /** An object that is found with a status has a single condition after any run exactly if some patch was
      delivered on the way, or there was only one to begin with: nothing but a patch, which replaces them
      all, removes old conditions. */
  lemma SingleConditionExactly(judge: Spec -> Verdict, s: State, steps: seq<Step>)
    requires Tracked(s) && StatusIn(s).Some? && Runs(judge, s, steps)
    ensures var e := End(judge, s, steps);
            && StatusIn(e).Some?
            && (|StatusIn(e).value.conditions| == 1
                <==> Landed(judge, s, steps) > 0 || |StatusIn(s).value.conditions| == 1)
  {
    RunTracked(judge, s, steps);
    if Landed(judge, s, steps) > 0 {
      WrittenHasOne(StatusIn(End(judge, s, steps)));
    }
  }

  lemma {:induction false} ShownStays(judge: Spec -> Verdict, s: State, steps: seq<Step>)
    requires Runs(judge, s, steps) && EditFree(steps)
    requires forall k | 0 <= k < |s.queue| :: s.queue[k] == Snapshot(s.object_)
    requires ShowsVerdict(judge, s)
    ensures Landed(judge, s, steps) == 0 && End(judge, s, steps).sent == s.sent
    decreases |steps|
  {
    if steps != [] {
      if steps[0].Reconcile? {
        ReconcileEffect(judge, s, steps[0].stamp, steps[0].delivered, steps[0].listed);
      }
      ShownStays(judge, Next(judge, s, steps[0]), steps[1..]);
    }
  }

  lemma StepSpec(judge: Spec -> Verdict, s: State, step: Step)
    requires Enabled(s, step) && !step.Edit?
    ensures Next(judge, s, step).object_.spec == s.object_.spec
  {
    if step.Reconcile? {
      ReconcileEffect(judge, s, step.stamp, step.delivered, step.listed);
    }
  }

  lemma {:induction false} SpecStays(judge: Spec -> Verdict, s: State, steps: seq<Step>)
    requires Runs(judge, s, steps) && EditFree(steps)
    ensures End(judge, s, steps).object_.spec == s.object_.spec
    decreases |steps|
  {
    if steps != [] {
      StepSpec(judge, s, steps[0]);
      SpecStays(judge, Next(judge, s, steps[0]), steps[1..]);
    }
  }

  /** Without edits it comes to rest with a single condition exactly if the verdict was not among the old
      ones, or stood alone: a condition that is found next to the right verdict is never cleaned up. */
  lemma SingleConditionWithoutEdits(judge: Spec -> Verdict, o: ApiObject, steps: seq<Step>)
    requires M.StatusOf(o.stored).Some?
    requires Runs(judge, Created(o), steps) && EditFree(steps) && LastDelivered(steps)
    requires End(judge, Created(o), steps).queue == []
    ensures StatusIn(End(judge, Created(o), steps)).Some?
    ensures |StatusIn(End(judge, Created(o), steps)).value.conditions| == 1
      <==> !Shown(M.StatusOf(o.stored), judge(o.spec)) || |M.StatusOf(o.stored).value.conditions| == 1
  {
    var s := Created(o);
    SingleConditionExactly(judge, s, steps);
    if ShowsVerdict(judge, s) {
      ShownStays(judge, s, steps);
    } else {
      SpecStays(judge, s, steps);
      RestWithoutVerdictExactly(judge, s, steps);
      RunTracked(judge, s, steps);
    }
  }

  /** Such an object: Ready next to an old InvalidSpec comes to rest at once, with both. */
  lemma OldConditionIsKept(judge: Spec -> Verdict, spec: Spec) returns (o: ApiObject, step: Step)
    requires judge(spec).Good?
    ensures o.spec == spec && Runs(judge, Created(o), [step]) && step == Reconcile("", true, true)
    ensures var e := End(judge, Created(o), [step]);
            && AtRest(e)
            && M.StatusOf(e.object_.stored).Some?
            && M.StatusOf(e.object_.stored).value.conditions == [InvalidSpec("old", ""), Ready("")]
  {
    var status := DEFAULT_STATUS.(conditions := [InvalidSpec("old", ""), Ready("")]);
    o := ApiObject("", "", spec, M.Apply(M.Null, M.StatusPatch(status)));
    step := Reconcile("", true, true);
    M.ObjectPatchReplacesStatus(M.Null, status);
    assert Shown(Some(status), judge(spec)) by {
      assert Ready("") in status.conditions && Says(Ready(""), judge(spec));
    }
    ReconcileEffect(judge, Created(o), "", true, true);
    assert [step][1..] == [];
  }

  // ---------------------------------------------------------------- what is stored

  /** The JSON of an object after its patch, member by member: the verdict as the only condition, zero
      counters and no time; whatever else the status held under other names is kept. */
  lemma StoredVerdict(stored: M.Json, v: Verdict, stamp: string)
    ensures var object_ := M.Apply(stored, M.StatusPatch(StatusWith(ConditionFor(v, stamp))));
            && object_.Object? && "status" in object_.members && object_.members["status"].Object?
            && var status := object_.members["status"].members;
               && "conditions" in status && status["conditions"] == M.Array([StoredCondition(v, stamp)])
               && "pods_evaluated" in status && status["pods_evaluated"] == M.Number(0)
               && "pods_matched" in status && status["pods_matched"] == M.Number(0)
               && "pods_deleted" in status && status["pods_deleted"] == M.Number(0)
               && "evaluation_errors" in status && status["evaluation_errors"] == M.Number(0)
               && "lastObservedTime" !in status
  {
    var status := StatusWith(ConditionFor(v, stamp));
    WrittenIsShown(v, stamp);
    StoredAs(v, stamp);
    M.PatchedMembers(if "status" in M.Members(stored) then M.Members(stored)["status"] else M.Null, status);
  }

  /** The members of a condition as the resource's schema names them. */
  function StoredCondition(v: Verdict, stamp: string): M.Json {
    M.Object(map[
      "type" := M.Text(match v case Good => "Ready" case BadSpec(_) => "InvalidSpec" case BadCel(_) => "InvalidCEL"),
      "status" := M.Text("True"),
      "lastTransitionTime" := M.Text(stamp),
      "reason" := M.Text(match v
                         case Good => "PolicyValidated"
                         case BadSpec(_) => "SpecValidationError"
                         case BadCel(_) => "CELCompilationError"),
      "message" := M.Text(match v
                          case Good => "Policy spec is valid and ready for evaluation"
                          case BadSpec(text) => text
                          case BadCel(text) => text)])
  }

  lemma StoredAs(v: Verdict, stamp: string)
    ensures M.EncodeConditions([ConditionFor(v, stamp)]) == [StoredCondition(v, stamp)]
  {
    assert [ConditionFor(v, stamp)][1..] == [];
    assert M.EncodeConditions([ConditionFor(v, stamp)]) == [M.EncodeCondition(ConditionFor(v, stamp))];
    assert M.EncodeCondition(ConditionFor(v, stamp)).members == StoredCondition(v, stamp).members;
  }
}
