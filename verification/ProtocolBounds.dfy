/** How long the policy controller goes on reacting to its own events, and how many patches it sends. */
module ProtocolBounds {
  import opened Basics
  import opened Crd
  import opened PolicyReconcile
  import opened PolicyProtocol

  /** 1 for an event that shows its verdict; otherwise 2, or 3 if that verdict is out of date. */
  function Weight(judge: Spec -> Verdict, current: Verdict, p: Policy): nat {
    if Shown(p.status, judge(p.spec)) then 1 else if judge(p.spec) == current then 2 else 3
  }

  function Measure(judge: Spec -> Verdict, current: Verdict, queue: seq<Policy>): nat {
    if queue == [] then 0 else Weight(judge, current, queue[0]) + Measure(judge, current, queue[1..])
  }

  function MeasureOf(judge: Spec -> Verdict, s: State): nat {
    Measure(judge, judge(s.object_.spec), s.queue)
  }

  lemma {:induction false} MeasureAppend(judge: Spec -> Verdict, current: Verdict, xs: seq<Policy>, ys: seq<Policy>)
    ensures Measure(judge, current, xs + ys) == Measure(judge, current, xs) + Measure(judge, current, ys)
  {
    if xs == [] {
      assert xs + ys == ys;
    } else {
      assert (xs + ys)[1..] == xs[1..] + ys;
      MeasureAppend(judge, current, xs[1..], ys);
    }
  }

  lemma {:induction false} MeasureBounds(judge: Spec -> Verdict, current: Verdict, queue: seq<Policy>)
    ensures |queue| <= Measure(judge, current, queue) <= 3 * |queue|
  {
    if queue != [] {
      MeasureBounds(judge, current, queue[1..]);
    }
  }

  lemma OneEvent(judge: Spec -> Verdict, current: Verdict, p: Policy)
    ensures Measure(judge, current, [p]) == Weight(judge, current, p)
  {
    assert [p][1..] == [];
  }

  /** Coalescing and reconciling bring the measure down, and every patch brings down the part of it that
      exceeds the number of events. */
  lemma StepMeasure(judge: Spec -> Verdict, s: State, step: Step)
    requires Enabled(s, step) && (step.Coalesce? || step.Reconcile?)
    ensures var s' := Next(judge, s, step);
            && MeasureOf(judge, s') < MeasureOf(judge, s)
            && s'.sent + MeasureOf(judge, s') - |s'.queue| <= s.sent + MeasureOf(judge, s) - |s.queue|
            && |s'.queue| <= |s.queue|
            && s'.object_.spec == s.object_.spec
  {
    var current := judge(s.object_.spec);
    match step
    case Coalesce(i) =>
      var x := s.queue[i];
      assert s.queue == s.queue[..i] + ([x] + s.queue[i + 1..]);
      MeasureAppend(judge, current, s.queue[..i], [x] + s.queue[i + 1..]);
      MeasureAppend(judge, current, [x], s.queue[i + 1..]);
      MeasureAppend(judge, current, s.queue[..i], s.queue[i + 1..]);
      OneEvent(judge, current, x);
    case Reconcile(stamp, delivered, listed) =>
      var p, s' := s.queue[0], Next(judge, s, step);
      var v := judge(p.spec);
      ReconcileEffect(judge, s, stamp, delivered, listed);
      if s'.queue != s.queue[1..] {
        var news := Snapshot(s'.object_);
        WrittenIsShown(v, stamp);
        MeasureAppend(judge, current, s.queue[1..], [news]);
        OneEvent(judge, current, news);
      }
  }

  // ---------------------------------------------------------------- steps

  function Requeues(steps: seq<Step>): nat {
    if steps == [] then 0 else (if steps[0].Again? then 1 else 0) + Requeues(steps[1..])
  }

  /** The reconciles of a run that ask for another one. */
  ghost function Rescheduled(judge: Spec -> Verdict, s: State, steps: seq<Step>): nat
    requires Runs(judge, s, steps)
    decreases |steps|
  {
    if steps == [] then 0
    else
      (if steps[0].Reconcile? && Reschedules(judge, s.queue[0], steps[0].listed) then 1 else 0)
      + Rescheduled(judge, Next(judge, s, steps[0]), steps[1..])
  }

  lemma {:induction false} RequeuesPaid(judge: Spec -> Verdict, s: State, steps: seq<Step>)
    requires Runs(judge, s, steps)
    ensures Requeues(steps) <= Rescheduled(judge, s, steps) + (if s.due then 1 else 0)
    decreases |steps|
  {
    if steps != [] {
      RequeuesPaid(judge, Next(judge, s, steps[0]), steps[1..]);
    }
  }

  lemma AgainMeasure(judge: Spec -> Verdict, s: State)
    requires Enabled(s, Again)
    ensures MeasureOf(judge, Next(judge, s, Again)) == 1 + (if ShowsVerdict(judge, s) then 0 else 1)
  {
    OneEvent(judge, judge(s.object_.spec), Snapshot(s.object_));
  }

  lemma {:induction false} StepsWithinMeasure(judge: Spec -> Verdict, s: State, steps: seq<Step>)
    requires Runs(judge, s, steps) && EditFree(steps)
    ensures |steps| <= MeasureOf(judge, s) + 3 * Requeues(steps)
    ensures Requeues(steps) == 0 ==> End(judge, s, steps).sent - s.sent <= MeasureOf(judge, s) - |s.queue|
    decreases |steps|
  {
    MeasureBounds(judge, judge(s.object_.spec), s.queue);
    if steps != [] {
      var s' := Next(judge, s, steps[0]);
      if steps[0].Again? {
        AgainMeasure(judge, s);
      } else {
        StepMeasure(judge, s, steps[0]);
      }
      StepsWithinMeasure(judge, s', steps[1..]);
    }
  }

  /** Once the spec is no longer edited, the controller and its own events come to rest unless listing the
      pods of the cluster keeps failing: whatever else is delivered or dropped and however stale the events
      are, a run has at most three steps for every queued event and for every requeue, and requeues are only
      served for such failures. Without them it sends at most two patches for every queued event. */
  lemma LoopEnds(judge: Spec -> Verdict, s: State, steps: seq<Step>)
    requires Runs(judge, s, steps) && EditFree(steps)
    ensures |steps| <= 3 * |s.queue| + 3 * (Rescheduled(judge, s, steps) + (if s.due then 1 else 0))
    ensures Rescheduled(judge, s, steps) == 0 && !s.due ==> End(judge, s, steps).sent - s.sent <= 2 * |s.queue|
  {
    MeasureBounds(judge, judge(s.object_.spec), s.queue);
    RequeuesPaid(judge, s, steps);
    StepsWithinMeasure(judge, s, steps);
  }

  // ---------------------------------------------------------------- patches

  /** The patches of a run that were lost. */
  ghost function Lost(judge: Spec -> Verdict, s: State, steps: seq<Step>): nat
    requires Runs(judge, s, steps)
    decreases |steps|
  {
    if steps == [] then 0
    else (if Loses(judge, s, steps[0]) then 1 else 0) + Lost(judge, Next(judge, s, steps[0]), steps[1..])
  }

  /** The step sends a patch, and it fails. */
  ghost predicate Loses(judge: Spec -> Verdict, s: State, step: Step)
    requires Enabled(s, step)
  {
    step.Reconcile? && !step.delivered && !Shown(s.queue[0].status, judge(s.queue[0].spec))
  }

  /** The part of the measure that pays for patches; without an event, a missing verdict still costs one. */
  ghost function Potential(judge: Spec -> Verdict, s: State): int {
    MeasureOf(judge, s) - |s.queue| + (if s.queue == [] && !ShowsVerdict(judge, s) then 1 else 0)
  }

  lemma PotentialBounds(judge: Spec -> Verdict, s: State)
    ensures 0 <= Potential(judge, s) <= 2 * Most(|s.queue|)
    ensures s.queue != [] ==> Potential(judge, s) <= 2 * |s.queue|
  {
    MeasureBounds(judge, judge(s.object_.spec), s.queue);
  }

  function Most(n: nat): nat {
    if n == 0 then 1 else n
  }

  lemma StepPotential(judge: Spec -> Verdict, s: State, step: Step)
    requires Enabled(s, step) && Tracked(s) && !step.Edit?
    ensures var s' := Next(judge, s, step);
            && Potential(judge, s') + (if Lands(judge, s, step) then 1 else 0) <= Potential(judge, s)
            && s'.sent == s.sent + (if Lands(judge, s, step) then 1 else 0) + (if Loses(judge, s, step) then 1 else 0)
            && |s'.queue| <= Most(|s.queue|)
  {
    var s' := Next(judge, s, step);
    if step.Again? {
      AgainMeasure(judge, s);
    } else {
      StepMeasure(judge, s, step);
      SentByStep(judge, s, step);
      if s'.queue == [] {
        LastEvent(judge, s, step);
        OneEvent(judge, judge(s.object_.spec), s.queue[0]);
      }
    }
  }

  lemma SentByStep(judge: Spec -> Verdict, s: State, step: Step)
    requires Enabled(s, step)
    ensures Next(judge, s, step).sent
         == s.sent + (if Lands(judge, s, step) then 1 else 0) + (if Loses(judge, s, step) then 1 else 0)
  {
    if step.Reconcile? {
      ReconcileEffect(judge, s, step.stamp, step.delivered, step.listed);
    }
  }

  function Edits(steps: seq<Step>): nat {
    if steps == [] then 0 else (if steps[0].Edit? then 1 else 0) + Edits(steps[1..])
  }

  /** Room for the patches that `e` edits can cause with `n` events queued at first. */
  function EditRoom(e: nat, n: nat): nat {
    2 * (e * (n + e))
  }

  lemma EditRoomSteps(e: nat, n: nat)
    ensures e > 0 ==> 2 * (n + 1) + EditRoom(e - 1, n + 1) <= EditRoom(e, n)
    ensures forall m: nat | m <= n :: EditRoom(e, m) <= EditRoom(e, n)
  {
    if e > 0 {
      assert e * (n + e) == (e - 1) * (n + e) + (n + e);
    }
    forall m: nat | m <= n
      ensures EditRoom(e, m) <= EditRoom(e, n)
    {
      MulMonotone(e, m + e, n + e);
    }
  }

  lemma EditEffect(judge: Spec -> Verdict, s: State, step: Step)
    requires step.Edit?
    ensures Next(judge, s, step).sent == s.sent
    ensures |Next(judge, s, step).queue| == |s.queue| + 1
    ensures MeasureOf(judge, Next(judge, s, step)) - (|s.queue| + 1) <= 2 * (|s.queue| + 1)
  {
    var s' := Next(judge, s, step);
    MeasureBounds(judge, judge(s'.object_.spec), s'.queue);
  }

  /** What is left for the patches of a run with `e` edits to come. */
  ghost function Left(judge: Spec -> Verdict, s: State, e: nat): int {
    Potential(judge, s) + EditRoom(e, Most(|s.queue|))
  }

  lemma StepLeft(judge: Spec -> Verdict, s: State, step: Step, e: nat)
    requires Enabled(s, step) && Tracked(s) && (step.Edit? ==> e > 0)
    ensures Left(judge, Next(judge, s, step), if step.Edit? then e - 1 else e) + (if Lands(judge, s, step) then 1 else 0)
         <= Left(judge, s, e)
  {
    var s', n := Next(judge, s, step), Most(|s.queue|);
    PotentialBounds(judge, s);
    EditRoomSteps(e, n);
    if step.Edit? {
      PotentialBounds(judge, s');
      EditRoomSteps(e - 1, n + 1);
    } else {
      StepPotential(judge, s, step);
    }
  }

  lemma {:induction false} LandedWithinRoom(judge: Spec -> Verdict, s: State, steps: seq<Step>)
    requires Tracked(s) && Runs(judge, s, steps)
    ensures End(judge, s, steps).sent - s.sent == Landed(judge, s, steps) + Lost(judge, s, steps)
    ensures Landed(judge, s, steps) <= Left(judge, s, Edits(steps))
    decreases |steps|
  {
    if steps == [] {
      PotentialBounds(judge, s);
    } else {
      StepTracked(judge, s, steps[0]);
      SentByStep(judge, s, steps[0]);
      StepLeft(judge, s, steps[0], Edits(steps));
      LandedWithinRoom(judge, Next(judge, s, steps[0]), steps[1..]);
    }
  }

  /** The patches of any run, requeued, delivered or lost, without and with edits. Every patch is delivered
      or lost, and of those delivered there are, without edits, at most two for every queued event; every
      edit can make the events queued by then stale once more. */
  lemma PatchesBoundedByEdits(judge: Spec -> Verdict, s: State, steps: seq<Step>)
    requires Tracked(s) && s.queue != [] && Runs(judge, s, steps)
    ensures End(judge, s, steps).sent - s.sent
         <= 2 * |s.queue| + EditRoom(Edits(steps), |s.queue|) + Lost(judge, s, steps)
    ensures EditFree(steps) ==> End(judge, s, steps).sent - s.sent <= 2 * |s.queue| + Lost(judge, s, steps)
  {
    PotentialBounds(judge, s);
    LandedWithinRoom(judge, s, steps);
    if EditFree(steps) {
      NoEdits(steps);
    }
  }

  lemma {:induction false} NoEdits(steps: seq<Step>)
    requires EditFree(steps)
    ensures Edits(steps) == 0
  {
    if steps != [] {
      NoEdits(steps[1..]);
    }
  }

  // ---------------------------------------------------------------- what has no bound

  /** A good policy over all namespaces: its patch and its list fail, and it is taken up again. */
  lemma FailAndRetry(judge: Spec -> Verdict, s: State) returns (s': State)
    requires s.queue == [Snapshot(s.object_)]
    requires judge(s.object_.spec).Good? && ListedNamespaces(s.object_.spec) == []
    ensures Enabled(Next(judge, s, Reconcile("", false, false)), Again)
    ensures s' == Next(judge, Next(judge, s, Reconcile("", false, false)), Again)
    ensures s'.queue == s.queue && s'.object_ == s.object_
    ensures s'.sent == s.sent + (if ShowsVerdict(judge, s) then 0 else 1)
  {
    ReconcileEffect(judge, s, "", false, false);
    var failed := Next(judge, s, Reconcile("", false, false));
    assert failed.queue == [] && failed.due;
    s' := Next(judge, failed, Again);
  }

  lemma PrependTwo(judge: Spec -> Verdict, s: State, x: Step, y: Step, rest: seq<Step>)
    requires Enabled(s, x) && Enabled(Next(judge, s, x), y) && Runs(judge, Next(judge, Next(judge, s, x), y), rest)
    ensures Runs(judge, s, [x, y] + rest)
    ensures End(judge, s, [x, y] + rest) == End(judge, Next(judge, Next(judge, s, x), y), rest)
  {
    var steps := [x, y] + rest;
    assert steps[1..] == [y] + rest && steps[1..][1..] == rest;
  }

  lemma {:induction false} RetriesForever(judge: Spec -> Verdict, s: State, n: nat) returns (steps: seq<Step>)
    requires s.queue == [Snapshot(s.object_)]
    requires judge(s.object_.spec).Good? && ListedNamespaces(s.object_.spec) == []
    ensures Runs(judge, s, steps) && EditFree(steps) && |steps| == 2 * n
    ensures End(judge, s, steps).sent == s.sent + (if ShowsVerdict(judge, s) then 0 else n)
    decreases n
  {
    steps := [];
    if n > 0 {
      var s' := FailAndRetry(judge, s);
      var rest := RetriesForever(judge, s', n - 1);
      PrependTwo(judge, s, Reconcile("", false, false), Again, rest);
      steps := [Reconcile("", false, false), Again] + rest;
    }
  }

  /** No event asks for a requeue if the spec does not. */
  lemma {:induction false} NoneRescheduled(judge: Spec -> Verdict, s: State, steps: seq<Step>)
    requires Runs(judge, s, steps) && EditFree(steps)
    requires forall k | 0 <= k < |s.queue| :: s.queue[k].spec == s.object_.spec
    requires !(judge(s.object_.spec).Good? && ListedNamespaces(s.object_.spec) == [])
    ensures Rescheduled(judge, s, steps) == 0
    decreases |steps|
  {
    if steps != [] {
      StepSpec(judge, s, steps[0]);
      if steps[0].Reconcile? {
        ReconcileEffect(judge, s, steps[0].stamp, steps[0].delivered, steps[0].listed);
      }
      NoneRescheduled(judge, Next(judge, s, steps[0]), steps[1..]);
    }
  }

  /** Some run without edits has `n` steps or more; some run sends `n` patches or more. */
  ghost predicate CanTake(judge: Spec -> Verdict, s: State, n: nat) {
    exists steps :: Runs(judge, s, steps) && EditFree(steps) && |steps| >= n
  }

  ghost predicate CanSend(judge: Spec -> Verdict, s: State, n: nat) {
    exists steps :: Runs(judge, s, steps) && EditFree(steps) && End(judge, s, steps).sent >= n
  }

  /** From the creation of an object without edits, exactly the accepted policies over all namespaces can be
      reconciled without end, and exactly those of them that do not show their verdict can be patched without
      end: the one with lists that fail, the other with patches that fail as well. */
  lemma EndlessExactly(judge: Spec -> Verdict, o: ApiObject)
    ensures (forall n: nat :: CanTake(judge, Created(o), n)) <==> judge(o.spec).Good? && ListedNamespaces(o.spec) == []
    ensures (forall n: nat :: CanSend(judge, Created(o), n))
      <==> judge(o.spec).Good? && ListedNamespaces(o.spec) == [] && !ShowsVerdict(judge, Created(o))
  {
    var s := Created(o);
    if judge(o.spec).Good? && ListedNamespaces(o.spec) == [] {
      forall n: nat
        ensures CanTake(judge, s, n)
        ensures !ShowsVerdict(judge, s) ==> CanSend(judge, s, n)
      {
        var steps := RetriesForever(judge, s, n);
      }
    } else {
      FewSteps(judge, s);
    }
    if ShowsVerdict(judge, s) {
      NoPatches(judge, s);
    }
  }

  lemma FewSteps(judge: Spec -> Verdict, s: State)
    requires s.queue == [Snapshot(s.object_)] && !s.due && s.sent == 0
    requires !(judge(s.object_.spec).Good? && ListedNamespaces(s.object_.spec) == [])
    ensures !CanTake(judge, s, 4) && !CanSend(judge, s, 3)
  {
    forall steps | Runs(judge, s, steps) && EditFree(steps)
      ensures |steps| <= 3 && End(judge, s, steps).sent <= 2
    {
      NoneRescheduled(judge, s, steps);
      LoopEnds(judge, s, steps);
    }
  }

  lemma NoPatches(judge: Spec -> Verdict, s: State)
    requires s.queue == [Snapshot(s.object_)] && s.sent == 0 && ShowsVerdict(judge, s)
    ensures !CanSend(judge, s, 1)
  {
    forall steps | Runs(judge, s, steps) && EditFree(steps)
      ensures End(judge, s, steps).sent == 0
    {
      ShownStays(judge, s, steps);
    }
  }
}
