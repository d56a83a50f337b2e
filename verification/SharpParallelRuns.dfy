/** The bound on the requests of parallel workers is reached: whatever happens in a shared bucket, some run of
    the operator makes it happen, with one request for each grant. */
module SharpParallelRuns {
  import opened Basics
  import opened Wrappers
  import opened Pods
  import opened Crd
  import opened Cel
  import opened RateLimiting
  import opened PodReconcile
  import opened PodProperties
  import opened PolicyReconcile
  import opened OperatorRuns
  import opened RemovalBudgets
  import opened ParallelRuns
  import S = RacyRefills

  /** A policy without a limit that entitles removal of a pod at an instant. */
  datatype Case = Case(pod: Pod, policy: Policy, instant: int)

  ghost predicate Fits(lib: Library, c: Case) {
    && Judge(lib, c.policy.spec).Good? && Removable(lib, c.pod, c.policy.spec, c.instant)
    && EffectiveLimit(c.policy.spec.limits.maxDeletesPerMinute).None?
  }

  /** What is read and answered for a call that begins at clock `now`; the request is sent, and fails. */
  function ReadAt(c: Case, now: nat): Readings {
    Readings(c.instant, now, 0, 0, true, Failure)
  }

  /** A worker is in a call exactly if its thread is inside the bucket. */
  ghost predicate Mirrors(s: Shared, c: Case, i: nat)
    requires i < |s.bucket.threads| == |s.workers|
  {
    var w := s.workers[i];
    if s.bucket.threads[i].Idle? then w.Free?
    else
      && w.Drawing? && w.task < |s.tasks| && w.called && !w.granted
      && w.pod == c.pod && w.policy == c.policy && w.r == ReadAt(c, w.r.globalNow)
  }

  ghost predicate Simulates(s: Shared, c: Case) {
    && s.cache == [c.policy] && Removals(s.log) == s.bucket.grants
    && |s.bucket.threads| == |s.workers| && forall i | 0 <= i < |s.workers| :: Mirrors(s, c, i)
  }

  lemma MakesCall(w: Worker, c: Case)
    requires w.Drawing? && w.policy == c.policy && w.r == ReadAt(c, w.r.globalNow)
    ensures IsCall(AttemptOf(w, true)) <==> w.granted
  {
  }

  /** The call of a new task begins. */
  lemma BeginCall(lib: Library, s: Shared, c: Case, i: nat, now: nat, d: nat)
    requires Fits(lib, c) && Simulates(s, c) && i < |s.workers| && B.Enabled(s.bucket, B.ReadClock(i, now))
    requires B.Timed(s.bucket, B.ReadClock(i, now), d)
    ensures Possible(lib, s, Start(c.pod), d)
    ensures var s1 := After(lib, s, Start(c.pod), d); var take := Take(i, |s.tasks|, ReadAt(c, now));
            Possible(lib, s1, take, d) &&
            var s2 := After(lib, s1, take, d); var inside := Inside(i, B.ReadClock(i, now));
            Possible(lib, s2, inside, d) &&
            var s3 := After(lib, s2, inside, d);
            Simulates(s3, c) && s3.bucket == B.Next(s.bucket, B.ReadClock(i, now))
  {
    var s1 := After(lib, s, Start(c.pod), d);
    DecisionOnRemovable(lib, c.pod, c.policy.spec, c.instant);
    assert s1.tasks[|s.tasks|] == Task(c.pod, [c.policy], 0, None, None);
    forall w <- s1.workers
      ensures w.Drawing? ==> w.task != |s.tasks|
    {
      var k :| 0 <= k < |s.workers| && s.workers[k] == w;
      assert Mirrors(s, c, k);
    }
    assert Mirrors(s, c, i);
    var s2 := After(lib, s1, Take(i, |s.tasks|, ReadAt(c, now)), d);
    var s3 := After(lib, s2, Inside(i, B.ReadClock(i, now)), d);
    forall k | 0 <= k < |s3.workers|
      ensures Mirrors(s3, c, k)
    {
      assert Mirrors(s, c, k);
    }
  }

  /** A step inside a call that leaves it there. */
  lemma StayInside(lib: Library, s: Shared, c: Case, step: B.Step, d: nat)
    requires Simulates(s, c) && !step.Tick? && !step.ReadClock? && B.Enabled(s.bucket, step) && B.Timed(s.bucket, step, d)
    requires !B.Next(s.bucket, step).threads[step.i].Idle?
    ensures Possible(lib, s, Inside(step.i, step), d)
    ensures var s' := After(lib, s, Inside(step.i, step), d); Simulates(s', c) && s'.bucket == B.Next(s.bucket, step)
  {
    assert Mirrors(s, c, step.i);
    var s' := After(lib, s, Inside(step.i, step), d);
    forall k | 0 <= k < |s'.workers|
      ensures Mirrors(s', c, k)
    {
      assert Mirrors(s, c, k);
    }
  }

  /** A step that ends it, and the request that follows a grant. */
  lemma EndCall(lib: Library, s: Shared, c: Case, step: B.Step, d: nat)
    requires Simulates(s, c) && !step.Tick? && !step.ReadClock? && B.Enabled(s.bucket, step) && B.Timed(s.bucket, step, d)
    requires B.Next(s.bucket, step).threads[step.i].Idle?
    ensures Possible(lib, s, Inside(step.i, step), d)
    ensures var s1 := After(lib, s, Inside(step.i, step), d);
            Possible(lib, s1, Finish(step.i, true), d) &&
            var s2 := After(lib, s1, Finish(step.i, true), d);
            Simulates(s2, c) && s2.bucket == B.Next(s.bucket, step)
  {
    var i := step.i;
    assert Mirrors(s, c, i);
    var s1 := After(lib, s, Inside(i, step), d);
    var s2 := After(lib, s1, Finish(i, true), d);
    MakesCall(s1.workers[i], c);
    RemovalsSnoc(s1.log, AttemptOf(s1.workers[i], true));
    forall k | 0 <= k < |s2.workers|
      ensures Mirrors(s2, c, k)
    {
      assert Mirrors(s, c, k);
    }
  }

  lemma PrependMove(lib: Library, s: Shared, m: Move, rest: seq<Move>, d: nat)
    requires Possible(lib, s, m, d) && Moves(lib, After(lib, s, m, d), rest, d)
    ensures Moves(lib, s, [m] + rest, d) && Final(lib, s, [m] + rest, d) == Final(lib, After(lib, s, m, d), rest, d)
  {
    assert ([m] + rest)[1..] == rest;
  }

  /** Every run of the bucket is one of the operator's. */
  lemma {:induction false} Simulation(lib: Library, s: Shared, c: Case, steps: seq<B.Step>, d: nat) returns (moves: seq<Move>)
    requires Fits(lib, c) && Simulates(s, c) && B.TimedRun(s.bucket, steps, d) && B.Runs(s.bucket, steps)
    ensures Moves(lib, s, moves, d)
    ensures Simulates(Final(lib, s, moves, d), c) && Final(lib, s, moves, d).bucket == B.End(s.bucket, steps)
    decreases |steps|
  {
    if steps == [] {
      return [];
    }
    var step := steps[0];
    if step.Tick? {
      var s1 := After(lib, s, Tick(step.now), d);
      TickSimulates(lib, s, c, step.now, d);
      var rest := Simulation(lib, s1, c, steps[1..], d);
      PrependMove(lib, s, Tick(step.now), rest, d);
      return [Tick(step.now)] + rest;
    }
    var inside := Inside(step.i, step);
    if step.ReadClock? {
      BeginCall(lib, s, c, step.i, step.now, d);
      var take := Take(step.i, |s.tasks|, ReadAt(c, step.now));
      var s1 := After(lib, s, Start(c.pod), d);
      var s2 := After(lib, s1, take, d);
      var rest := Simulation(lib, After(lib, s2, inside, d), c, steps[1..], d);
      PrependMove(lib, s2, inside, rest, d);
      PrependMove(lib, s1, take, [inside] + rest, d);
      PrependMove(lib, s, Start(c.pod), [take] + ([inside] + rest), d);
      return [Start(c.pod)] + ([take] + ([inside] + rest));
    }
    var s1;
    if B.Next(s.bucket, step).threads[step.i].Idle? {
      EndCall(lib, s, c, step, d);
      s1 := After(lib, s, inside, d);
      var rest := Simulation(lib, After(lib, s1, Finish(step.i, true), d), c, steps[1..], d);
      PrependMove(lib, s1, Finish(step.i, true), rest, d);
      moves := [Finish(step.i, true)] + rest;
    } else {
      StayInside(lib, s, c, step, d);
      s1 := After(lib, s, inside, d);
      moves := Simulation(lib, s1, c, steps[1..], d);
    }
    PrependMove(lib, s, inside, moves, d);
    moves := [inside] + moves;
  }

  lemma TickSimulates(lib: Library, s: Shared, c: Case, now: nat, d: nat)
    requires Simulates(s, c) && s.bucket.clock <= now
    ensures Simulates(After(lib, s, Tick(now), d), c)
  {
    forall k | 0 <= k < |s.workers|
      ensures Mirrors(After(lib, s, Tick(now), d), c, k)
    {
      assert Mirrors(s, c, k);
    }
  }

  /** For any rate, number of workers and number of windows, and any policy that is accepted, without a
      limit and entitles removal of a pod, a run with instant calls to the limiter makes as many requests as the bound allows. */
  lemma ParallelRemovalBudgetIsSharp(lib: Library, rate: nat, start: nat, n: nat, m: nat, c: Case) returns (moves: seq<Move>)
    requires rate > 0 && n > 0 && Fits(lib, c)
    ensures Moves(lib, Fresh(rate, start, n), moves, 0)
    ensures var e := Final(lib, Fresh(rate, start, n), moves, 0);
            && e.bucket.clock == start + WINDOW * m
            && Removals(e.log) == rate * (1 + n * B.Windows(e.bucket.clock - start, WINDOW))
  {
    var s := Fresh(rate, start, n);
    var change, event := Change([c.policy]), Event(c.policy);
    var s1 := After(lib, s, change, 0);
    var s2 := After(lib, s1, event, 0);
    FilterOne((p: Policy) => Validate(p.spec).Ok?, c.policy);
    assert s2.cache == [c.policy];
    assert forall i | 0 <= i < n :: Mirrors(s2, c, i);
    var steps := S.ConcurrentBudgetIsSharp(rate, start, n, m);
    var rest := Simulation(lib, s2, c, steps, 0);
    PrependMove(lib, s1, event, rest, 0);
    PrependMove(lib, s, change, [event] + rest, 0);
    moves := [change] + ([event] + rest);
  }
}
