/** The operator on several workers against the one whose calls do not overlap: a move that touches no call,
    and an attempt during which no other worker moves, do in ParallelRuns what a step of OperatorRuns does. */
module ParallelAgrees {
  import opened Wrappers
  import opened Pods
  import opened Crd
  import opened Cel
  import opened RateLimiting
  import opened PodReconcile
  import opened OperatorRuns
  import opened ParallelRuns
  import S = RacyRefills

  /** The same store, cache, log, tasks and global bucket. */
  ghost predicate Agrees(s: Shared, ops: State) {
    && s.store == ops.store && s.cache == ops.cache && s.log == ops.log && s.tasks == ops.tasks
    && S.BucketOf(s.bucket) == ops.limiter.global
  }

  lemma PlainMovesAgree(
    lib: Library, s: Shared, ops: State, store: seq<Policy>, policy: Policy, stamp: string, cluster: seq<Pod>,
    failing: set<nat>, pod: Pod, d: nat)
    requires Agrees(s, ops)
    ensures Agrees(After(lib, s, Change(store), d), Next(lib, ops, StoreChanges(store)))
    ensures Agrees(After(lib, s, Event(policy), d), Next(lib, ops, PolicyEvent(policy, stamp, cluster, failing)))
    ensures Agrees(After(lib, s, Start(pod), d), Next(lib, ops, Begin(pod)))
  {
  }

  lemma SkipAgrees(lib: Library, s: Shared, ops: State, j: nat, r: Readings, d: nat)
    requires Agrees(s, ops) && Possible(lib, s, Skip(j, r.now), d)
    ensures Enabled(ops, Advance(j, r))
    ensures Agrees(After(lib, s, Skip(j, r.now), d), Next(lib, ops, Advance(j, r)))
  {
    SkippedVisit(DecisionOn(lib, s.tasks[j], r.now), s.tasks[j], r, ops);
  }

  lemma SkippedVisit(decision: Decision, t: Task, r: Readings, ops: State)
    requires !decision.Act? && t.at < |t.policies| && t.stop.None?
    ensures var v := Visit(decision, t.pod, t.policies[t.at], r, Scan(ops.limiter, ops.metrics, t.ttl, ops.log, None));
            && v.limiter == ops.limiter && v.attempts == ops.log && v.stop.None?
            && v.ttl == if decision.Pending? then Sooner(t.ttl, decision.left) else t.ttl
  {
  }

  /** What a worker does inside the bucket. */
  function Insides(i: nat, inner: seq<B.Step>): seq<Move> {
    seq(|inner|, k requires 0 <= k < |inner| => Inside(i, inner[k]))
  }

  /** A call that goes on alone is marked as granted exactly if it draws a token. */
  lemma {:induction false} InsideAlone(lib: Library, s: Shared, i: nat, inner: seq<B.Step>, before: nat, d: nat)
    requires i < |s.workers| && s.workers[i].Drawing? && s.workers[i].called && i < |s.bucket.threads|
    requires S.AloneRun(s.bucket, inner, i) && B.TimedRun(s.bucket, inner, d) && B.Runs(s.bucket, inner)
    requires s.workers[i].granted <==> s.bucket.grants > before
    requires s.bucket.grants >= before
    ensures Moves(lib, s, Insides(i, inner), d)
    ensures var b := B.End(s.bucket, inner);
            Final(lib, s, Insides(i, inner), d)
            == s.(bucket := b, workers := s.workers[i := s.workers[i].(granted := b.grants > before)])
    decreases |inner|
  {
    if inner == [] {
      assert s.workers[i := s.workers[i]] == s.workers;
    } else {
      var move := Inside(i, inner[0]);
      var s' := After(lib, s, move, d);
      InsideAlone(lib, s', i, inner[1..], before, d);
      assert Insides(i, inner) == [move] + Insides(i, inner[1..]);
      Ahead(lib, s, move, Insides(i, inner[1..]), d);
    }
  }

  lemma Ahead(lib: Library, s: Shared, m: Move, rest: seq<Move>, d: nat)
    requires Possible(lib, s, m, d) && Moves(lib, After(lib, s, m, d), rest, d)
    ensures Moves(lib, s, [m] + rest, d) && Final(lib, s, [m] + rest, d) == Final(lib, After(lib, s, m, d), rest, d)
  {
    assert ([m] + rest)[1..] == rest;
  }

  /** The state in which a worker's call, begun by a task that acts, has ended without interruption. */
  ghost predicate Called(s: Shared, i: nat, j: nat, r: Readings, inner: seq<B.Step>, e: Shared)
    requires j < |s.tasks| && s.tasks[j].at < |s.tasks[j].policies| && i < |s.workers|
    requires B.Enabled(s.bucket, B.ReadClock(i, r.globalNow))
    requires B.Runs(B.Next(s.bucket, B.ReadClock(i, r.globalNow)), inner)
  {
    var t := s.tasks[j];
    var b := B.End(B.Next(s.bucket, B.ReadClock(i, r.globalNow)), inner);
    e == s.(bucket := b, workers := s.workers[i := Drawing(j, t.pod, t.policies[t.at], r, true, b.grants > s.bucket.grants)])
  }

  lemma CallAlone(lib: Library, s: Shared, i: nat, j: nat, r: Readings, inner: seq<B.Step>, d: nat) returns (e: Shared)
    requires Possible(lib, s, Take(i, j, r), d) && B.Enabled(s.bucket, B.ReadClock(i, r.globalNow))
    requires B.Timed(s.bucket, B.ReadClock(i, r.globalNow), d)
    requires var b := B.Next(s.bucket, B.ReadClock(i, r.globalNow));
             S.AloneRun(b, inner, i) && B.TimedRun(b, inner, d) && B.Runs(b, inner)
    ensures Called(s, i, j, r, inner, e)
    ensures var moves := [Take(i, j, r)] + ([Inside(i, B.ReadClock(i, r.globalNow))] + Insides(i, inner));
            Moves(lib, s, moves, d) && Final(lib, s, moves, d) == e
  {
    var take, read := Take(i, j, r), Inside(i, B.ReadClock(i, r.globalNow));
    var s1 := After(lib, s, take, d);
    var s2 := After(lib, s1, read, d);
    InsideAlone(lib, s2, i, inner, s.bucket.grants, d);
    Ahead(lib, s1, read, Insides(i, inner), d);
    Ahead(lib, s, take, [read] + Insides(i, inner), d);
    e := Final(lib, s2, Insides(i, inner), d);
  }

  /** The worker's call has done to the global bucket what `Take` does; the request agrees with the step. */
  lemma RequestAgrees(lib: Library, s: Shared, ops: State, e: Shared, i: nat, j: nat, r: Readings, policyOk: bool, d: nat)
    requires Agrees(s, ops) && i < |s.workers| && Waiting(s, j) && DecisionOn(lib, s.tasks[j], r.now).Act?
    requires var c := CallsOf(s.tasks[j].policies[s.tasks[j].at], r);
             policyOk == RateLimiting.Granted(AfterCall(ops.limiter, c.0), c.1)
    requires e == s.(bucket := e.bucket, workers := e.workers) && |e.workers| == |s.workers|
    requires var t := s.tasks[j];
             e.workers[i] == Drawing(j, t.pod, t.policies[t.at], r, true, Admits(ops.limiter.global, r.globalNow))
    requires S.BucketOf(e.bucket) == RateLimiting.Take(ops.limiter.global, r.globalNow)
    requires i < |e.bucket.threads| && e.bucket.threads[i].Idle?
    ensures Enabled(ops, Advance(j, r)) && Possible(lib, e, Finish(i, policyOk), d)
    ensures Agrees(After(lib, e, Finish(i, policyOk), d), Next(lib, ops, Advance(j, r)))
  {
    var t := s.tasks[j];
    assert AttemptOf(e.workers[i], policyOk) == TryRemove(t.pod, t.policies[t.at], r, ops.limiter);
  }

  /** An attempt during which no other worker moves: it draws from the global limit, is answered by the policy
      limit and makes its request as in one step of OperatorRuns. */
  lemma AttemptAgrees(
    lib: Library, s: Shared, ops: State, i: nat, j: nat, r: Readings, inner: seq<B.Step>, policyOk: bool, d: nat)
    requires Agrees(s, ops) && Possible(lib, s, Take(i, j, r), d)
    requires i < |s.bucket.threads| && s.bucket.threads[i].Idle? && r.globalNow == s.bucket.clock
    requires var b := B.Next(s.bucket, B.ReadClock(i, r.globalNow));
             && S.AloneRun(b, inner, i) && B.TimedRun(b, inner, d) && B.Runs(b, inner)
             && i < |B.End(b, inner).threads| && B.End(b, inner).threads[i].Idle?
    requires var c := CallsOf(s.tasks[j].policies[s.tasks[j].at], r);
             policyOk == RateLimiting.Granted(AfterCall(ops.limiter, c.0), c.1)
    ensures Enabled(ops, Advance(j, r))
    ensures var moves := [Take(i, j, r)] + ([Inside(i, B.ReadClock(i, r.globalNow))] + Insides(i, inner));
            && Moves(lib, s, moves, d)
            && Possible(lib, Final(lib, s, moves, d), Finish(i, policyOk), d)
            && Agrees(After(lib, Final(lib, s, moves, d), Finish(i, policyOk), d), Next(lib, ops, Advance(j, r)))
  {
    var e := CallAlone(lib, s, i, j, r, inner, d);
    S.SoloCall(s.bucket, i, r.globalNow, inner);
    assert ([B.ReadClock(i, r.globalNow)] + inner)[1..] == inner;
    RequestAgrees(lib, s, ops, e, i, j, r, policyOk, d);
  }
}
