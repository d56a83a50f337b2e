/** `allow_policy` (src/rate_limiter.rs) looks a bucket up and, when there is none, inserts a new one in a
    second step, which may replace one that another thread has just inserted. This is one name with a steady
    limit, called by any number of threads at once; each bucket is one of ConcurrentBucket. */
module PolicyMapRace {
  import opened Basics
  import opened Wrappers
  import opened RateLimiting
  import B = ConcurrentBucket
  import R = RacyRefills

  /** Where a thread stands: it found no bucket at clock `since` and will insert one, or it holds a bucket
      and has `called` its `allow` or not yet. */
  datatype Pc = Idle | Missed(since: nat) | Holding(bucket: nat, called: bool)

  /** Buckets are numbered as they are inserted; `slot` is the map entry, inserted at clock `since`. */
  datatype State = State(max: nat, clock: nat, slot: Option<nat>, since: nat, buckets: seq<B.State>, threads: seq<Pc>)

  /** `born` is the clock reading of `TokenBucket::new`, which precedes the insertion. */
  datatype Step =
    | Tick(now: nat)
    | Look(i: nat)
    | Install(i: nat, born: nat)
    | Inside(i: nat, step: B.Step)
    | Return(i: nat)

  predicate InsideEnabled(s: State, i: nat, step: B.Step, d: nat) {
    && i < |s.threads| && s.threads[i].Holding? && s.threads[i].bucket < |s.buckets|
    && !step.Tick? && step.i == i && (step.ReadClock? <==> !s.threads[i].called)
    && var b := s.buckets[s.threads[i].bucket];
       B.Enabled(b, step) && B.Timed(b, step, d)
  }

  /** As in ConcurrentBucket, a call takes at most `d` seconds from its clock reading to its store. */
  predicate Enabled(s: State, step: Step, d: nat) {
    match step
    case Tick(now) => s.clock <= now
    case Look(i) => i < |s.threads| && s.threads[i].Idle?
    case Install(i, born) => i < |s.threads| && s.threads[i].Missed? && s.threads[i].since <= born <= s.clock
    case Inside(i, inner) => InsideEnabled(s, i, inner, d)
    case Return(i) =>
      && i < |s.threads| && s.threads[i].Holding? && s.threads[i].called && s.threads[i].bucket < |s.buckets|
      && var b := s.buckets[s.threads[i].bucket];
         i < |b.threads| && b.threads[i].Idle?
  }

  /** A bucket made at `born`, seen at `now`. */
  function Made(max: nat, born: nat, n: nat, now: nat): B.State {
    B.Next(B.Initial(max, born, n), B.Tick(now))
  }

  function Next(s: State, step: Step, d: nat): State
    requires Enabled(s, step, d)
  {
    match step
    case Tick(now) =>
      s.(clock := now,
         buckets := seq(|s.buckets|, k requires 0 <= k < |s.buckets| => B.Next(s.buckets[k], B.Tick(now))))
    case Look(i) =>
      s.(threads := s.threads[i := if s.slot.Some? then Holding(s.slot.value, false) else Missed(s.clock)])
    case Install(i, born) =>
      var new_ := |s.buckets|;
      s.(slot := Some(new_), since := s.clock, buckets := s.buckets + [Made(s.max, born, |s.threads|, s.clock)],
         threads := s.threads[i := Holding(new_, false)])
    case Inside(i, inner) =>
      var k := s.threads[i].bucket;
      s.(buckets := s.buckets[k := B.Next(s.buckets[k], inner)], threads := s.threads[i := Holding(k, true)])
    case Return(i) => s.(threads := s.threads[i := Idle])
  }

  ghost predicate Runs(s: State, steps: seq<Step>, d: nat)
    decreases |steps|
  {
    steps == [] || (Enabled(s, steps[0], d) && Runs(Next(s, steps[0], d), steps[1..], d))
  }

  ghost function End(s: State, steps: seq<Step>, d: nat): State
    requires Runs(s, steps, d)
    decreases |steps|
  {
    if steps == [] then s else End(Next(s, steps[0], d), steps[1..], d)
  }

  function Initial(max: nat, start: nat, n: nat): State {
    State(max, start, None, start, [], seq(n, _ => Idle))
  }

  /** The calls granted so far, by whichever bucket. */
  function Grants(buckets: seq<B.State>): nat {
    if buckets == [] then 0 else Grants(buckets[..|buckets| - 1]) + buckets[|buckets| - 1].grants
  }

  // ---------------------------------------------------------------- one bucket per thread

  function Misses(threads: seq<Pc>): nat {
    |Filter((pc: Pc) => pc.Missed?, threads)|
  }

  lemma {:induction false} FilterNoLonger<T>(keep: T -> bool, s: seq<T>)
    ensures |Filter(keep, s)| <= |s|
  {
    if s != [] {
      FilterNoLonger(keep, s[1..]);
    }
  }

  /** Nobody misses once a bucket is stored, so those who will still create one missed before. */
  ghost predicate Bounded(s: State) {
    && (s.slot.None? ==> s.buckets == [])
    && (s.slot.Some? ==> s.slot.value < |s.buckets|)
    && |s.buckets| + Misses(s.threads) <= |s.threads|
  }

  lemma StepBounded(s: State, step: Step, d: nat)
    requires Bounded(s) && Enabled(s, step, d)
    ensures Bounded(Next(s, step, d)) && |Next(s, step, d).threads| == |s.threads|
  {
    var s' := Next(s, step, d);
    if !step.Tick? {
      FilterUpdate((q: Pc) => q.Missed?, s.threads, step.i, s'.threads[step.i]);
      FilterNoLonger((q: Pc) => q.Missed?, s'.threads);
    }
  }

  // ---------------------------------------------------------------- each bucket keeps its own budget

  lemma GrownFirst(max: nat, start: nat, n: nat, d: nat, born: nat, now: nat)
    requires start <= born <= now
    ensures B.Grown(Made(max, born, n, now), max, start, n, d)
  {
    var b := B.Initial(max, born, n);
    assert B.History(b, max, born, n, [], d);
    B.GrownStep(b, B.Tick(now), max, start, n, d);
  }

  ghost predicate AllGrown(s: State, start: nat, d: nat) {
    && start <= s.clock
    && (forall k | 0 <= k < |s.buckets| :: B.Grown(s.buckets[k], s.max, start, |s.threads|, d) && s.buckets[k].clock == s.clock)
    && (forall i | 0 <= i < |s.threads| && s.threads[i].Missed? :: start <= s.threads[i].since)
  }

  lemma StepGrown(s: State, step: Step, start: nat, d: nat)
    requires AllGrown(s, start, d) && Enabled(s, step, d)
    ensures AllGrown(Next(s, step, d), start, d) && Next(s, step, d).max == s.max
  {
    var n := |s.threads|;
    match step
    case Tick(now) =>
      forall k | 0 <= k < |s.buckets|
        ensures B.Grown(B.Next(s.buckets[k], B.Tick(now)), s.max, start, n, d)
      {
        B.GrownStep(s.buckets[k], B.Tick(now), s.max, start, n, d);
      }
    case Install(i, born) => GrownFirst(s.max, start, n, d, born, s.clock);
    case Inside(i, inner) => B.GrownStep(s.buckets[s.threads[i].bucket], inner, s.max, start, n, d);
    case _ =>
  }

  lemma {:induction false} RunKeeps(s: State, steps: seq<Step>, start: nat, d: nat)
    requires Bounded(s) && AllGrown(s, start, d) && Runs(s, steps, d)
    ensures Bounded(End(s, steps, d)) && AllGrown(End(s, steps, d), start, d)
    ensures |End(s, steps, d).threads| == |s.threads| && End(s, steps, d).max == s.max
    decreases |steps|
  {
    if steps != [] {
      StepBounded(s, steps[0], d);
      StepGrown(s, steps[0], start, d);
      RunKeeps(Next(s, steps[0], d), steps[1..], start, d);
    }
  }

  lemma {:induction false} NoMisses(n: nat)
    ensures Misses(seq(n, _ => Idle)) == 0
  {
    if n > 0 {
      NoMisses(n - 1);
      assert seq(n, _ => Idle)[1..] == seq(n - 1, _ => Idle);
    }
  }

  /** However many calls are made, at most one bucket per thread is ever created for a name with a
      steady limit. */
  lemma BucketsPerName(max: nat, start: nat, n: nat, steps: seq<Step>, d: nat)
    requires Runs(Initial(max, start, n), steps, d)
    ensures |End(Initial(max, start, n), steps, d).buckets| <= n
  {
    NoMisses(n);
    RunKeeps(Initial(max, start, n), steps, start, d);
  }

  function Shares(count: nat, share: nat): nat {
    count * share
  }

  lemma {:induction false} GrantsWithinShares(buckets: seq<B.State>, share: nat)
    requires forall k | 0 <= k < |buckets| :: buckets[k].grants <= share
    ensures Grants(buckets) <= Shares(|buckets|, share)
    decreases |buckets|
  {
    if buckets != [] {
      GrantsWithinShares(buckets[..|buckets| - 1], share);
      assert |buckets| * share == (|buckets| - 1) * share + share;
    }
  }

  /** What `n` racing threads can be granted for one name with a steady limit: for each of them, what the
      bucket that it may have inserted grants to all of them. */
  lemma NameBudget(max: nat, start: nat, n: nat, steps: seq<Step>, d: nat)
    requires d < WINDOW && Runs(Initial(max, start, n), steps, d)
    ensures var e := End(Initial(max, start, n), steps, d);
            start <= e.clock && Grants(e.buckets) <= Shares(n, B.Share(max, n, e.clock - start, d))
  {
    NoMisses(n);
    RunKeeps(Initial(max, start, n), steps, start, d);
    var e := End(Initial(max, start, n), steps, d);
    var share := B.Share(max, n, e.clock - start, d);
    forall k | 0 <= k < |e.buckets|
      ensures e.buckets[k].grants <= share
    {
      B.GrownBudget(e.buckets[k], max, start, n, d);
    }
    GrantsWithinShares(e.buckets, share);
    MoreShares(|e.buckets|, n, share);
  }

  lemma MoreShares(a: nat, b: nat, share: nat)
    requires a <= b
    ensures Shares(a, share) <= Shares(b, share)
  {
    MulMonotone(share, a, b);
  }

  // ---------------------------------------------------------------- the bounds are reached

  ghost predicate Reaches(s: State, steps: seq<Step>, e: State) {
    Runs(s, steps, 0) && End(s, steps, 0) == e
  }

  lemma {:induction false} Compose(s: State, xs: seq<Step>, m: State, ys: seq<Step>, e: State)
    requires Reaches(s, xs, m) && Reaches(m, ys, e)
    ensures Reaches(s, xs + ys, e)
    decreases |xs|
  {
    if xs == [] {
      assert xs + ys == ys;
    } else {
      assert (xs + ys)[1..] == xs[1..] + ys;
      Compose(Next(s, xs[0], 0), xs[1..], m, ys, e);
    }
  }

  lemma Then(s: State, xs: seq<Step>, m: State, step: Step) returns (ys: seq<Step>)
    requires Reaches(s, xs, m) && Enabled(m, step, 0)
    ensures Reaches(s, ys, Next(m, step, 0))
  {
    assert [step][1..] == [];
    Compose(s, xs, m, [step], Next(m, step, 0));
    ys := xs + [step];
  }

  /** What a thread does alone inside the bucket it holds. */
  lemma {:induction false} InsideAlone(s: State, i: nat, inner: seq<B.Step>) returns (steps: seq<Step>)
    requires i < |s.threads| && s.threads[i].Holding? && s.threads[i].called && s.threads[i].bucket < |s.buckets|
    requires var b := s.buckets[s.threads[i].bucket]; R.AloneRun(b, inner, i) && B.TimedRun(b, inner, 0) && B.Runs(b, inner)
    ensures var k := s.threads[i].bucket;
            Reaches(s, steps, s.(buckets := s.buckets[k := B.End(s.buckets[k], inner)]))
    decreases |inner|
  {
    steps := [];
    if inner != [] {
      var k, step := s.threads[i].bucket, Inside(i, inner[0]);
      var s' := Next(s, step, 0);
      assert s' == s.(buckets := s.buckets[k := B.Next(s.buckets[k], inner[0])]);
      var rest := InsideAlone(s', i, inner[1..]);
      steps := [step] + rest;
      assert steps[1..] == rest;
    }
  }

  /** A bucket of this second from which `granted` tokens have been drawn and `left` can be drawn. */
  predicate Open(b: B.State, clock: nat, n: nat, granted: nat, left: nat) {
    && b.clock == b.lastReset == clock && b.threads == seq(n, _ => B.Pc.Idle)
    && b.grants == granted && b.tokens == left
  }

  lemma CallAlone(s: State, i: nat, granted: nat, left: nat) returns (steps: seq<Step>, b': B.State)
    requires i < |s.threads| && s.threads[i].Holding? && !s.threads[i].called && s.threads[i].bucket < |s.buckets|
    requires left > 0 && Open(s.buckets[s.threads[i].bucket], s.clock, |s.threads|, granted, left)
    ensures Open(b', s.clock, |s.threads|, granted + 1, left - 1)
    ensures Reaches(s, steps, s.(buckets := s.buckets[s.threads[i].bucket := b'], threads := s.threads[i := Idle]))
  {
    var k := s.threads[i].bucket;
    var b, read := s.buckets[k], B.ReadClock(i, s.clock);
    var inner, end := R.SoloCallEnds(b, i);
    assert ([read] + inner)[1..] == inner;
    b' := end;
    steps := Then(s, [], s, Inside(i, read));
    var s' := Next(s, Inside(i, read), 0);
    var rest := InsideAlone(s', i, inner);
    var s'' := s'.(buckets := s'.buckets[k := b']);
    Compose(s, steps, s', rest, s'');
    steps := Then(s, steps + rest, s'', Return(i));
    assert s''.threads[i := Idle] == s.threads[i := Idle];
    assert s''.buckets == s.buckets[k := b'];
  }

  /** A thread draws all that its bucket, the stored one, has left. */
  lemma {:induction false} DrainStored(s: State, i: nat, granted: nat, left: nat) returns (steps: seq<Step>, b': B.State)
    requires i < |s.threads| && s.threads[i].Holding? && !s.threads[i].called && s.threads[i].bucket < |s.buckets|
    requires s.slot == Some(s.threads[i].bucket)
    requires left > 0 && Open(s.buckets[s.threads[i].bucket], s.clock, |s.threads|, granted, left)
    ensures Open(b', s.clock, |s.threads|, granted + left, 0)
    ensures Reaches(s, steps, s.(buckets := s.buckets[s.threads[i].bucket := b'], threads := s.threads[i := Idle]))
    decreases left
  {
    var k := s.threads[i].bucket;
    steps, b' := CallAlone(s, i, granted, left);
    if left > 1 {
      var s' := s.(buckets := s.buckets[k := b'], threads := s.threads[i := Idle]);
      steps := Then(s, steps, s', Look(i));
      var s'' := Next(s', Look(i), 0);
      var rest, b'' := DrainStored(s'', i, granted + 1, left - 1);
      var e := s.(buckets := s.buckets[k := b''], threads := s.threads[i := Idle]);
      assert s''.buckets[k := b''] == e.buckets && s''.threads[i := Idle] == e.threads;
      Compose(s, steps, s'', rest, e);
      steps, b' := steps + rest, b'';
    }
  }

  /** The first `k` threads have missed. */
  function Front(n: nat, k: nat, clock: nat): seq<Pc> {
    seq(n, i => if i < k then Missed(clock) else Idle)
  }

  lemma {:induction false} AllMiss(s: State, k: nat) returns (steps: seq<Step>)
    requires k <= |s.threads| && s.threads == Front(|s.threads|, 0, s.clock) && s.slot.None?
    ensures Reaches(s, steps, s.(threads := Front(|s.threads|, k, s.clock)))
    decreases k
  {
    steps := [];
    if k > 0 {
      var n := |s.threads|;
      steps := AllMiss(s, k - 1);
      var m := s.(threads := Front(n, k - 1, s.clock));
      assert Next(m, Look(k - 1), 0).threads == Front(n, k, s.clock);
      steps := Then(s, steps, m, Look(k - 1));
    }
  }

  /** One after the other the threads insert their buckets and drain them. */
  lemma {:induction false} InstallAndDrain(s: State, k: nat) returns (steps: seq<Step>, e: State)
    requires k <= |s.threads| && s.threads == Front(|s.threads|, k, s.clock) && s.max > 0
    ensures Reaches(s, steps, e) && e.clock == s.clock
    ensures |e.buckets| == |s.buckets| + k && Grants(e.buckets) == Grants(s.buckets) + Shares(k, s.max)
    decreases k
  {
    if k == 0 {
      return [], s;
    }
    var i, n, install := k - 1, |s.threads|, Install(k - 1, s.clock);
    var s' := Next(s, install, 0);
    steps := Then(s, [], s, install);
    assert Open(s'.buckets[|s.buckets|], s.clock, n, 0, s.max);
    var drain, b' := DrainStored(s', i, 0, s.max);
    var m := s'.(buckets := s'.buckets[|s.buckets| := b'], threads := s'.threads[i := Idle]);
    Compose(s, steps, s', drain, m);
    assert m.threads == Front(n, i, s.clock) && m.buckets == s.buckets + [b'] && m.buckets[..|s.buckets|] == s.buckets;
    var rest;
    rest, e := InstallAndDrain(m, i);
    Compose(s, steps + drain, m, rest, e);
    steps := steps + drain + rest;
    assert k * s.max == s.max + i * s.max;
  }

  /** If all `n` threads look before the first of them inserts, each of them creates its own full bucket;
      and if each drains its bucket before the next inserts, `n` times the limit is granted at one clock
      reading. */
  lemma NameBudgetIsSharp(max: nat, start: nat, n: nat) returns (steps: seq<Step>)
    requires max > 0
    ensures Runs(Initial(max, start, n), steps, 0)
    ensures var e := End(Initial(max, start, n), steps, 0);
            && e.clock == start && |e.buckets| == n
            && Grants(e.buckets) == n * max == Shares(n, B.Share(max, n, e.clock - start, 0))
  {
    var s := Initial(max, start, n);
    assert s.threads == Front(n, 0, start);
    var miss := AllMiss(s, n);
    var m := s.(threads := Front(n, n, start));
    var drain, e := InstallAndDrain(m, n);
    Compose(s, miss, m, drain, e);
    steps := miss + drain;
    assert B.Share(max, n, 0, 0) == max;
  }
}
