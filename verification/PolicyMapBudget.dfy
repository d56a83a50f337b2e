/** The budget of one policy name over time, when racing threads replace each other's buckets: only the stored
    bucket serves new calls, and a replaced one at most the calls that hold it. */
module PolicyMapBudget {
  import opened Basics
  import opened Wrappers
  import opened RateLimiting
  import opened PolicyMapRace

  // ---------------------------------------------------------------- the stored bucket

  ghost predicate Uses(b: B.State, max: nat, born: nat, at: nat, n: nat, steps: seq<B.Step>, d: nat) {
    B.TimedRun(Made(max, born, n, at), steps, d) && B.Runs(Made(max, born, n, at), steps)
    && B.End(Made(max, born, n, at), steps) == b
  }

  /** The bucket was inserted at `at`, at most `d` seconds after it was made, and used for a while. */
  ghost predicate InsertedAt(b: B.State, max: nat, at: nat, n: nat, d: nat) {
    exists born: nat, steps :: born <= at <= born + d && Uses(b, max, born, at, n, steps, d)
  }

  lemma InsertedStep(b: B.State, step: B.Step, max: nat, at: nat, n: nat, d: nat)
    requires InsertedAt(b, max, at, n, d) && B.Enabled(b, step) && B.Timed(b, step, d)
    ensures InsertedAt(B.Next(b, step), max, at, n, d)
  {
    var born: nat, steps :| born <= at <= born + d && Uses(b, max, born, at, n, steps, d);
    B.TimedAppend(Made(max, born, n, at), steps, step, d);
    assert Uses(B.Next(b, step), max, born, at, n, steps + [step], d);
  }

  lemma InsertedNow(max: nat, born: nat, at: nat, n: nat, d: nat)
    requires born <= at <= born + d
    ensures InsertedAt(Made(max, born, n, at), max, at, n, d)
  {
    assert Uses(Made(max, born, n, at), max, born, at, n, [], d);
  }

  lemma InsertedBudget(b: B.State, max: nat, at: nat, n: nat, d: nat)
    requires d < WINDOW && InsertedAt(b, max, at, n, d)
    ensures at <= b.clock && b.grants <= B.Share(max, n, b.clock - at, d)
  {
    var born: nat, steps :| born <= at <= born + d && Uses(b, max, born, at, n, steps, d);
    B.BudgetSince(max, born, at, n, steps, d);
  }

  // ---------------------------------------------------------------- the replaced buckets

  /** The thread holds a replaced bucket, and its call may still be granted. */
  predicate IsLate(s: State, i: nat)
    requires i < |s.threads|
  {
    var pc := s.threads[i];
    pc.Holding? && pc.bucket + 1 < |s.buckets|
    && (!pc.called || i >= |s.buckets[pc.bucket].threads| || !s.buckets[pc.bucket].threads[i].Idle?)
  }

  ghost function Late(s: State): set<nat> {
    set i: nat | i < |s.threads| && IsLate(s, i)
  }

  function Others(n: nat): nat {
    if n == 0 then 0 else n - 1
  }

  /** The tokens of the refills that `n` threads fit into `x` seconds. */
  function Refilled(max: nat, n: nat, x: nat, d: nat): nat
    requires d < WINDOW
  {
    max * (n * B.Windows(x, WINDOW - d))
  }

  lemma RefilledAdd(max: nat, n: nat, x: nat, y: nat, d: nat)
    requires d < WINDOW
    ensures Refilled(max, n, x, d) + Refilled(max, n, y, d) <= Refilled(max, n, x + y, d)
  {
    var wx, wy := B.Windows(x, WINDOW - d), B.Windows(y, WINDOW - d);
    B.WindowsAdd(x, y, WINDOW - d);
    Products(max, n, wx, wy, B.Windows(x + y, WINDOW - d));
  }

  lemma Products(max: nat, n: nat, wx: nat, wy: nat, w: nat)
    requires wx + wy <= w
    ensures max * (n * wx) + max * (n * wy) <= max * (n * w)
  {
    MulMonotone(n, wx + wy, w);
    MulMonotone(max, n * (wx + wy), n * w);
    Distribute(n, wx, wy);
    Distribute(max, n * wx, n * wy);
  }

  lemma Distribute(a: nat, b: nat, c: nat)
    ensures a * (b + c) == a * b + a * c
  {
  }

  lemma ShareIsRefilled(max: nat, n: nat, x: nat, d: nat)
    requires d < WINDOW
    ensures B.Share(max, n, x, d) == max + Refilled(max, n, x, d)
  {
    Distribute(max, 1, n * B.Windows(x, WINDOW - d));
  }

  /** The first tokens of `j` replaced buckets, and one grant from each to every other thread. */
  function Leftovers(j: nat, max: nat, n: nat): nat {
    j * (max + Others(n))
  }

  lemma LeftoversStep(j: nat, max: nat, n: nat)
    ensures Leftovers(j, max, n) + max + Others(n) == Leftovers(j + 1, max, n)
  {
  }

  /** What `j` replaced buckets may have granted by the last replacement, and afterwards. */
  function Past(j: nat, max: nat, n: nat, x: nat, d: nat): nat
    requires d < WINDOW
  {
    Leftovers(j, max, n) + Refilled(max, n, x, d)
  }

  lemma PastStep(j: nat, max: nat, n: nat, x: nat, y: nat, d: nat)
    requires d < WINDOW
    ensures Past(j, max, n, x, d) + B.Share(max, n, y, d) + Others(n) <= Past(j + 1, max, n, x + y, d)
  {
    RefilledAdd(max, n, x, y, d);
    ShareIsRefilled(max, n, y, d);
    LeftoversStep(j, max, n);
  }

  ghost predicate WellFormed(s: State) {
    && s.slot == (if s.buckets == [] then None else Some(|s.buckets| - 1))
    && (forall i | 0 <= i < |s.threads| && s.threads[i].Holding? :: s.threads[i].bucket < |s.buckets|)
  }

  /** What has been granted, and may still be, by the buckets that are replaced; and where the stored one is. */
  ghost predicate Budgeted(s: State, start: nat, d: nat)
    requires d < WINDOW
  {
    && WellFormed(s) && start <= s.since <= s.clock
    && (s.buckets != [] ==>
         var last := |s.buckets| - 1;
         && InsertedAt(s.buckets[last], s.max, s.since, |s.threads|, d) && s.buckets[last].clock == s.clock
         && Grants(s.buckets[..last]) + |Late(s)| <= Past(last, s.max, |s.threads|, s.since - start, d))
  }

  lemma {:induction false} GrantsOfUpdate(buckets: seq<B.State>, k: nat, b: B.State)
    requires k < |buckets|
    ensures Grants(buckets[k := b]) == Grants(buckets) - buckets[k].grants + b.grants
    decreases |buckets|
  {
    var last := |buckets| - 1;
    if k == last {
      assert buckets[k := b][..last] == buckets[..last];
    } else {
      GrantsOfUpdate(buckets[..last], k, b);
      assert buckets[k := b][..last] == buckets[..last][k := b];
    }
  }

  lemma {:induction false} GrantsOfTick(xs: seq<B.State>, ys: seq<B.State>)
    requires |xs| == |ys| && forall k | 0 <= k < |xs| :: xs[k].grants == ys[k].grants
    ensures Grants(xs) == Grants(ys)
    decreases |xs|
  {
    if xs != [] {
      GrantsOfTick(xs[..|xs| - 1], ys[..|ys| - 1]);
    }
  }

  lemma TickBudgeted(s: State, now: nat, start: nat, d: nat)
    requires d < WINDOW && Budgeted(s, start, d) && s.clock <= now
    ensures Budgeted(Next(s, Tick(now), d), start, d)
  {
    var s' := Next(s, Tick(now), d);
    if s.buckets != [] {
      var last := |s.buckets| - 1;
      InsertedStep(s.buckets[last], B.Tick(now), s.max, s.since, |s.threads|, d);
      GrantsOfTick(s'.buckets[..last], s.buckets[..last]);
      assert Late(s') == Late(s);
    }
  }

  lemma LookBudgeted(s: State, i: nat, start: nat, d: nat)
    requires d < WINDOW && Budgeted(s, start, d) && Enabled(s, Look(i), d)
    ensures Budgeted(Next(s, Look(i), d), start, d)
  {
    assert Late(Next(s, Look(i), d)) == Late(s);
  }

  lemma ReturnBudgeted(s: State, i: nat, start: nat, d: nat)
    requires d < WINDOW && Budgeted(s, start, d) && Enabled(s, Return(i), d)
    ensures Budgeted(Next(s, Return(i), d), start, d)
  {
    assert Late(Next(s, Return(i), d)) == Late(s);
  }

  lemma LateAfterInstall(s: State, i: nat, born: nat, d: nat)
    requires WellFormed(s) && Enabled(s, Install(i, born), d)
    ensures |Late(Next(s, Install(i, born), d))| <= |Late(s)| + Others(|s.threads|)
    ensures s.buckets == [] ==> Late(Next(s, Install(i, born), d)) == {}
  {
    var late, others := Late(Next(s, Install(i, born), d)), B.Indices(|s.threads|) - {i};
    assert |others| == |s.threads| - 1;
    assert late <= Late(s) + others;
    SubsetSize(late, Late(s) + others);
  }

  lemma InstallBudgeted(s: State, i: nat, born: nat, start: nat, d: nat)
    requires d < WINDOW && Budgeted(s, start, d) && Enabled(s, Install(i, born), d) && s.clock <= born + d
    ensures Budgeted(Next(s, Install(i, born), d), start, d)
  {
    var s', n, last := Next(s, Install(i, born), d), |s.threads|, |s.buckets| - 1;
    InsertedNow(s.max, born, s.clock, n, d);
    LateAfterInstall(s, i, born, d);
    assert s'.buckets[..|s.buckets|] == s.buckets;
    if s.buckets != [] {
      InsertedBudget(s.buckets[last], s.max, s.since, n, d);
      PastStep(last, s.max, n, s.since - start, s.clock - s.since, d);
    }
  }

  /** A step of a call keeps the threads that may still be granted, but for one that has just been. */
  lemma LateAfterInside(s: State, i: nat, step: B.Step, d: nat)
    requires WellFormed(s) && InsideEnabled(s, i, step, d)
    ensures Late(Next(s, Inside(i, step), d)) <= if step.Swap? then Late(s) - {i} else Late(s)
    ensures s.threads[i].bucket + 1 < |s.buckets| ==> i in Late(s)
  {
  }

  lemma InsideStored(s: State, i: nat, step: B.Step, start: nat, d: nat)
    requires d < WINDOW && Budgeted(s, start, d) && InsideEnabled(s, i, step, d)
    requires s.threads[i].bucket == |s.buckets| - 1
    ensures Budgeted(Next(s, Inside(i, step), d), start, d)
  {
    var s', last := Next(s, Inside(i, step), d), |s.buckets| - 1;
    InsertedStep(s.buckets[last], step, s.max, s.since, |s.threads|, d);
    assert s'.buckets[..last] == s.buckets[..last];
    LateAfterInside(s, i, step, d);
    SubsetSize(Late(s'), Late(s));
  }

  lemma InsideReplaced(s: State, i: nat, step: B.Step, start: nat, d: nat)
    requires d < WINDOW && Budgeted(s, start, d) && InsideEnabled(s, i, step, d)
    requires s.threads[i].bucket < |s.buckets| - 1
    ensures Budgeted(Next(s, Inside(i, step), d), start, d)
  {
    var s', last, k := Next(s, Inside(i, step), d), |s.buckets| - 1, s.threads[i].bucket;
    var b := B.Next(s.buckets[k], step);
    assert s'.buckets[..last] == s.buckets[..last][k := b];
    GrantsOfUpdate(s.buckets[..last], k, b);
    LateAfterInside(s, i, step, d);
    SubsetSize(Late(s'), if step.Swap? then Late(s) - {i} else Late(s));
    assert b.grants == s.buckets[k].grants + if step.Swap? then 1 else 0;
  }

  lemma InsideBudgeted(s: State, i: nat, step: B.Step, start: nat, d: nat)
    requires d < WINDOW && Budgeted(s, start, d) && InsideEnabled(s, i, step, d)
    ensures Budgeted(Next(s, Inside(i, step), d), start, d)
  {
    if s.threads[i].bucket == |s.buckets| - 1 {
      InsideStored(s, i, step, start, d);
    } else {
      InsideReplaced(s, i, step, start, d);
    }
  }

  /** Insertions, like stores, come at most `d` seconds after the clock reading of their call. */
  ghost predicate Prompt(s: State, steps: seq<Step>, d: nat)
    requires Runs(s, steps, d)
    decreases |steps|
  {
    steps == []
    || ((steps[0].Install? ==> s.clock <= steps[0].born + d) && Prompt(Next(s, steps[0], d), steps[1..], d))
  }

  lemma {:induction false} RunBudgeted(s: State, steps: seq<Step>, start: nat, d: nat)
    requires d < WINDOW && Budgeted(s, start, d) && Runs(s, steps, d) && Prompt(s, steps, d)
    ensures Budgeted(End(s, steps, d), start, d)
    decreases |steps|
  {
    if steps != [] {
      match steps[0] {
        case Tick(now) => TickBudgeted(s, now, start, d);
        case Look(i) => LookBudgeted(s, i, start, d);
        case Install(i, born) => InstallBudgeted(s, i, born, start, d);
        case Inside(i, inner) => InsideBudgeted(s, i, inner, start, d);
        case Return(i) => ReturnBudgeted(s, i, start, d);
      }
      RunBudgeted(Next(s, steps[0], d), steps[1..], start, d);
    }
  }

  /** One bucket for each thread, one for each thread and window, and a call of each other thread for every
      replaced bucket. */
  function BudgetOverTime(max: nat, n: nat, x: nat, d: nat): nat
    requires d < WINDOW
  {
    max * (n + n * B.Windows(x, WINDOW - d)) + Others(n) * Others(n)
  }

  lemma LeftoversWithin(j: nat, max: nat, n: nat)
    requires 0 < j <= n
    ensures Leftovers(j, max, n) <= max * n + Others(n) * Others(n) + Others(n)
  {
    MulMonotone(max + Others(n), j, n);
    Distribute(n, max, Others(n));
    Distribute(Others(n), Others(n), 1);
  }

  lemma PastWithin(j: nat, max: nat, n: nat, x: nat, d: nat)
    requires d < WINDOW && 0 < j <= n
    ensures Past(j, max, n, x, d) <= BudgetOverTime(max, n, x, d) + Others(n)
  {
    LeftoversWithin(j, max, n);
    Distribute(max, n, n * B.Windows(x, WINDOW - d));
  }

  /** What `n` racing threads can be granted over time for one name with a steady limit: one bucket for each
      thread and one for each thread and window, as if all shared a single bucket from then on, and at most
      one call of each other thread for every replaced bucket. */
  lemma NameBudgetOverTime(max: nat, start: nat, n: nat, steps: seq<Step>, d: nat)
    requires d < WINDOW && Runs(Initial(max, start, n), steps, d) && Prompt(Initial(max, start, n), steps, d)
    ensures var e := End(Initial(max, start, n), steps, d);
            && start <= e.clock
            && Grants(e.buckets) <= BudgetOverTime(max, n, e.clock - start, d)
  {
    var s := Initial(max, start, n);
    var e := End(s, steps, d);
    RunBudgeted(s, steps, start, d);
    BucketsPerName(max, start, n, steps, d);
    RunShape(s, steps, d);
    if e.buckets != [] {
      var last := |e.buckets| - 1;
      InsertedBudget(e.buckets[last], max, e.since, n, d);
      PastStep(last, max, n, e.since - start, e.clock - e.since, d);
      PastWithin(last + 1, max, n, e.clock - start, d);
    }
  }

  lemma {:induction false} RunShape(s: State, steps: seq<Step>, d: nat)
    requires Runs(s, steps, d)
    ensures |End(s, steps, d).threads| == |s.threads| && End(s, steps, d).max == s.max
    decreases |steps|
  {
    if steps != [] {
      RunShape(Next(s, steps[0], d), steps[1..], d);
    }
  }
}
