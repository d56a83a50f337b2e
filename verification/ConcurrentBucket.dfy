/** The token bucket of src/rate_limiter.rs shared by any number of threads: every atomic
    operation of `TokenBucket::allow` is one step, and steps interleave freely. */
module ConcurrentBucket {
  import opened Basics
  import opened RateLimiting

  /** Where a thread stands inside `allow`. */
  datatype Pc =
    | Idle
    | Clocked(now: nat)    // has read the clock, will load `last_reset`
    | Resetting(now: nat)  // saw sixty seconds elapsed, will store `last_reset`
    | Refilling            // has stored `last_reset`, will store `tokens`
    | Loading              // will load `tokens`
    | Swapping(seen: nat)  // saw `seen > 0` tokens, will compare and swap

  /** The shared cells, the threads, and counters of what has happened so far: grants, stores to
      each cell, and grants since the last store to `tokens`. */
  datatype State = State(
    max: nat, clock: nat, lastReset: nat, tokens: nat, threads: seq<Pc>,
    grants: nat, resetStores: nat, tokenStores: nat, sinceStore: nat)

  /** `value` and `actual` are what a load, or a failed swap, returns. */
  datatype Step =
    | Tick(now: nat)
    | ReadClock(i: nat, now: nat)
    | LoadReset(i: nat, value: nat)
    | StoreReset(i: nat)
    | StoreTokens(i: nat)
    | LoadTokens(i: nat, value: nat)
    | Swap(i: nat)
    | SwapFails(i: nat, actual: nat)

  function Initial(max: nat, start: nat, n: nat): State {
    State(max, start, start, max, seq(n, _ => Idle), 0, 0, 0, 0)
  }

  /** Any thread may take its next step. A load and a failed swap may return any value whatever,
      however stale, and a swap may fail spuriously; only a successful swap sees the current value. */
  predicate Enabled(s: State, step: Step) {
    match step
    case Tick(_) => true
    case ReadClock(i, _) => i < |s.threads| && s.threads[i].Idle?
    case LoadReset(i, _) => i < |s.threads| && s.threads[i].Clocked?
    case StoreReset(i) => i < |s.threads| && s.threads[i].Resetting?
    case StoreTokens(i) => i < |s.threads| && s.threads[i].Refilling?
    case LoadTokens(i, _) => i < |s.threads| && s.threads[i].Loading?
    case Swap(i) => i < |s.threads| && s.threads[i].Swapping? && s.threads[i].seen == s.tokens
    case SwapFails(i, _) => i < |s.threads| && s.threads[i].Swapping?
  }

  /** The test at the head of the swap loop. */
  function Seen(value: nat): Pc {
    if value > 0 then Swapping(value) else Idle
  }

  function Next(s: State, step: Step): State
    requires Enabled(s, step)
  {
    match step
    case Tick(now) => s.(clock := now)
    case ReadClock(i, now) => s.(threads := s.threads[i := Clocked(now)])
    case LoadReset(i, value) =>
      var now := s.threads[i].now;
      s.(threads := s.threads[i := if SaturatingSub(now, value) >= WINDOW then Resetting(now) else Loading])
    case StoreReset(i) =>
      s.(lastReset := s.threads[i].now, threads := s.threads[i := Refilling], resetStores := s.resetStores + 1)
    case StoreTokens(i) =>
      s.(tokens := s.max, threads := s.threads[i := Loading], tokenStores := s.tokenStores + 1, sinceStore := 0)
    case LoadTokens(i, value) => s.(threads := s.threads[i := Seen(value)])
    case Swap(i) =>
      var seen := s.threads[i].seen;
      s.(tokens := if seen > 0 then seen - 1 else 0, threads := s.threads[i := Idle],
         grants := s.grants + 1, sinceStore := s.sinceStore + 1)
    case SwapFails(i, actual) => s.(threads := s.threads[i := Seen(actual)])
  }

  ghost predicate Runs(s: State, steps: seq<Step>)
    decreases |steps|
  {
    steps == [] || (Enabled(s, steps[0]) && Runs(Next(s, steps[0]), steps[1..]))
  }

  ghost function End(s: State, steps: seq<Step>): State
    requires Runs(s, steps)
    decreases |steps|
  {
    if steps == [] then s else End(Next(s, steps[0]), steps[1..])
  }

  // ---------------------------------------------------------------- conservation

  ghost function Pending(threads: seq<Pc>): set<nat> {
    set i: nat | i < |threads| && threads[i].Refilling?
  }

  ghost predicate Conserves(s: State) {
    && (forall i | 0 <= i < |s.threads| && s.threads[i].Swapping? :: s.threads[i].seen > 0)
    && s.tokens + s.sinceStore == s.max
    && s.grants + s.tokens <= s.max * (1 + s.tokenStores)
    && s.resetStores == s.tokenStores + |Pending(s.threads)|
  }

  lemma StepCountsPending(s: State, step: Step)
    requires Enabled(s, step)
    ensures Next(s, step).resetStores - Next(s, step).tokenStores - |Pending(Next(s, step).threads)|
         == s.resetStores - s.tokenStores - |Pending(s.threads)|
  {
    if !step.Tick? {
      PendingUpdate(s.threads, step.i, Next(s, step).threads[step.i]);
    }
  }

  lemma PendingUpdate(threads: seq<Pc>, i: nat, pc: Pc)
    requires i < |threads|
    ensures |Pending(threads[i := pc])|
         == |Pending(threads)| - (if threads[i].Refilling? then 1 else 0) + (if pc.Refilling? then 1 else 0)
  {
    var before, after := Pending(threads), Pending(threads[i := pc]);
    var others := before - {i};
    assert after - {i} == others;
    assert before == if threads[i].Refilling? then others + {i} else others;
    assert after == if pc.Refilling? then others + {i} else others;
  }

  lemma StepConserves(s: State, step: Step)
    requires Enabled(s, step) && Conserves(s)
    ensures Conserves(Next(s, step)) && Next(s, step).max == s.max && |Next(s, step).threads| == |s.threads|
  {
    StepCountsPending(s, step);
    if step.StoreTokens? {
      assert s.max * (2 + s.tokenStores) == s.max * (1 + s.tokenStores) + s.max;
    }
  }

  lemma {:induction false} RunConserves(s: State, steps: seq<Step>)
    requires Runs(s, steps) && Conserves(s)
    ensures Conserves(End(s, steps)) && End(s, steps).max == s.max && |End(s, steps).threads| == |s.threads|
    decreases |steps|
  {
    if steps != [] {
      StepConserves(s, steps[0]);
      RunConserves(Next(s, steps[0]), steps[1..]);
    }
  }

  lemma InitialConserves(max: nat, start: nat, n: nat)
    ensures Conserves(Initial(max, start, n))
  {
    assert Pending(Initial(max, start, n).threads) == {};
  }

  /** In every interleaving the tokens left and the grants since the last store to `tokens` make up
      the configured maximum, so the count neither underflows nor exceeds it; and no more is ever
      granted than one full bucket for the start and one for each refill begun. */
  lemma Conservation(max: nat, start: nat, n: nat, steps: seq<Step>)
    requires Runs(Initial(max, start, n), steps)
    ensures var s := End(Initial(max, start, n), steps);
            && s.tokens + s.sinceStore == max
            && s.tokenStores <= s.resetStores
            && s.grants <= max * (1 + s.tokenStores)
  {
    InitialConserves(max, start, n);
    RunConserves(Initial(max, start, n), steps);
  }

  // ---------------------------------------------------------------- runs with a clock

  /** Sequentially consistent loads of `last_reset`, a clock that never goes back, and at most
      `d` seconds between a call's clock reading and its store to `last_reset`. */
  predicate Timed(s: State, step: Step, d: nat)
    requires Enabled(s, step)
  {
    match step
    case Tick(now) => s.clock <= now
    case ReadClock(_, now) => now == s.clock
    case LoadReset(_, value) => value == s.lastReset
    case StoreReset(i) => s.clock <= s.threads[i].now + d
    case _ => true
  }

  ghost predicate TimedRun(s: State, steps: seq<Step>, d: nat)
    decreases |steps|
  {
    steps == []
    || (Enabled(s, steps[0]) && Timed(s, steps[0], d) && TimedRun(Next(s, steps[0]), steps[1..], d))
  }

  lemma {:induction false} TimedRunsRun(s: State, steps: seq<Step>, d: nat)
    requires TimedRun(s, steps, d)
    ensures Runs(s, steps) && s.clock <= End(s, steps).clock
    decreases |steps|
  {
    if steps != [] {
      TimedRunsRun(Next(s, steps[0]), steps[1..], d);
    }
  }

  lemma {:induction false} TimedAppend(s: State, steps: seq<Step>, step: Step, d: nat)
    requires TimedRun(s, steps, d) && Runs(s, steps)
    requires Enabled(End(s, steps), step) && Timed(End(s, steps), step, d)
    ensures TimedRun(s, steps + [step], d) && Runs(s, steps + [step])
    ensures End(s, steps + [step]) == Next(End(s, steps), step)
    decreases |steps|
  {
    if steps == [] {
      assert [step][1..] == [] && steps + [step] == [step];
    } else {
      assert (steps + [step])[1..] == steps[1..] + [step];
      TimedAppend(Next(s, steps[0]), steps[1..], step, d);
    }
  }

  function Indices(n: nat): (r: set<nat>)
    ensures |r| == n && forall i: nat :: i in r <==> i < n
  {
    if n == 0 then {} else Indices(n - 1) + {n - 1}
  }

  /** How many windows of `w` seconds have passed in `x` seconds. */
  function Windows(x: nat, w: nat): (r: nat)
    requires w > 0
    ensures r * w <= x < (r + 1) * w
  {
    if x < w then 0 else 1 + Windows(x - w, w)
  }

  /** A window opened at clock `a`: everything stored to `last_reset` since is at most `d` seconds
      behind `a`, so for `60 - d` seconds only the threads in `late` can still reset it. */
  ghost predicate WindowOpen(s: State, a: nat, d: nat, late: set<nat>) {
    && a <= s.clock && a <= s.lastReset + d
    && (forall i | 0 <= i < |s.threads| :: s.threads[i].Clocked? || s.threads[i].Resetting? ==> s.threads[i].now <= s.clock)
    && (s.clock + d < a + WINDOW ==>
          forall i: nat | i < |s.threads| && i !in late :: !s.threads[i].Resetting?)
  }

  lemma StepKeepsWindow(s: State, step: Step, a: nat, d: nat, late: set<nat>)
    requires Enabled(s, step) && Timed(s, step, d) && WindowOpen(s, a, d, late)
    ensures WindowOpen(Next(s, step), a, d, if step.StoreReset? then late - {step.i} else late)
    ensures step.StoreReset? && s.clock + d < a + WINDOW ==> step.i in late
    ensures step.StoreReset? ==> WindowOpen(Next(s, step), s.clock, d, Indices(|s.threads|) - {step.i})
  {
  }

  /** The resets that `n` threads fit into the windows of `x` seconds. */
  function Room(n: nat, x: nat, w: nat): nat
    requires w > 0
  {
    n * Windows(x, w)
  }

  /** A new window pays for one reset by each thread. */
  lemma NewWindowPaid(n: nat, w: nat, a: nat, c: nat, t: nat)
    requires w > 0 && a + w <= c <= t
    ensures n + Room(n, t - c, w) <= Room(n, t - a, w)
  {
    WindowsMonotone(t - c, t - a - w, w);
    assert n + n * Windows(t - c, w) == n * (1 + Windows(t - c, w));
    MulMonotone(n, 1 + Windows(t - c, w), Windows(t - a, w));
  }

  lemma {:induction false} WindowsMonotone(x: nat, y: nat, w: nat)
    requires w > 0 && x <= y
    ensures Windows(x, w) <= Windows(y, w)
    decreases y
  {
    if x >= w {
      WindowsMonotone(x - w, y - w, w);
    }
  }

  lemma {:induction false} WindowsAdd(x: nat, y: nat, w: nat)
    requires w > 0
    ensures Windows(x, w) + Windows(y, w) <= Windows(x + y, w)
    decreases x
  {
    if x >= w {
      WindowsAdd(x - w, y, w);
    } else {
      WindowsMonotone(y, x + y, w);
    }
  }

  lemma StepCountsResets(s: State, step: Step, d: nat)
    requires Enabled(s, step) && Timed(s, step, d)
    ensures Next(s, step).resetStores == s.resetStores + (if step.StoreReset? then 1 else 0)
    ensures |Next(s, step).threads| == |s.threads| && Next(s, step).clock >= s.clock
    ensures step.StoreReset? ==> step.i in Indices(|s.threads|)
  {
  }

  lemma {:induction false} ResetsWithinWindows(s: State, steps: seq<Step>, a: nat, d: nat, late: set<nat>, t: nat)
    requires d < WINDOW && TimedRun(s, steps, d) && Runs(s, steps) && End(s, steps).clock <= t
    requires WindowOpen(s, a, d, late) && s.clock <= t
    ensures End(s, steps).resetStores - s.resetStores <= |late| + Room(|s.threads|, t - a, WINDOW - d)
    decreases |steps|
  {
    var n, w := |s.threads|, WINDOW - d;
    if steps == [] {
      return;
    }
    var step, rest := steps[0], steps[1..];
    var s' := Next(s, step);
    TimedRunsRun(s', rest, d);
    StepCountsResets(s, step, d);
    StepKeepsWindow(s, step, a, d, late);
    if step.StoreReset? && s.clock >= a + w {
      var others := Indices(n) - {step.i};
      assert |others| == n - 1;
      ResetsWithinWindows(s', rest, s.clock, d, others, t);
      NewWindowPaid(n, w, a, s.clock, t);
    } else if step.StoreReset? {
      var others := late - {step.i};
      assert |others| == |late| - 1;
      ResetsWithinWindows(s', rest, a, d, others, t);
    } else {
      ResetsWithinWindows(s', rest, a, d, late, t);
    }
  }

  /** Grants after a state are paid by its tokens and by the refills that follow. */
  lemma {:induction false} GrantsPaid(s: State, steps: seq<Step>)
    requires Runs(s, steps) && Conserves(s)
    ensures End(s, steps).tokenStores >= s.tokenStores
    ensures End(s, steps).grants + End(s, steps).tokens
         <= s.grants + s.tokens + s.max * (End(s, steps).tokenStores - s.tokenStores)
    decreases |steps|
  {
    if steps != [] {
      var s' := Next(s, steps[0]);
      StepConserves(s, steps[0]);
      GrantsPaid(s', steps[1..]);
      if steps[0].StoreTokens? {
        var k := End(s, steps).tokenStores - s'.tokenStores;
        assert s.max + s.max * k == s.max * (1 + k);
      }
    }
  }

  /** Calls that have read the clock but not yet stored `last_reset`. */
  ghost function InFlight(s: State): set<nat> {
    set i: nat | i < |s.threads| && (s.threads[i].Clocked? || s.threads[i].Resetting?)
  }

  ghost predicate ClockBounds(s: State) {
    forall i | 0 <= i < |s.threads| :: s.threads[i].Clocked? || s.threads[i].Resetting? ==> s.threads[i].now <= s.clock
  }

  lemma InFlightOrPending(s: State)
    ensures |InFlight(s)| + |Pending(s.threads)| <= |s.threads|
  {
    assert InFlight(s) + Pending(s.threads) <= Indices(|s.threads|) && InFlight(s) * Pending(s.threads) == {};
    SubsetSize(InFlight(s) + Pending(s.threads), Indices(|s.threads|));
  }

  lemma SpentWithin(max: nat, tokens: nat, k: nat, n: nat)
    requires tokens <= max && k <= n
    ensures tokens + max * k <= max * (1 + n)
  {
    MulMonotone(max, k, n);
    assert max + max * n == max * (1 + n);
  }

  lemma RefillsAfter(s: State, i: nat, steps: seq<Step>, d: nat)
    requires d < WINDOW && Conserves(s) && ClockBounds(s)
    requires Enabled(s, StoreReset(i)) && Timed(s, StoreReset(i), d)
    requires var s' := Next(s, StoreReset(i)); TimedRun(s', steps, d) && Runs(s', steps)
    requires End(Next(s, StoreReset(i)), steps).clock + d < s.clock + WINDOW
    ensures var e := End(Next(s, StoreReset(i)), steps);
            && e.resetStores - s.resetStores <= |s.threads|
            && e.tokenStores - s.tokenStores <= |s.threads|
            && e.grants - s.grants <= s.max * (1 + |s.threads|)
  {
    var s', n, a := Next(s, StoreReset(i)), |s.threads|, s.clock;
    var e := End(s', steps);
    var late := InFlight(s');
    StepConserves(s, StoreReset(i));
    TimedRunsRun(s', steps, d);
    ResetsWithinWindows(s', steps, a, d, late, e.clock);
    InFlightOrPending(s');
    assert i in Pending(s'.threads);
    RunConserves(s', steps);
    GrantsPaid(s', steps);
    SpentWithin(s.max, s.tokens, e.tokenStores - s.tokenStores, n);
  }

  lemma {:induction false} TimedKeepsClockBounds(s: State, steps: seq<Step>, d: nat)
    requires TimedRun(s, steps, d) && Runs(s, steps) && ClockBounds(s)
    ensures ClockBounds(End(s, steps))
    decreases |steps|
  {
    if steps != [] {
      TimedKeepsClockBounds(Next(s, steps[0]), steps[1..], d);
    }
  }

  /** Right after a refill has stored `last_reset` at clock `a`, and until `60 - d` seconds later,
      only calls already in flight can refill too: at most one per thread, the first one included.
      So the grants of that window are bounded by the number of threads and the maximum. */
  lemma RefillsPerWindow(max: nat, start: nat, n: nat, before: seq<Step>, i: nat, after: seq<Step>, d: nat)
    requires d < WINDOW && TimedRun(Initial(max, start, n), before, d) && Runs(Initial(max, start, n), before)
    requires var s := End(Initial(max, start, n), before);
             && Enabled(s, StoreReset(i)) && Timed(s, StoreReset(i), d)
             && TimedRun(Next(s, StoreReset(i)), after, d) && Runs(Next(s, StoreReset(i)), after)
             && End(Next(s, StoreReset(i)), after).clock + d < s.clock + WINDOW
    ensures var s := End(Initial(max, start, n), before);
            var e := End(Next(s, StoreReset(i)), after);
            && e.resetStores - s.resetStores <= n
            && e.tokenStores - s.tokenStores <= n
            && e.grants - s.grants <= max * (1 + n)
  {
    var s0 := Initial(max, start, n);
    InitialConserves(max, start, n);
    RunConserves(s0, before);
    TimedKeepsClockBounds(s0, before, d);
    RefillsAfter(End(s0, before), i, after, d);
  }

  /** The budget of a whole run on `n` threads: if no call takes more than `d` seconds from its
      clock reading to its store, then up to clock `t` at most one full bucket for the start is
      granted and one per thread for every `60 - d` seconds. For one thread and `d == 0` this is the
      sequential budget. */
  lemma ConcurrentBudget(max: nat, start: nat, n: nat, steps: seq<Step>, d: nat)
    requires d < WINDOW && TimedRun(Initial(max, start, n), steps, d)
    ensures Runs(Initial(max, start, n), steps)
    ensures var e := End(Initial(max, start, n), steps);
            && e.clock >= start
            && e.tokenStores <= n * Windows(e.clock - start, WINDOW - d)
            && e.grants <= max * (1 + n * Windows(e.clock - start, WINDOW - d))
  {
    var s := Initial(max, start, n);
    TimedRunsRun(s, steps, d);
    var e := End(s, steps);
    ResetsWithinWindows(s, steps, start, d, {}, e.clock);
    Conservation(max, start, n, steps);
    MulMonotone(max, 1 + e.tokenStores, 1 + n * Windows(e.clock - start, WINDOW - d));
  }

  /** The same for a bucket that is used only from `at` on, at most `d` seconds after it was made. */
  lemma BudgetSince(max: nat, born: nat, at: nat, n: nat, steps: seq<Step>, d: nat)
    requires d < WINDOW && born <= at <= born + d
    requires TimedRun(Next(Initial(max, born, n), Tick(at)), steps, d)
    ensures Runs(Next(Initial(max, born, n), Tick(at)), steps)
    ensures var e := End(Next(Initial(max, born, n), Tick(at)), steps);
            at <= e.clock && e.grants <= max * (1 + n * Windows(e.clock - at, WINDOW - d))
  {
    var s := Next(Initial(max, born, n), Tick(at));
    TimedRunsRun(s, steps, d);
    var e := End(s, steps);
    InitialConserves(max, born, n);
    StepConserves(Initial(max, born, n), Tick(at));
    ResetsWithinWindows(s, steps, at, d, {}, e.clock);
    RunConserves(s, steps);
    MulMonotone(max, 1 + e.tokenStores, 1 + n * Windows(e.clock - at, WINDOW - d));
  }

  // ---------------------------------------------------------------- a bucket that is part of something larger

  ghost predicate History(b: State, max: nat, born: nat, n: nat, steps: seq<Step>, d: nat) {
    var made := Initial(max, born, n);
    TimedRun(made, steps, d) && Runs(made, steps) && End(made, steps) == b
  }

  /** The bucket was made no sooner than `start` and used for a while. */
  ghost predicate Grown(b: State, max: nat, start: nat, n: nat, d: nat) {
    exists born: nat, steps :: start <= born && History(b, max, born, n, steps, d)
  }

  lemma GrownStep(b: State, step: Step, max: nat, start: nat, n: nat, d: nat)
    requires Grown(b, max, start, n, d) && Enabled(b, step) && Timed(b, step, d)
    ensures Grown(Next(b, step), max, start, n, d)
  {
    var born: nat, steps :| start <= born && History(b, max, born, n, steps, d);
    TimedAppend(Initial(max, born, n), steps, step, d);
    assert History(Next(b, step), max, born, n, steps + [step], d);
  }

  /** What one bucket may grant in `x` seconds. */
  function Share(max: nat, n: nat, x: nat, d: nat): nat
    requires d < WINDOW
  {
    max * (1 + n * Windows(x, WINDOW - d))
  }

  lemma GrownBudget(b: State, max: nat, start: nat, n: nat, d: nat)
    requires d < WINDOW && Grown(b, max, start, n, d)
    ensures start <= b.clock && b.grants <= Share(max, n, b.clock - start, d)
  {
    var born: nat, steps :| start <= born && History(b, max, born, n, steps, d);
    ConcurrentBudget(max, born, n, steps, d);
    WindowsMonotone(b.clock - born, b.clock - start, WINDOW - d);
    var w := Windows(b.clock - born, WINDOW - d);
    MulMonotone(n, w, Windows(b.clock - start, WINDOW - d));
    MulMonotone(max, 1 + n * w, 1 + n * Windows(b.clock - start, WINDOW - d));
  }
}
