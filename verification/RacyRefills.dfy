/** The interleaved bucket against the sequential one: a call that runs alone is a sequential call,
    and the bound on racing calls is reached. */
module RacyRefills {
  import opened RateLimiting
  import opened ConcurrentBucket

  ghost predicate Reaches(s: State, steps: seq<Step>, e: State) {
    TimedRun(s, steps, 0) && Runs(s, steps) && End(s, steps) == e
  }

  lemma {:induction false} Compose(s: State, xs: seq<Step>, m: State, ys: seq<Step>, e: State)
    requires Reaches(s, xs, m) && Reaches(m, ys, e)
    ensures Reaches(s, xs + ys, e)
    decreases |xs|
  {
    if xs == [] {
      assert xs + ys == ys;
    } else {
      assert (xs + ys)[1..] == xs[1..] + ys;
      Compose(Next(s, xs[0]), xs[1..], m, ys, e);
    }
  }

  lemma OneStep(s: State, step: Step)
    requires Enabled(s, step) && Timed(s, step, 0)
    ensures Reaches(s, [step], Next(s, step))
  {
    assert [step][1..] == [];
  }

  lemma Then(s: State, xs: seq<Step>, m: State, step: Step) returns (ys: seq<Step>)
    requires Reaches(s, xs, m) && Enabled(m, step) && Timed(m, step, 0)
    ensures Reaches(s, ys, Next(m, step))
  {
    OneStep(m, step);
    Compose(s, xs, m, [step], Next(m, step));
    ys := xs + [step];
  }

  function BucketOf(s: State): Bucket {
    Bucket(s.max, s.lastReset, s.tokens)
  }

  // ---------------------------------------------------------------- a call that runs alone

  /** A further step of a call by thread `i` while no other thread writes: loads and failed swaps return
      the current values. Swaps may still fail spuriously. */
  predicate Alone(s: State, step: Step, i: nat) {
    !step.Tick? && step.i == i &&
    match step
    case ReadClock(_, _) => false
    case LoadReset(_, value) => value == s.lastReset
    case LoadTokens(_, value) => value == s.tokens
    case SwapFails(_, actual) => actual == s.tokens
    case _ => true
  }

  ghost predicate AloneRun(s: State, steps: seq<Step>, i: nat)
    decreases |steps|
  {
    steps == []
    || (Enabled(s, steps[0]) && Alone(s, steps[0], i) && AloneRun(Next(s, steps[0]), steps[1..], i))
  }

  function Drawn(b: Bucket): (Bucket, nat) {
    if b.tokens > 0 then (b.(tokens := b.tokens - 1), 1) else (b, 0)
  }

  /** What the call of thread `i` will leave in the bucket, and its grant. */
  function Outcome(s: State, i: nat): (Bucket, nat)
    requires i < |s.threads|
  {
    match s.threads[i]
    case Idle => (BucketOf(s), 0)
    case Clocked(now) => Drawn(Refill(BucketOf(s), now))
    case Resetting(now) => Drawn(Bucket(s.max, now, s.max))
    case Refilling => Drawn(BucketOf(s).(tokens := s.max))
    case _ => Drawn(BucketOf(s))
  }

  lemma {:induction false} AloneRest(s: State, steps: seq<Step>, i: nat)
    requires i < |s.threads| && AloneRun(s, steps, i)
    requires s.threads[i].Swapping? ==> s.threads[i].seen > 0
    ensures Runs(s, steps) && |End(s, steps).threads| == |s.threads|
    ensures var e := End(s, steps);
            && Outcome(e, i).0 == Outcome(s, i).0 && e.grants + Outcome(e, i).1 == s.grants + Outcome(s, i).1
            && e.threads == s.threads[i := e.threads[i]] && e.clock == s.clock
    decreases |steps|
  {
    if steps != [] {
      AloneRest(Next(s, steps[0]), steps[1..], i);
    }
  }

  /** A call that nobody interrupts, from its clock reading to its return: whatever swaps fail on the way,
      it does to the bucket what the sequential `Take` does, and is granted exactly when `Admits` says so. */
  lemma SoloCall(s: State, i: nat, now: nat, steps: seq<Step>)
    requires Enabled(s, ReadClock(i, now)) && AloneRun(Next(s, ReadClock(i, now)), steps, i)
    ensures Runs(s, [ReadClock(i, now)] + steps)
    ensures var e := End(s, [ReadClock(i, now)] + steps);
            |e.threads| == |s.threads| &&
            (e.threads[i].Idle? ==>
              && BucketOf(e) == Take(BucketOf(s), now)
              && e.grants == s.grants + (if Admits(BucketOf(s), now) then 1 else 0)
              && e.threads == s.threads && e.clock == s.clock)
  {
    assert ([ReadClock(i, now)] + steps)[1..] == steps;
    AloneRest(Next(s, ReadClock(i, now)), steps, i);
  }

  function StepsLeft(s: State, i: nat): nat
    requires i < |s.threads|
  {
    match s.threads[i]
    case Idle => 0
    case Clocked(_) => 5
    case Resetting(_) => 4
    case Refilling => 3
    case Loading => 2
    case Swapping(seen) => if seen == s.tokens then 1 else 2
  }

  function NextAlone(s: State, i: nat): Step
    requires i < |s.threads| && !s.threads[i].Idle?
  {
    match s.threads[i]
    case Clocked(_) => LoadReset(i, s.lastReset)
    case Resetting(_) => StoreReset(i)
    case Refilling => StoreTokens(i)
    case Loading => LoadTokens(i, s.tokens)
    case Swapping(seen) => if seen == s.tokens then Swap(i) else SwapFails(i, s.tokens)
  }

  lemma {:induction false} AloneEnds(s: State, i: nat) returns (steps: seq<Step>)
    requires i < |s.threads|
    requires s.threads[i].Clocked? || s.threads[i].Resetting? ==> s.threads[i].now == s.clock
    ensures AloneRun(s, steps, i) && TimedRun(s, steps, 0) && Runs(s, steps)
    ensures i < |End(s, steps).threads| && End(s, steps).threads[i].Idle?
    decreases StepsLeft(s, i)
  {
    steps := [];
    if !s.threads[i].Idle? {
      var step := NextAlone(s, i);
      var rest := AloneEnds(Next(s, step), i);
      steps := [step] + rest;
      assert steps[1..] == rest;
    }
  }

  /** And there is such a call for every idle thread. */
  lemma SoloCallEnds(s: State, i: nat) returns (steps: seq<Step>, e: State)
    requires i < |s.threads| && s.threads[i].Idle?
    ensures AloneRun(Next(s, ReadClock(i, s.clock)), steps, i)
    ensures Reaches(s, [ReadClock(i, s.clock)] + steps, e) && e.threads == s.threads && e.clock == s.clock
    ensures BucketOf(e) == Take(BucketOf(s), s.clock)
    ensures e.grants == s.grants + (if Admits(BucketOf(s), s.clock) then 1 else 0)
  {
    var first := ReadClock(i, s.clock);
    steps := AloneEnds(Next(s, first), i);
    SoloCall(s, i, s.clock, steps);
    assert ([first] + steps)[1..] == steps;
    e := End(s, [first] + steps);
  }

  // ---------------------------------------------------------------- racing calls

  /** One thread draws `k` tokens inside a window. */
  lemma {:induction false} Drain(s: State, i: nat, k: nat) returns (steps: seq<Step>, e: State)
    requires i < |s.threads| && s.threads[i].Idle? && k <= s.tokens
    requires s.lastReset <= s.clock < s.lastReset + WINDOW
    ensures Reaches(s, steps, e)
    ensures e.threads == s.threads && e.clock == s.clock && e.max == s.max
    ensures e.lastReset == s.lastReset && e.grants == s.grants + k
    decreases k
  {
    if k == 0 {
      steps, e := [], s;
    } else {
      var call, m := SoloCallEnds(s, i);
      var rest;
      rest, e := Drain(m, i, k - 1);
      steps := [ReadClock(i, s.clock)] + call;
      Compose(s, steps, m, rest, e);
      steps := steps + rest;
    }
  }

  /** The first `k` threads have seen that a refill is due and are about to store. */
  function Poised(n: nat, k: nat, now: nat): seq<Pc> {
    seq(n, i => if i < k then Resetting(now) else Idle)
  }

  lemma {:induction false} Poise(s: State, k: nat) returns (steps: seq<Step>)
    requires k <= |s.threads| && s.threads == Poised(|s.threads|, 0, s.clock)
    requires s.lastReset + WINDOW <= s.clock
    ensures Reaches(s, steps, s.(threads := Poised(|s.threads|, k, s.clock)))
    decreases k
  {
    var n := |s.threads|;
    if k == 0 {
      return [];
    }
    steps := Poise(s, k - 1);
    var m := s.(threads := Poised(n, k - 1, s.clock));
    steps := Then(s, steps, m, ReadClock(k - 1, s.clock));
    m := Next(m, ReadClock(k - 1, s.clock));
    steps := Then(s, steps, m, LoadReset(k - 1, s.lastReset));
    m := Next(m, LoadReset(k - 1, s.lastReset));
    assert m.threads == Poised(n, k, s.clock);
  }

  /** A poised thread refills the bucket and drains it. */
  lemma RefillAndDrain(s: State, i: nat) returns (steps: seq<Step>, e: State)
    requires i < |s.threads| && s.threads[i] == Resetting(s.clock) && s.max > 0
    ensures Reaches(s, steps, e) && e.threads == s.threads[i := Idle] && e.clock == s.clock && e.max == s.max
    ensures e.lastReset == s.clock && e.grants == s.grants + s.max
  {
    var call := AloneEnds(s, i);
    AloneRest(s, call, i);
    var m := End(s, call);
    var drained;
    drained, e := Drain(m, i, s.max - 1);
    Compose(s, call, m, drained, e);
    steps := call + drained;
  }

  /** One poised thread after the other does so. */
  lemma {:induction false} Race(s: State, k: nat) returns (steps: seq<Step>, e: State)
    requires k <= |s.threads| && s.threads == Poised(|s.threads|, k, s.clock) && s.max > 0
    ensures Reaches(s, steps, e) && e.clock == s.clock && e.grants == s.grants + s.max * k
    ensures e.threads == Poised(|s.threads|, 0, s.clock) && e.max == s.max
    ensures e.lastReset == if k == 0 then s.lastReset else s.clock
    decreases k
  {
    if k == 0 {
      return [], s;
    }
    var i, n := k - 1, |s.threads|;
    var m;
    steps, m := RefillAndDrain(s, i);
    assert m.threads == Poised(n, i, s.clock);
    var rest;
    rest, e := Race(m, i);
    Compose(s, steps, m, rest, e);
    steps := steps + rest;
    assert s.max * k == s.max + s.max * i;
  }

  /** A minute later all threads read the clock and the old `last_reset`, and each of them refills and
      drains in turn. */
  lemma RacyMinute(s: State) returns (steps: seq<Step>, e: State)
    requires s.threads == Poised(|s.threads|, 0, s.clock) && s.lastReset == s.clock && s.max > 0 && |s.threads| > 0
    ensures Reaches(s, steps, e) && e.clock == s.clock + WINDOW && e.grants == s.grants + s.max * |s.threads|
    ensures e.threads == Poised(|s.threads|, 0, e.clock) && e.max == s.max && e.lastReset == e.clock
  {
    var n, tick := |s.threads|, Tick(s.clock + WINDOW);
    OneStep(s, tick);
    var ready := Next(s, tick);
    assert ready.threads == Poised(n, 0, ready.clock);
    var poise := Poise(ready, n);
    var poised := ready.(threads := Poised(n, n, ready.clock));
    Compose(s, [tick], ready, poise, poised);
    var race;
    race, e := Race(poised, n);
    Compose(s, [tick] + poise, poised, race, e);
    steps := [tick] + poise + race;
  }

  lemma {:induction false} RacyMinutes(s: State, m: nat) returns (steps: seq<Step>, e: State)
    requires s.threads == Poised(|s.threads|, 0, s.clock) && s.lastReset == s.clock && s.max > 0 && |s.threads| > 0
    ensures Reaches(s, steps, e) && e.clock == s.clock + WINDOW * m && e.grants == s.grants + s.max * (|s.threads| * m)
    decreases m
  {
    if m == 0 {
      return [], s;
    }
    var next, rest;
    steps, next := RacyMinute(s);
    rest, e := RacyMinutes(next, m - 1);
    Compose(s, steps, next, rest, e);
    steps := steps + rest;
    var n := |s.threads|;
    assert s.max * (n * m) == s.max * n + s.max * (n * (m - 1)) by {
      assert n * m == n + n * (m - 1);
    }
  }

  lemma {:induction false} WholeWindows(m: nat)
    ensures Windows(WINDOW * m, WINDOW) == m
  {
    if m > 0 {
      WholeWindows(m - 1);
    }
  }

  /** With `n` threads the budget is reached after every whole number of windows even when every call is
      instant: drain the bucket, and then minute after minute let all threads read the clock and the old
      `last_reset` before each of them refills and drains in turn. So the configured rate alone is no bound. */
  lemma ConcurrentBudgetIsSharp(max: nat, start: nat, n: nat, m: nat) returns (steps: seq<Step>)
    requires max > 0 && n > 0
    ensures TimedRun(Initial(max, start, n), steps, 0) && Runs(Initial(max, start, n), steps)
    ensures var e := End(Initial(max, start, n), steps);
            e.clock == start + WINDOW * m && e.grants == max * (1 + n * Windows(e.clock - start, WINDOW))
  {
    var s := Initial(max, start, n);
    var drained, e, rest;
    steps, drained := Drain(s, 0, max);
    assert drained.threads == Poised(n, 0, drained.clock);
    rest, e := RacyMinutes(drained, m);
    Compose(s, steps, drained, rest, e);
    steps := steps + rest;
    WholeWindows(m);
    assert max * (1 + n * m) == max + max * (n * m);
  }
}
