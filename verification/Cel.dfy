/** The CEL evaluator (src/engine/cel.rs): a memo table in front of the CEL library. Compiling and
    executing a program are library code and stay uninterpreted, but deterministic. */
module Cel {
  import opened Wrappers
  import opened Pods
  import opened Ttl

  datatype Program = Program(handle: nat)

  datatype Float = Finite(r: real) | NotFinite

  datatype Value = Bool(b: bool) | Int(i: int) | UInt(n: nat) | Double(f: Float) | Other

  /** What an expression can refer to: the pod, and the two time variables. */
  datatype Variables = Variables(pod: Pod, now: int, age: Option<int>)

  datatype Error =
    | CompilationError(text: string)
    | EvaluationError(text: string)
    | SerializationError(text: string)

  /** Why the variables of a pod could not be built. */
  datatype ContextFailure = NotSerializable(text: string) | NotRepresentable(text: string)

  datatype Library = Library(
    compile: string -> Result<Program, string>,
    contextFailure: Pod -> Option<ContextFailure>,
    execute: (Program, Variables) -> Result<Value, string>)

  function ContextOf(pod: Pod, now: int): Variables {
    Variables(pod, Timestamp(now), CelAge(pod, now))
  }

  function AsBool(v: Value): Result<bool, Error> {
    match v
    case Bool(b) => Ok(b)
    case Int(i) => Ok(i != 0)
    case UInt(n) => Ok(n != 0)
    case Double(f) => Ok(f != Finite(0.0))
    case Other => Err(EvaluationError("Expression did not evaluate to boolean"))
  }

  function Run(lib: Library, program: Program, pod: Pod, now: int): Result<bool, Error> {
    match lib.contextFailure(pod)
    case Some(NotSerializable(e)) => Err(SerializationError(e))
    case Some(NotRepresentable(e)) => Err(EvaluationError(e))
    case None =>
      match lib.execute(program, ContextOf(pod, now))
      case Ok(v) => AsBool(v)
      case Err(e) => Err(EvaluationError(e))
  }

  /** Evaluation without a cache: compile, then run. */
  function EvaluateAfresh(lib: Library, expr: string, pod: Pod, now: int): Result<bool, Error> {
    match lib.compile(expr)
    case Ok(program) => Run(lib, program, pod, now)
    case Err(e) => Err(CompilationError(e))
  }

  function ValidateAfresh(lib: Library, expr: string): Result<(), Error> {
    match lib.compile(expr)
    case Ok(_) => Ok(())
    case Err(e) => Err(CompilationError(e))
  }

  /** `crate::Error::to_string` for the three errors above (src/error.rs). */
  function ErrorText(e: Error): string {
    match e
    case CompilationError(t) => "CEL compilation error: " + t
    case EvaluationError(t) => "CEL evaluation error: " + t
    case SerializationError(t) => "Serialization error: " + t
  }

  ghost predicate Memo(lib: Library, cache: map<string, Program>) {
    forall expr <- cache :: lib.compile(expr) == Ok(cache[expr])
  }

  class CelEvaluator {
    const lib: Library
    var expressionCache: map<string, Program>

    ghost predicate Valid()
      reads this
    {
      Memo(lib, expressionCache)
    }

    constructor (lib: Library)
      ensures Valid() && this.lib == lib && expressionCache == map[]
    {
      this.lib := lib;
      expressionCache := map[];
    }

    method Evaluate(expr: string, pod: Pod, now: int) returns (r: Result<bool, Error>)
      requires Valid()
      modifies this
      ensures Valid()
      ensures r == EvaluateAfresh(lib, expr, pod, now)
      ensures expressionCache.Keys == old(expressionCache.Keys) + (if lib.compile(expr).Ok? then {expr} else {})
    {
      var program;
      if expr in expressionCache {
        program := expressionCache[expr];
      } else {
        match lib.compile(expr) {
          case Ok(p) =>
            expressionCache := expressionCache[expr := p];
            program := p;
          case Err(e) =>
            return Err(CompilationError(e));
        }
      }
      r := Run(lib, program, pod, now);
    }

    method Validate(expr: string) returns (r: Result<(), Error>)
      requires Valid()
      modifies this
      ensures Valid()
      ensures r == ValidateAfresh(lib, expr)
      ensures expressionCache.Keys == old(expressionCache.Keys) + (if r.Ok? then {expr} else {})
    {
      if expr in expressionCache {
        return Ok(());
      }
      match lib.compile(expr) {
        case Ok(p) =>
          expressionCache := expressionCache[expr := p];
          return Ok(());
        case Err(e) =>
          return Err(CompilationError(e));
      }
    }

    method ClearCache()
      modifies this
      ensures Valid() && expressionCache == map[]
    {
      expressionCache := map[];
    }
  }
}

/** The same table used by any number of threads at once; the map operations are the steps. */
module CelConcurrency {
  import opened Basics
  import opened Wrappers
  import opened Pods
  import opened Cel

  datatype Op = EvaluateOp(expr: string, pod: Pod) | ValidateOp(expr: string) | ClearOp

  /** Where a thread stands inside `evaluate`, `validate` or `clear_cache`. */
  datatype Pc =
    | Idle
    | Looking(op: Op)
    | Compiling(op: Op)
    | Inserting(op: Op, program: Program)
    | Running(op: Op, program: Program)
    | Clearing

  datatype Outcome =
    | Evaluated(expr: string, pod: Pod, now: int, value: Result<bool, Error>)
    | Validated(expr: string, verdict: Result<(), Error>)

  datatype State = State(cache: map<string, Program>, threads: seq<Pc>, done: seq<Outcome>)

  /** `Clear` removes any part of the table: the map is emptied shard by shard. */
  datatype Step =
    | Call(i: nat, op: Op)
    | Look(i: nat)
    | Compile(i: nat)
    | Insert(i: nat)
    | Execute(i: nat, now: int)
    | Clear(i: nat, removed: set<string>)
    | Cleared(i: nat)

  predicate Enabled(s: State, step: Step) {
    step.i < |s.threads| &&
    match step
    case Call(i, _) => s.threads[i].Idle?
    case Look(i) => s.threads[i].Looking? && !s.threads[i].op.ClearOp?
    case Compile(i) => s.threads[i].Compiling? && !s.threads[i].op.ClearOp?
    case Insert(i) => s.threads[i].Inserting? && !s.threads[i].op.ClearOp?
    case Execute(i, _) => s.threads[i].Running? && s.threads[i].op.EvaluateOp?
    case Clear(i, _) => s.threads[i].Clearing?
    case Cleared(i) => s.threads[i].Clearing?
  }

  function Next(lib: Library, s: State, step: Step): State
    requires Enabled(s, step)
  {
    var i := step.i;
    match step
    case Call(_, op) => s.(threads := s.threads[i := if op.ClearOp? then Clearing else Looking(op)])
    case Look(_) =>
      var op := s.threads[i].op;
      if op.expr !in s.cache then s.(threads := s.threads[i := Compiling(op)])
      else if op.EvaluateOp? then s.(threads := s.threads[i := Running(op, s.cache[op.expr])])
      else s.(threads := s.threads[i := Idle], done := s.done + [Validated(op.expr, Ok(()))])
    case Compile(_) =>
      var op := s.threads[i].op;
      (match lib.compile(op.expr)
       case Ok(p) => s.(threads := s.threads[i := Inserting(op, p)])
       case Err(e) =>
         var failure := CompilationError(e);
         s.(threads := s.threads[i := Idle],
            done := s.done + [if op.EvaluateOp? then Evaluated(op.expr, op.pod, 0, Err(failure))
                              else Validated(op.expr, Err(failure))]))
    case Insert(_) =>
      var op, p := s.threads[i].op, s.threads[i].program;
      var s' := s.(cache := s.cache[op.expr := p]);
      if op.EvaluateOp? then s'.(threads := s.threads[i := Running(op, p)])
      else s'.(threads := s.threads[i := Idle], done := s.done + [Validated(op.expr, Ok(()))])
    case Execute(_, now) =>
      var op := s.threads[i].op;
      s.(threads := s.threads[i := Idle],
         done := s.done + [Evaluated(op.expr, op.pod, now, Run(lib, s.threads[i].program, op.pod, now))])
    case Clear(_, removed) => s.(cache := s.cache - removed)
    case Cleared(_) => s.(threads := s.threads[i := Idle])
  }

  ghost predicate Runs(lib: Library, s: State, steps: seq<Step>)
    decreases |steps|
  {
    steps == [] || (Enabled(s, steps[0]) && Runs(lib, Next(lib, s, steps[0]), steps[1..]))
  }

  ghost function End(lib: Library, s: State, steps: seq<Step>): State
    requires Runs(lib, s, steps)
    decreases |steps|
  {
    if steps == [] then s else End(lib, Next(lib, s, steps[0]), steps[1..])
  }

  /** A finished call returned what it would have returned without a cache. */
  ghost predicate Afresh(lib: Library, o: Outcome) {
    match o
    case Evaluated(expr, pod, now, value) => value == EvaluateAfresh(lib, expr, pod, now)
    case Validated(expr, verdict) => verdict == ValidateAfresh(lib, expr)
  }

  ghost predicate HoldsProgram(lib: Library, pc: Pc) {
    pc.Inserting? || pc.Running? ==> !pc.op.ClearOp? && lib.compile(pc.op.expr) == Ok(pc.program)
  }

  ghost predicate Transparent(lib: Library, s: State) {
    && Memo(lib, s.cache)
    && (forall i | 0 <= i < |s.threads| :: HoldsProgram(lib, s.threads[i]))
    && (forall k | 0 <= k < |s.done| :: Afresh(lib, s.done[k]))
  }

  lemma {:induction false} CacheIsTransparent(lib: Library, s: State, steps: seq<Step>)
    requires Transparent(lib, s) && Runs(lib, s, steps)
    ensures Transparent(lib, End(lib, s, steps))
    decreases |steps|
  {
    if steps != [] {
      CacheIsTransparent(lib, Next(lib, s, steps[0]), steps[1..]);
    }
  }

  /** Starting from an empty table, in every interleaving of evaluate, validate and clear by `n`
      threads, every entry is the compilation of its key, every call returns what compiling afresh
      would, and an expression that any `validate` accepts never fails to compile in any `evaluate`. */
  lemma AcceptedExpressionsNeverFailToCompile(lib: Library, n: nat, steps: seq<Step>)
    requires Runs(lib, State(map[], seq(n, _ => Idle), []), steps)
    ensures var e := End(lib, State(map[], seq(n, _ => Idle), []), steps);
            && Transparent(lib, e)
            && forall j, k | 0 <= j < |e.done| && 0 <= k < |e.done|
                 && e.done[j].Validated? && e.done[j].verdict.Ok? && e.done[k].Evaluated? && e.done[k].expr == e.done[j].expr ::
                 !(e.done[k].value.Err? && e.done[k].value.error.CompilationError?)
  {
    var s := State(map[], seq(n, _ => Idle), []);
    CacheIsTransparent(lib, s, steps);
    var e := End(lib, s, steps);
    forall j, k | 0 <= j < |e.done| && 0 <= k < |e.done|
        && e.done[j].Validated? && e.done[j].verdict.Ok? && e.done[k].Evaluated? && e.done[k].expr == e.done[j].expr
      ensures !(e.done[k].value.Err? && e.done[k].value.error.CompilationError?)
    {
      assert Afresh(lib, e.done[j]) && Afresh(lib, e.done[k]);
    }
  }

  /** Calls of `evaluate` and `validate` that have not returned. */
  function Unanswered(threads: seq<Pc>): nat {
    |Filter((pc: Pc) => !pc.Idle? && !pc.Clearing?, threads)|
  }

  /** The calls of `evaluate` and `validate` in a run. */
  function Asked(steps: seq<Step>): nat {
    |Filter((step: Step) => step.Call? && !step.op.ClearOp?, steps)|
  }

  lemma StepAnswers(lib: Library, s: State, step: Step)
    requires Enabled(s, step)
    ensures var s' := Next(lib, s, step);
            |s'.done| + Unanswered(s'.threads)
            == |s.done| + Unanswered(s.threads) + (if step.Call? && !step.op.ClearOp? then 1 else 0)
  {
    var s' := Next(lib, s, step);
    var now := s'.threads[step.i];
    assert s'.threads == s.threads[step.i := now];
    FilterUpdate((pc: Pc) => !pc.Idle? && !pc.Clearing?, s.threads, step.i, now);
  }

  /** Every call returns exactly one result. */
  lemma {:induction false} EveryCallAnsweredOnce(lib: Library, s: State, steps: seq<Step>)
    requires Runs(lib, s, steps)
    ensures var e := End(lib, s, steps);
            |e.done| + Unanswered(e.threads) == |s.done| + Unanswered(s.threads) + Asked(steps)
    decreases |steps|
  {
    if steps != [] {
      StepAnswers(lib, s, steps[0]);
      EveryCallAnsweredOnce(lib, Next(lib, s, steps[0]), steps[1..]);
    }
  }
}
