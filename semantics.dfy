/**
 * The reference semantics of `evaluate` and of the one-shot continuation
 * `k`, as functions over an explicit store of one-shot cells.
 *
 * Every continuation created at a shift owns one cell of the store: the
 * pair `continued`/`result` that the closure `k` captures, together with
 * the suspended generator `cont` that it resumes. The `done` continuation
 * of `evaluate` is represented by the frames it stacks up (`Done`).
 *
 * The host recursion of `evaluate` is not well-founded (a shift block may
 * call `k`, which evaluates again), so each function takes a `fuel` bound
 * and answers `OutOfFuel` once it is used up.
 */
module Semantics {
  import opened Vocabulary

  /** One continuation's memo cell and the generator it resumes. */
  datatype Cell = Cell(continued: bool, result: Value, cont: Value -> Comp)

  type Store = seq<Cell>

  /**
   * The `done` continuation of `evaluate`: the identity `v => v`, or the
   * closure `v => evaluate(() => cont, outer, v)` that a reset installs to
   * resume the outer generator once the inner block has a value.
   */
  datatype Done =
    | Identity
    | ResumeOuter(cont: Value -> Comp, outer: Done)

  /** How a call of `evaluate` or `k` ends. */
  datatype Outcome =
    | Normal(value: Value)
    | Thrown(error: Error)
    | OutOfFuel

  datatype Res = Res(out: Outcome, store: Store)

  /** How one `prog.next(value)` ends. */
  datatype Next =
    | Completed(value: Value)
    | Yielded(request: Control, resume: Value -> Comp)
    | Raised(error: Error)
    | Exhausted

  datatype Stepped = Stepped(next: Next, store: Store)

  /**
   * What any run of the evaluator may do to the cells that existed before
   * it: a cell changes only while it goes from not continued to continued
   * (its first call), keeps the generator it resumes, and never changes
   * again once it is continued. New cells may be added at the end.
   */
  ghost predicate Extends(st: Store, st': Store) {
    |st| <= |st'| &&
    forall i :: 0 <= i < |st| ==>
      st'[i] == st[i] ||
      (!st[i].continued && st'[i].continued && st'[i].cont == st[i].cont)
  }

  /** The generator code that `prog.next(value)` runs. */
  function Start(b: Block, value: Value): Comp {
    match b
    case Fresh(c) => c
    case Suspended(resume) => resume(value)
  }

  /**
   * The suspension of `rest(yield* c)` while `c` is suspended at `resume`:
   * resuming it resumes `c` and then goes on with `rest`.
   */
  function Delegate(resume: Value -> Comp, rest: Value -> Comp): Value -> Comp {
    x => Then(resume(x), rest)
  }

  /** The frames of `d1` with those of `d2` stacked outside them. */
  function Compose(d1: Done, d2: Done): Done {
    match d1
    case Identity => d2
    case ResumeOuter(cont, outer) => ResumeOuter(cont, Compose(outer, d2))
  }

  /**
   * `prog.next`: run generator code until it completes, throws or yields a
   * control request. Calls of continuations made by that code run here,
   * and an error they throw leaves the generator (nothing catches it).
   */
  function Step(fuel: nat, st: Store, c: Comp): (r: Stepped)
    decreases fuel
    ensures Extends(st, r.store)
  {
    match c
    case Return(v) => Stepped(Completed(v), st)
    case Throw(e) => Stepped(Raised(e), st)
    case Yield(request, resume) => Stepped(Yielded(request, resume), st)
    case Call(f, arg, andThen) =>
      if fuel == 0 then Stepped(Exhausted, st)
      else if !f.KFn? || f.id >= |st| then Stepped(Raised(NotCallable(f)), st)
      else
        var r := Invoke(fuel - 1, st, f.id, arg);
        (match r.out
         case Normal(v) => Step(fuel - 1, r.store, andThen(v))
         case Thrown(e) => Stepped(Raised(e), r.store)
         case OutOfFuel => Stepped(Exhausted, r.store))
    case Then(first, rest) =>
      if fuel == 0 then Stepped(Exhausted, st)
      else
        var r := Step(fuel - 1, st, first);
        match r.next
        case Completed(v) => Step(fuel - 1, r.store, rest(v))
        case Yielded(request, resume) =>
          Stepped(Yielded(request, Delegate(resume, rest)), r.store)
        case Raised(_) => r
        case Exhausted => r
  }

  /**
   * `evaluate(block, done, value)`: step the generator once; hand a
   * completion to `done`; on a reset evaluate the body with a `done` that
   * resumes this generator; on a shift make a fresh continuation for this
   * generator and evaluate the shift block with it and the same `done`.
   */
  function Eval(fuel: nat, st: Store, b: Block, done: Done, value: Value): (r: Res)
    decreases fuel
    ensures Extends(st, r.store)
  {
    if fuel == 0 then Res(OutOfFuel, st)
    else
      var s := Step(fuel - 1, st, Start(b, value));
      match s.next
      case Completed(v) => Apply(fuel - 1, s.store, done, v)
      case Raised(e) => Res(Thrown(e), s.store)
      case Exhausted => Res(OutOfFuel, s.store)
      case Yielded(ResetC(body), resume) =>
        Eval(fuel - 1, s.store, Fresh(body), ResumeOuter(resume, done), Undefined)
      case Yielded(ShiftC(block), resume) =>
        var k := |s.store|;
        Eval(fuel - 1, s.store + [Cell(false, Undefined, resume)], Fresh(block(KFn(k))), done, Undefined)
  }

  /** Call the `done` continuation with `v`. */
  function Apply(fuel: nat, st: Store, done: Done, v: Value): (r: Res)
    decreases fuel
    ensures Extends(st, r.store)
  {
    match done
    case Identity => Res(Normal(v), st)
    case ResumeOuter(cont, outer) =>
      if fuel == 0 then Res(OutOfFuel, st)
      else Eval(fuel - 1, st, Suspended(cont), outer, v)
  }

  /**
   * The continuation `k` of cell `i` called with `value`. The first call
   * marks the cell continued, then resumes the captured generator with
   * `value` under the identity `done`, and stores what that evaluation
   * returns; a throwing first call leaves `result` as it was. Every later
   * call returns the stored `result` and ignores `value`.
   */
  function Invoke(fuel: nat, st: Store, i: nat, value: Value): (r: Res)
    requires i < |st|
    decreases fuel
    ensures Extends(st, r.store)
    ensures r.out != OutOfFuel ==> r.store[i].continued
    ensures r.out.Normal? ==> r.out.value == r.store[i].result
  {
    if st[i].continued then Res(Normal(st[i].result), st)
    else if fuel == 0 then Res(OutOfFuel, st)
    else
      var r := Eval(fuel - 1, Marked(st, i), Suspended(st[i].cont), Identity, value);
      Recorded(r, i)
  }

  /** Cell `i` marked continued, as `k` does before it resumes anything. */
  function Marked(st: Store, i: nat): Store
    requires i < |st|
  {
    st[i := st[i].(continued := true)]
  }

  /** What a first call hands back: a value is stored in cell `i`, an error is not. */
  function Recorded(r: Res, i: nat): Res
    requires i < |r.store|
  {
    if r.out.Normal? then Res(r.out, r.store[i := r.store[i].(result := r.out.value)]) else r
  }

  /** Deliver an evaluation's outcome to `done`; errors pass it by. */
  function ApplyOut(fuel: nat, r: Res, done: Done): Res {
    if r.out.Normal? then Apply(fuel, r.store, done, r.out.value) else r
  }
}
