/**
 * The fuel bound is only a bound: a run that finishes within some fuel
 * finishes with the same outcome and store given any more fuel. This
 * makes "evaluates to" a property of the program rather than of the bound.
 */
module Fuel {
  import opened Vocabulary
  import opened Semantics

  lemma {:induction false} StepMono(f1: nat, f2: nat, st: Store, c: Comp)
    requires f1 <= f2 && !Step(f1, st, c).next.Exhausted?
    ensures Step(f2, st, c) == Step(f1, st, c)
    decreases f1
  {
    match c
    case Call(f, arg, andThen) =>
      if f.KFn? && f.id < |st| {
        InvokeMono(f1 - 1, f2 - 1, st, f.id, arg);
        var r := Invoke(f1 - 1, st, f.id, arg);
        if r.out.Normal? {
          StepMono(f1 - 1, f2 - 1, r.store, andThen(r.out.value));
        }
      }
    case Then(first, rest) =>
      StepMono(f1 - 1, f2 - 1, st, first);
      var r := Step(f1 - 1, st, first);
      if r.next.Completed? {
        StepMono(f1 - 1, f2 - 1, r.store, rest(r.next.value));
      }
    case _ =>
  }

  lemma {:induction false} EvalMono(f1: nat, f2: nat, st: Store, b: Block, d: Done, x: Value)
    requires f1 <= f2 && !Eval(f1, st, b, d, x).out.OutOfFuel?
    ensures Eval(f2, st, b, d, x) == Eval(f1, st, b, d, x)
    decreases f1
  {
    StepMono(f1 - 1, f2 - 1, st, Start(b, x));
    var s := Step(f1 - 1, st, Start(b, x));
    match s.next
    case Completed(v) => ApplyMono(f1 - 1, f2 - 1, s.store, d, v);
    case Raised(_) =>
    case Yielded(ResetC(body), resume) =>
      EvalMono(f1 - 1, f2 - 1, s.store, Fresh(body), ResumeOuter(resume, d), Undefined);
    case Yielded(ShiftC(block), resume) =>
      EvalMono(f1 - 1, f2 - 1, s.store + [Cell(false, Undefined, resume)],
               Fresh(block(KFn(|s.store|))), d, Undefined);
  }

  lemma {:induction false} ApplyMono(f1: nat, f2: nat, st: Store, d: Done, v: Value)
    requires f1 <= f2 && !Apply(f1, st, d, v).out.OutOfFuel?
    ensures Apply(f2, st, d, v) == Apply(f1, st, d, v)
    decreases f1
  {
    match d
    case Identity =>
    case ResumeOuter(cont, outer) => EvalMono(f1 - 1, f2 - 1, st, Suspended(cont), outer, v);
  }

  lemma {:induction false} InvokeMono(f1: nat, f2: nat, st: Store, i: nat, x: Value)
    requires i < |st|
    requires f1 <= f2 && !Invoke(f1, st, i, x).out.OutOfFuel?
    ensures Invoke(f2, st, i, x) == Invoke(f1, st, i, x)
    decreases f1
  {
    if !st[i].continued {
      EvalMono(f1 - 1, f2 - 1, st[i := st[i].(continued := true)], Suspended(st[i].cont), Identity, x);
    }
  }

  lemma ApplyOutMono(f1: nat, f2: nat, r: Res, d: Done)
    requires f1 <= f2 && !ApplyOut(f1, r, d).out.OutOfFuel?
    ensures ApplyOut(f2, r, d) == ApplyOut(f1, r, d)
  {
    if r.out.Normal? {
      ApplyMono(f1, f2, r.store, d, r.out.value);
    }
  }

  /** Generator code `c` runs, within some fuel, to the step result `s`. */
  ghost predicate StepsTo(st: Store, c: Comp, s: Stepped) {
    !s.next.Exhausted? && exists f: nat :: Step(f, st, c) == s
  }

  /** `evaluate` finishes, within some fuel, with `r`. */
  ghost predicate EvalsTo(st: Store, b: Block, d: Done, x: Value, r: Res) {
    !r.out.OutOfFuel? && exists f: nat :: Eval(f, st, b, d, x) == r
  }

  /** Calling `done` with `v` finishes, within some fuel, with `r`. */
  ghost predicate AppliesTo(st: Store, d: Done, v: Value, r: Res) {
    !r.out.OutOfFuel? && exists f: nat :: Apply(f, st, d, v) == r
  }

  /** Calling continuation `i` with `x` finishes, within some fuel, with `r`. */
  ghost predicate InvokesTo(st: Store, i: nat, x: Value, r: Res)
    requires i < |st|
  {
    !r.out.OutOfFuel? && exists f: nat :: Invoke(f, st, i, x) == r
  }

  /** `r1` delivered to `d` gives `r`: values go to `d`, errors pass by. */
  ghost predicate ResumesTo(r1: Res, d: Done, r: Res) {
    if r1.out.Normal? then AppliesTo(r1.store, d, r1.out.value, r) else r == r1
  }

  lemma StepsToUnique(st: Store, c: Comp, s1: Stepped, s2: Stepped)
    requires StepsTo(st, c, s1) && StepsTo(st, c, s2)
    ensures s1 == s2
  {
    var f1: nat :| Step(f1, st, c) == s1;
    var f2: nat :| Step(f2, st, c) == s2;
    if f1 <= f2 { StepMono(f1, f2, st, c); } else { StepMono(f2, f1, st, c); }
  }

  /** Evaluation is deterministic: at most one result, whatever the fuel. */
  lemma EvalsToUnique(st: Store, b: Block, d: Done, x: Value, r1: Res, r2: Res)
    requires EvalsTo(st, b, d, x, r1) && EvalsTo(st, b, d, x, r2)
    ensures r1 == r2
  {
    var f1: nat :| Eval(f1, st, b, d, x) == r1;
    var f2: nat :| Eval(f2, st, b, d, x) == r2;
    if f1 <= f2 { EvalMono(f1, f2, st, b, d, x); } else { EvalMono(f2, f1, st, b, d, x); }
  }

  lemma InvokesToUnique(st: Store, i: nat, x: Value, r1: Res, r2: Res)
    requires i < |st|
    requires InvokesTo(st, i, x, r1) && InvokesTo(st, i, x, r2)
    ensures r1 == r2
  {
    var f1: nat :| Invoke(f1, st, i, x) == r1;
    var f2: nat :| Invoke(f2, st, i, x) == r2;
    if f1 <= f2 { InvokeMono(f1, f2, st, i, x); } else { InvokeMono(f2, f1, st, i, x); }
  }
}
