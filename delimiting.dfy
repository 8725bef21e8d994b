/**
 * Delimitation: evaluating under a stack of `done` frames `Compose(d1, d2)`
 * is evaluating under the inner frames `d1` and then delivering the
 * outcome to the outer frames `d2`. The outer frames never see anything
 * but the inner evaluation's final value, and an error passes them by.
 */
module Delimiting {
  import opened Vocabulary
  import opened Semantics
  import opened Fuel

  lemma {:induction false} EvalCompose(f1: nat, f2: nat, st: Store, b: Block, d1: Done, d2: Done, x: Value)
    requires !Eval(f1, st, b, d1, x).out.OutOfFuel?
    requires !ApplyOut(f2, Eval(f1, st, b, d1, x), d2).out.OutOfFuel?
    ensures Eval(f1 + f2, st, b, Compose(d1, d2), x) == ApplyOut(f2, Eval(f1, st, b, d1, x), d2)
    decreases f1
  {
    StepMono(f1 - 1, f1 + f2 - 1, st, Start(b, x));
    var s := Step(f1 - 1, st, Start(b, x));
    match s.next
    case Completed(v) => ApplyCompose(f1 - 1, f2, s.store, d1, d2, v);
    case Raised(_) =>
    case Yielded(ResetC(body), resume) =>
      EvalCompose(f1 - 1, f2, s.store, Fresh(body), ResumeOuter(resume, d1), d2, Undefined);
    case Yielded(ShiftC(block), resume) =>
      EvalCompose(f1 - 1, f2, s.store + [Cell(false, Undefined, resume)],
                  Fresh(block(KFn(|s.store|))), d1, d2, Undefined);
  }

  lemma {:induction false} ApplyCompose(f1: nat, f2: nat, st: Store, d1: Done, d2: Done, v: Value)
    requires !Apply(f1, st, d1, v).out.OutOfFuel?
    requires !ApplyOut(f2, Apply(f1, st, d1, v), d2).out.OutOfFuel?
    ensures Apply(f1 + f2, st, Compose(d1, d2), v) == ApplyOut(f2, Apply(f1, st, d1, v), d2)
    decreases f1
  {
    match d1
    case Identity => ApplyMono(f2, f1 + f2, st, d2, v);
    case ResumeOuter(cont, outer) =>
      EvalCompose(f1 - 1, f2, st, Suspended(cont), outer, d2, v);
  }

  lemma {:induction false} EvalDecompose(f: nat, st: Store, b: Block, d1: Done, d2: Done, x: Value)
    requires !Eval(f, st, b, Compose(d1, d2), x).out.OutOfFuel?
    ensures !Eval(f, st, b, d1, x).out.OutOfFuel?
    ensures Eval(f, st, b, Compose(d1, d2), x) == ApplyOut(f, Eval(f, st, b, d1, x), d2)
    decreases f
  {
    var s := Step(f - 1, st, Start(b, x));
    match s.next
    case Completed(v) =>
      ApplyDecompose(f - 1, s.store, d1, d2, v);
      ApplyOutMono(f - 1, f, Apply(f - 1, s.store, d1, v), d2);
    case Raised(_) =>
    case Yielded(ResetC(body), resume) =>
      EvalDecompose(f - 1, s.store, Fresh(body), ResumeOuter(resume, d1), d2, Undefined);
      ApplyOutMono(f - 1, f, Eval(f - 1, s.store, Fresh(body), ResumeOuter(resume, d1), Undefined), d2);
    case Yielded(ShiftC(block), resume) =>
      var st1 := s.store + [Cell(false, Undefined, resume)];
      EvalDecompose(f - 1, st1, Fresh(block(KFn(|s.store|))), d1, d2, Undefined);
      ApplyOutMono(f - 1, f, Eval(f - 1, st1, Fresh(block(KFn(|s.store|))), d1, Undefined), d2);
  }

  lemma {:induction false} ApplyDecompose(f: nat, st: Store, d1: Done, d2: Done, v: Value)
    requires !Apply(f, st, Compose(d1, d2), v).out.OutOfFuel?
    ensures !Apply(f, st, d1, v).out.OutOfFuel?
    ensures Apply(f, st, Compose(d1, d2), v) == ApplyOut(f, Apply(f, st, d1, v), d2)
    decreases f
  {
    match d1
    case Identity =>
    case ResumeOuter(cont, outer) =>
      EvalDecompose(f - 1, st, Suspended(cont), outer, d2, v);
      ApplyOutMono(f - 1, f, Eval(f - 1, st, Suspended(cont), outer, v), d2);
  }

  /**
   * If evaluating under `Compose(d1, d2)` finishes with `r`, then
   * evaluating under `d1` alone finishes, and delivering its outcome to
   * `d2` gives `r`.
   */
  lemma DelimitedSplits(st: Store, b: Block, d1: Done, d2: Done, x: Value, r: Res)
    requires EvalsTo(st, b, Compose(d1, d2), x, r)
    ensures exists r1 :: EvalsTo(st, b, d1, x, r1) && ResumesTo(r1, d2, r)
  {
    var f: nat :| Eval(f, st, b, Compose(d1, d2), x) == r;
    EvalDecompose(f, st, b, d1, d2, x);
    var r1 := Eval(f, st, b, d1, x);
    assert EvalsTo(st, b, d1, x, r1);
    if r1.out.Normal? {
      assert Apply(f, r1.store, d2, r1.out.value) == r;
    }
    assert ResumesTo(r1, d2, r);
  }

  /**
   * Conversely, an evaluation under `d1` that finishes with `r1`, followed
   * by delivering `r1` to `d2`, is an evaluation under `Compose(d1, d2)`.
   */
  lemma DelimitedJoins(st: Store, b: Block, d1: Done, d2: Done, x: Value, r1: Res, r: Res)
    requires EvalsTo(st, b, d1, x, r1) && ResumesTo(r1, d2, r)
    ensures EvalsTo(st, b, Compose(d1, d2), x, r)
  {
    var f1: nat :| Eval(f1, st, b, d1, x) == r1;
    var f2: nat := 0;
    if r1.out.Normal? {
      f2 :| Apply(f2, r1.store, d2, r1.out.value) == r;
    }
    EvalCompose(f1, f2, st, b, d1, d2, x);
    assert Eval(f1 + f2, st, b, Compose(d1, d2), x) == r;
  }
}
