/**
 * What `evaluate` does with the first step of its generator, stated
 * without the fuel bound: a completion goes to `done`, an error escapes,
 * a reset runs its body to a value before the outer generator resumes,
 * and a shift runs its block in place of the rest of the generator.
 */
module Evaluation {
  import opened Vocabulary
  import opened Semantics
  import opened Fuel
  import opened Delimiting

  /** How `evaluate` goes on after its first step `s` (mod.ts:32-51). */
  ghost predicate EvalsAfterStep(s: Stepped, d: Done, r: Res) {
    match s.next
    case Completed(v) => AppliesTo(s.store, d, v, r)
    case Raised(e) => r == Res(Thrown(e), s.store)
    case Exhausted => false
    case Yielded(ResetC(body), resume) =>
      EvalsTo(s.store, Fresh(body), ResumeOuter(resume, d), Undefined, r)
    case Yielded(ShiftC(block), resume) =>
      EvalsTo(s.store + [Cell(false, Undefined, resume)], Fresh(block(KFn(|s.store|))), d, Undefined, r)
  }

  /** The outcome of `evaluate` is determined by its first step, for any fuel. */
  lemma EvalUnfold(st: Store, b: Block, d: Done, x: Value, s: Stepped, r: Res)
    requires StepsTo(st, Start(b, x), s)
    ensures EvalsTo(st, b, d, x, r) <==> EvalsAfterStep(s, d, r)
  {
    if EvalsTo(st, b, d, x, r) {
      EvalUnfoldSplits(st, b, d, x, s, r);
    }
    if EvalsAfterStep(s, d, r) {
      EvalUnfoldJoins(st, b, d, x, s, r);
    }
  }

  lemma EvalUnfoldSplits(st: Store, b: Block, d: Done, x: Value, s: Stepped, r: Res)
    requires StepsTo(st, Start(b, x), s) && EvalsTo(st, b, d, x, r)
    ensures EvalsAfterStep(s, d, r)
  {
    var f: nat :| Eval(f, st, b, d, x) == r;
    assert StepsTo(st, Start(b, x), Step(f - 1, st, Start(b, x)));
    StepsToUnique(st, Start(b, x), s, Step(f - 1, st, Start(b, x)));
    match s.next
    case Completed(v) => assert Apply(f - 1, s.store, d, v) == r;
    case Raised(_) =>
    case Yielded(ResetC(body), resume) =>
      assert Eval(f - 1, s.store, Fresh(body), ResumeOuter(resume, d), Undefined) == r;
    case Yielded(ShiftC(block), resume) =>
      assert Eval(f - 1, s.store + [Cell(false, Undefined, resume)], Fresh(block(KFn(|s.store|))), d, Undefined) == r;
  }

  lemma EvalUnfoldJoins(st: Store, b: Block, d: Done, x: Value, s: Stepped, r: Res)
    requires StepsTo(st, Start(b, x), s) && EvalsAfterStep(s, d, r)
    ensures EvalsTo(st, b, d, x, r)
  {
    var h: nat :| Step(h, st, Start(b, x)) == s;
    match s.next
    case Completed(v) =>
      var g: nat :| Apply(g, s.store, d, v) == r;
      var f := h + g + 1;
      StepMono(h, f - 1, st, Start(b, x));
      ApplyMono(g, f - 1, s.store, d, v);
      assert Eval(f, st, b, d, x) == r;
    case Raised(_) =>
      assert Eval(h + 1, st, b, d, x) == r;
    case Yielded(ResetC(body), resume) =>
      var g: nat :| Eval(g, s.store, Fresh(body), ResumeOuter(resume, d), Undefined) == r;
      var f := h + g + 1;
      StepMono(h, f - 1, st, Start(b, x));
      EvalMono(g, f - 1, s.store, Fresh(body), ResumeOuter(resume, d), Undefined);
      assert Eval(f, st, b, d, x) == r;
    case Yielded(ShiftC(block), resume) =>
      var st1 := s.store + [Cell(false, Undefined, resume)];
      var g: nat :| Eval(g, st1, Fresh(block(KFn(|s.store|))), d, Undefined) == r;
      var f := h + g + 1;
      StepMono(h, f - 1, st, Start(b, x));
      EvalMono(g, f - 1, st1, Fresh(block(KFn(|s.store|))), d, Undefined);
      assert Eval(f, st, b, d, x) == r;
  }

  /** How a step of generator code resumed through `Delegate` goes on once `resume(x)` has stepped to `s1`. */
  ghost predicate DelegatesAfter(s1: Stepped, rest: Value -> Comp, s: Stepped) {
    match s1.next
    case Completed(v) => StepsTo(s1.store, rest(v), s)
    case Yielded(request, inner) => s == Stepped(Yielded(request, Delegate(inner, rest)), s1.store)
    case Raised(_) => s == s1
    case Exhausted => false
  }

  /**
   * `yield*`: resuming `rest(yield* c)` with `x`, while `c` is suspended at
   * `resume`, steps to `s` exactly when `resume(x)` steps to some `s1` and
   * then either `rest` runs on `c`'s value, or `c` suspends again and the
   * whole is suspended through `Delegate` once more, or `c`'s error is the
   * step's error.
   */
  lemma DelegateSteps(st: Store, resume: Value -> Comp, rest: Value -> Comp, x: Value, s: Stepped)
    ensures StepsTo(st, Delegate(resume, rest)(x), s) <==>
            exists s1 :: StepsTo(st, resume(x), s1) && DelegatesAfter(s1, rest, s)
  {
    if StepsTo(st, Delegate(resume, rest)(x), s) {
      DelegateSplits(st, resume, rest, x, s);
    }
    if exists s1 :: StepsTo(st, resume(x), s1) && DelegatesAfter(s1, rest, s) {
      var s1 :| StepsTo(st, resume(x), s1) && DelegatesAfter(s1, rest, s);
      DelegateJoins(st, resume, rest, x, s1, s);
    }
  }

  lemma DelegateSplits(st: Store, resume: Value -> Comp, rest: Value -> Comp, x: Value, s: Stepped)
    requires StepsTo(st, Delegate(resume, rest)(x), s)
    ensures exists s1 :: StepsTo(st, resume(x), s1) && DelegatesAfter(s1, rest, s)
  {
    var c := Delegate(resume, rest)(x);
    assert c == Then(resume(x), rest);
    var f: nat :| Step(f, st, c) == s;
    var s1 := Step(f - 1, st, resume(x));
    assert StepsTo(st, resume(x), s1);
    if s1.next.Completed? {
      assert Step(f - 1, s1.store, rest(s1.next.value)) == s;
    }
    assert DelegatesAfter(s1, rest, s);
  }

  lemma DelegateJoins(st: Store, resume: Value -> Comp, rest: Value -> Comp, x: Value, s1: Stepped, s: Stepped)
    requires StepsTo(st, resume(x), s1) && DelegatesAfter(s1, rest, s)
    ensures StepsTo(st, Delegate(resume, rest)(x), s)
  {
    var c := Delegate(resume, rest)(x);
    assert c == Then(resume(x), rest);
    var h: nat :| Step(h, st, resume(x)) == s1;
    var g: nat := 0;
    if s1.next.Completed? {
      g :| Step(g, s1.store, rest(s1.next.value)) == s;
    }
    var f := h + g + 1;
    StepMono(h, f - 1, st, resume(x));
    if s1.next.Completed? {
      StepMono(g, f - 1, s1.store, rest(s1.next.value));
    }
    assert Step(f, st, c) == s;
  }

  /** Calling the identity `done` gives back its argument. */
  lemma ApplyIdentity(st: Store, v: Value, r: Res)
    ensures AppliesTo(st, Identity, v, r) <==> r == Res(Normal(v), st)
  {
    if r == Res(Normal(v), st) {
      assert Apply(0, st, Identity, v) == r;
    }
  }

  /** Calling the `done` a reset installs resumes the outer generator with the value. */
  lemma ApplyResumeOuter(st: Store, cont: Value -> Comp, outer: Done, v: Value, r: Res)
    ensures AppliesTo(st, ResumeOuter(cont, outer), v, r) <==> EvalsTo(st, Suspended(cont), outer, v, r)
  {
    if AppliesTo(st, ResumeOuter(cont, outer), v, r) {
      var f: nat :| Apply(f, st, ResumeOuter(cont, outer), v) == r;
      assert Eval(f - 1, st, Suspended(cont), outer, v) == r;
    }
    if EvalsTo(st, Suspended(cont), outer, v, r) {
      var f: nat :| Eval(f, st, Suspended(cont), outer, v) == r;
      assert Apply(f + 1, st, ResumeOuter(cont, outer), v) == r;
    }
  }

  /**
   * If the generator completes with `v` at its first step, `evaluate`
   * returns `done(v)`; with the default `done` it returns `v`.
   */
  lemma CompletionGoesToDone(st: Store, b: Block, d: Done, x: Value, v: Value, st1: Store, r: Res)
    requires StepsTo(st, Start(b, x), Stepped(Completed(v), st1))
    ensures EvalsTo(st, b, d, x, r) <==> AppliesTo(st1, d, v, r)
    ensures EvalsTo(st, b, Identity, x, r) <==> r == Res(Normal(v), st1)
  {
    EvalUnfold(st, b, d, x, Stepped(Completed(v), st1), r);
    EvalUnfold(st, b, Identity, x, Stepped(Completed(v), st1), r);
    ApplyIdentity(st1, v, r);
  }

  /** An error thrown by the first step escapes `evaluate` unchanged, whatever `done` is. */
  lemma ErrorEscapes(st: Store, b: Block, d: Done, x: Value, e: Error, st1: Store, r: Res)
    requires StepsTo(st, Start(b, x), Stepped(Raised(e), st1))
    ensures EvalsTo(st, b, d, x, r) <==> r == Res(Thrown(e), st1)
  {
    EvalUnfold(st, b, d, x, Stepped(Raised(e), st1), r);
  }

  /**
   * An error that ends an evaluation ends it under any further frames
   * too: no reset frame between the throw and `evaluate` catches it.
   */
  lemma ErrorPassesFrames(st: Store, b: Block, d1: Done, d2: Done, x: Value, e: Error, st1: Store)
    requires EvalsTo(st, b, d1, x, Res(Thrown(e), st1))
    ensures EvalsTo(st, b, Compose(d1, d2), x, Res(Thrown(e), st1))
  {
    DelimitedJoins(st, b, d1, d2, x, Res(Thrown(e), st1), Res(Thrown(e), st1));
  }

  /**
   * On a reset, `evaluate` finishes with `r` exactly when the reset body,
   * evaluated on its own with the identity `done`, finishes with some
   * `r1`, and then either `r1` is an error and `r` is `r1`, or the outer
   * generator, resumed with `r1`'s value under the original `done`,
   * finishes with `r`.
   */
  lemma ResetRunsBodyFirst(st: Store, b: Block, d: Done, x: Value, body: Comp,
                           resume: Value -> Comp, st1: Store, r: Res)
    requires StepsTo(st, Start(b, x), Stepped(Yielded(ResetC(body), resume), st1))
    ensures EvalsTo(st, b, d, x, r) <==>
            exists r1 :: EvalsTo(st1, Fresh(body), Identity, Undefined, r1) &&
                         if r1.out.Normal? then EvalsTo(r1.store, Suspended(resume), d, r1.out.value, r)
                         else r == r1
  {
    EvalUnfold(st, b, d, x, Stepped(Yielded(ResetC(body), resume), st1), r);
    assert Compose(Identity, ResumeOuter(resume, d)) == ResumeOuter(resume, d);
    if EvalsTo(st, b, d, x, r) {
      DelimitedSplits(st1, Fresh(body), Identity, ResumeOuter(resume, d), Undefined, r);
      var r1 :| EvalsTo(st1, Fresh(body), Identity, Undefined, r1) && ResumesTo(r1, ResumeOuter(resume, d), r);
      if r1.out.Normal? {
        ApplyResumeOuter(r1.store, resume, d, r1.out.value, r);
      }
    } else {
      forall r1 | EvalsTo(st1, Fresh(body), Identity, Undefined, r1)
        ensures if r1.out.Normal? then !EvalsTo(r1.store, Suspended(resume), d, r1.out.value, r) else r != r1
      {
        if r1.out.Normal? {
          ApplyResumeOuter(r1.store, resume, d, r1.out.value, r);
          if EvalsTo(r1.store, Suspended(resume), d, r1.out.value, r) {
            DelimitedJoins(st1, Fresh(body), Identity, ResumeOuter(resume, d), Undefined, r1, r);
          }
        } else if r == r1 {
          DelimitedJoins(st1, Fresh(body), Identity, ResumeOuter(resume, d), Undefined, r1, r);
        }
      }
    }
  }

  /**
   * On a shift, `evaluate` creates a continuation cell that is not
   * continued, and finishes with `r` exactly when the shift block, given
   * that continuation and evaluated with the identity `done`, finishes
   * with some `r1` whose value the original `done` turns into `r`.
   */
  lemma ShiftRunsBlock(st: Store, b: Block, d: Done, x: Value, block: Value -> Comp,
                       resume: Value -> Comp, st1: Store, r: Res)
    requires StepsTo(st, Start(b, x), Stepped(Yielded(ShiftC(block), resume), st1))
    ensures EvalsTo(st, b, d, x, r) <==>
            exists r1 :: EvalsTo(st1 + [Cell(false, Undefined, resume)], Fresh(block(KFn(|st1|))), Identity, Undefined, r1) &&
                         ResumesTo(r1, d, r)
  {
    EvalUnfold(st, b, d, x, Stepped(Yielded(ShiftC(block), resume), st1), r);
    var st2 := st1 + [Cell(false, Undefined, resume)];
    assert Compose(Identity, d) == d;
    if EvalsTo(st, b, d, x, r) {
      DelimitedSplits(st2, Fresh(block(KFn(|st1|))), Identity, d, Undefined, r);
    }
    if exists r1 :: EvalsTo(st2, Fresh(block(KFn(|st1|))), Identity, Undefined, r1) && ResumesTo(r1, d, r) {
      var r1 :| EvalsTo(st2, Fresh(block(KFn(|st1|))), Identity, Undefined, r1) && ResumesTo(r1, d, r);
      DelimitedJoins(st2, Fresh(block(KFn(|st1|))), Identity, d, Undefined, r1, r);
    }
  }
}
