/**
 * The behaviours the library's tests pin down, worked out on the model.
 */
module Scenarios {
  import opened Vocabulary
  import opened Semantics
  import opened Fuel
  import opened Operators

  function Mul(a: int, v: Value): Value {
    if v.Num? then Num(a * v.n) else Undefined
  }

  function KeepK(k: Value): Comp { Return(k) }

  function Discard(v: Value): Comp { Return(Undefined) }

  /** `function* () { return 5; }` */
  lemma ReturnsFive()
    ensures EvalsTo([], Fresh(Return(Num(5))), Identity, Undefined, Res(Normal(Num(5)), []))
  {
    assert Eval(1, [], Fresh(Return(Num(5))), Identity, Undefined) == Res(Normal(Num(5)), []);
  }

  function FiveBlock(k: Value): Comp { Return(Num(5)) }

  /** `function* () { yield* shift(function* () { return 5; }); }` */
  function ShiftFive(): Comp { Then(Shift(FiveBlock), Discard) }

  /**
   * The shift block's value is the value of `evaluate`; the code after the
   * shift has not run: its continuation is still not continued.
   */
  lemma ShiftReturnsFive()
    ensures exists r :: EvalsTo([], Fresh(ShiftFive()), Identity, Undefined, r) &&
                        r.out == Normal(Num(5)) && |r.store| == 1 && !r.store[0].continued
  {
    var s := Step(2, [], ShiftFive());
    assert s.next.Yielded? && s.next.request == ShiftC(FiveBlock) && s.store == [];
    var st1 := [Cell(false, Undefined, s.next.resume)];
    assert Step(1, st1, FiveBlock(KFn(0))) == Stepped(Completed(Num(5)), st1);
    assert Eval(2, st1, Fresh(FiveBlock(KFn(0))), Identity, Undefined) == Res(Normal(Num(5)), st1);
    var r := Eval(3, [], Fresh(ShiftFive()), Identity, Undefined);
    assert r == Res(Normal(Num(5)), st1);
    assert EvalsTo([], Fresh(ShiftFive()), Identity, Undefined, r);
  }

  function Tenfold(e: Value): Comp { Return(Mul(10, e)) }

  function SecondShift(middle: Value): Comp { Then(Shift(KeepK), Tenfold) }

  /**
   * `middle = yield* shift(k => k); end = yield* shift(k => k); return end * 10;`
   */
  function TwoPoints(): Comp { Then(Shift(KeepK), SecondShift) }

  /**
   * `evaluate` returns the first continuation; calling it resumes up to
   * the second shift and returns the second continuation; calling it
   * again returns the same continuation without resuming; the second
   * continuation called with 10 returns 100, and called again with 100
   * still returns 100.
   */
  lemma EachPointResumesOnce()
    ensures var r0 := Eval(4, [], Fresh(TwoPoints()), Identity, Undefined);
            r0.out == Normal(KFn(0)) && |r0.store| == 1 &&
            var r1 := Invoke(6, r0.store, 0, Str("reached middle"));
            r1.out == Normal(KFn(1)) && |r1.store| == 2 &&
            var r2 := Invoke(6, r1.store, 0, Str("continue"));
            r2 == r1 &&
            var r3 := Invoke(6, r1.store, 1, Num(10));
            r3.out == Normal(Num(100)) && |r3.store| == 2 &&
            var r4 := Invoke(6, r3.store, 1, Num(100));
            r4 == r3
  {
    var s0 := Step(3, [], TwoPoints());
    assert s0.next.Yielded? && s0.next.request == ShiftC(KeepK) && s0.store == [];
    assert s0.next.resume == Delegate(ReturnIt, SecondShift);
    var c0 := s0.next.resume;
    var st0 := [Cell(false, Undefined, c0)];
    assert Eval(3, st0, Fresh(KeepK(KFn(0))), Identity, Undefined) == Res(Normal(KFn(0)), st0);
    var r0 := Eval(4, [], Fresh(TwoPoints()), Identity, Undefined);
    assert r0 == Res(Normal(KFn(0)), st0);

    var m0 := [Cell(true, Undefined, c0)];
    assert ReturnIt(Str("reached middle")) == Return(Str("reached middle"));
    assert c0(Str("reached middle")) == Then(ReturnIt(Str("reached middle")), SecondShift);
    assert Start(Suspended(c0), Str("reached middle")) == Then(Return(Str("reached middle")), SecondShift);
    var s1 := Step(4, m0, Then(Return(Str("reached middle")), SecondShift));
    assert Step(3, m0, SecondShift(Str("reached middle"))).next.Yielded?;
    assert s1.next.Yielded? && s1.next.request == ShiftC(KeepK) && s1.store == m0;
    assert s1.next.resume == Delegate(ReturnIt, Tenfold);
    var c1 := s1.next.resume;
    var st1 := m0 + [Cell(false, Undefined, c1)];
    assert Eval(4, st1, Fresh(KeepK(KFn(1))), Identity, Undefined) == Res(Normal(KFn(1)), st1);
    assert Eval(5, m0, Suspended(c0), Identity, Str("reached middle")) == Res(Normal(KFn(1)), st1);
    var r1 := Invoke(6, st0, 0, Str("reached middle"));
    assert r1 == Res(Normal(KFn(1)), [Cell(true, KFn(1), c0), Cell(false, Undefined, c1)]);

    var m1 := [Cell(true, KFn(1), c0), Cell(true, Undefined, c1)];
    assert ReturnIt(Num(10)) == Return(Num(10));
    assert c1(Num(10)) == Then(ReturnIt(Num(10)), Tenfold);
    assert Start(Suspended(c1), Num(10)) == Then(Return(Num(10)), Tenfold);
    assert Step(4, m1, Then(Return(Num(10)), Tenfold)) == Stepped(Completed(Num(100)), m1);
    assert Eval(5, m1, Suspended(c1), Identity, Num(10)) == Res(Normal(Num(100)), m1);
  }

  function ZeroBlock(k: Value): Comp { Return(Num(0)) }

  function Product(xs: seq<int>): int {
    if |xs| == 0 then 1 else xs[0] * Product(xs[1..])
  }

  /**
   * `times([first, ...rest])`: a shift that returns 0 at the first zero,
   * 1 at the end of the list, otherwise `first * (yield* times(rest))`.
   */
  function Times(xs: seq<int>): Comp
    decreases |xs|
  {
    if |xs| == 0 then Return(Num(1))
    else if xs[0] == 0 then Then(Shift(ZeroBlock), ReturnIt)
    else Then(Times(xs[1..]), v => Return(Mul(xs[0], v)))
  }

  /**
   * Without a zero, `times` completes with the product; with one, it stops
   * at the first zero's shift and has multiplied nothing yet.
   */
  lemma {:induction false} TimesSteps(f: nat, st: Store, xs: seq<int>)
    requires f > |xs|
    ensures 0 !in xs ==> Step(f, st, Times(xs)) == Stepped(Completed(Num(Product(xs))), st)
    ensures 0 in xs ==> var s := Step(f, st, Times(xs));
                        s.next.Yielded? && s.next.request == ShiftC(ZeroBlock) && s.store == st
    decreases |xs|
  {
    if |xs| > 0 && xs[0] != 0 {
      TimesSteps(f - 1, st, xs[1..]);
      assert 0 in xs <==> 0 in xs[1..] by {
        assert xs == [xs[0]] + xs[1..];
      }
    }
  }

  /**
   * `evaluate(() => times(xs))` gives 0 when `xs` holds a zero (the rest
   * of the recursion is discarded) and the product of `xs` otherwise.
   */
  lemma TimesEvaluates(xs: seq<int>)
    ensures Eval(|xs| + 3, [], Fresh(Times(xs)), Identity, Undefined).out ==
            Normal(Num(if 0 in xs then 0 else Product(xs)))
  {
    var f := |xs| + 3;
    TimesSteps(f - 1, [], xs);
    if 0 in xs {
      var s := Step(f - 1, [], Times(xs));
      assert s == Stepped(Yielded(ShiftC(ZeroBlock), s.next.resume), []);
      var st1 := [] + [Cell(false, Undefined, s.next.resume)];
      assert Eval(f - 1, st1, Fresh(ZeroBlock(KFn(0))), Identity, Undefined) == Res(Normal(Num(0)), st1);
      assert Eval(f, [], Fresh(Times(xs)), Identity, Undefined) == Res(Normal(Num(0)), st1);
    }
  }

  /** The two runs in the tests: an early exit and a full product. */
  lemma TimesExamples()
    ensures Eval(8, [], Fresh(Times([8, 0, 5, 2, 3])), Identity, Undefined).out == Normal(Num(0))
    ensures Eval(8, [], Fresh(Times([8, 1, 5, 2, 3])), Identity, Undefined).out == Normal(Num(240))
  {
    TimesEvaluates([8, 0, 5, 2, 3]);
    TimesEvaluates([8, 1, 5, 2, 3]);
    assert 0 !in [8, 1, 5, 2, 3];
    assert Product([8, 1, 5, 2, 3]) == 240 by {
      assert [8, 1, 5, 2, 3][1..] == [1, 5, 2, 3];
      assert [1, 5, 2, 3][1..] == [5, 2, 3];
      assert [5, 2, 3][1..] == [2, 3];
      assert [2, 3][1..] == [3];
      assert [3][1..] == [];
    }
  }

  function Doubling(result: Value): Value -> Comp {
    k => Return(Mul(2, result))
  }

  function AfterFirst(result: Value): Comp { Then(Shift(Doubling(result)), Discard) }

  /**
   * `let k = yield* reset(function* () { let result = yield* shift(k => k);
   * yield* shift(() => result * 2); }); return k;`
   */
  function NestedReset(): Comp { Then(Reset(Then(Shift(KeepK), AfterFirst)), KeepK) }

  /**
   * The reset's body hands its continuation out through the outer
   * generator; calling it with 5 returns 10, the value of the next shift
   * reached after the resumption, not the value of the first one.
   */
  lemma NextShiftPointIsResult()
    ensures var r0 := Eval(8, [], Fresh(NestedReset()), Identity, Undefined);
            r0.out == Normal(KFn(0)) && |r0.store| == 1 &&
            Invoke(8, r0.store, 0, Num(5)).out == Normal(Num(10))
  {
    var s0 := Step(7, [], NestedReset());
    assert s0.next.Yielded? && s0.next.request == ResetC(Then(Shift(KeepK), AfterFirst)) && s0.store == [];
    assert s0.next.resume == Delegate(ReturnIt, KeepK);
    var outer := s0.next.resume;
    var s1 := Step(6, [], Then(Shift(KeepK), AfterFirst));
    assert s1.next.Yielded? && s1.next.request == ShiftC(KeepK) && s1.store == [];
    assert s1.next.resume == Delegate(ReturnIt, AfterFirst);
    var inner := s1.next.resume;
    var st := [Cell(false, Undefined, inner)];
    assert ReturnIt(KFn(0)) == Return(KFn(0));
    assert outer(KFn(0)) == Then(ReturnIt(KFn(0)), KeepK);
    assert Start(Suspended(outer), KFn(0)) == Then(Return(KFn(0)), KeepK);
    assert Eval(4, st, Suspended(outer), Identity, KFn(0)) == Res(Normal(KFn(0)), st);
    assert Eval(6, st, Fresh(KeepK(KFn(0))), ResumeOuter(outer, Identity), Undefined) == Res(Normal(KFn(0)), st);
    assert Eval(7, [], Fresh(Then(Shift(KeepK), AfterFirst)), ResumeOuter(outer, Identity), Undefined)
        == Res(Normal(KFn(0)), st);
    assert Eval(8, [], Fresh(NestedReset()), Identity, Undefined) == Res(Normal(KFn(0)), st);

    var m := [Cell(true, Undefined, inner)];
    assert ReturnIt(Num(5)) == Return(Num(5));
    assert inner(Num(5)) == Then(ReturnIt(Num(5)), AfterFirst);
    assert Start(Suspended(inner), Num(5)) == Then(Return(Num(5)), AfterFirst);
    var s2 := Step(6, m, Then(Return(Num(5)), AfterFirst));
    assert Step(5, m, AfterFirst(Num(5))).next.Yielded?;
    assert s2.next.Yielded? && s2.next.request == ShiftC(Doubling(Num(5))) && s2.store == m;
    var st2 := m + [Cell(false, Undefined, s2.next.resume)];
    assert Eval(6, st2, Fresh(Doubling(Num(5))(KFn(1))), Identity, Undefined) == Res(Normal(Num(10)), st2);
    assert Eval(7, m, Suspended(inner), Identity, Num(5)) == Res(Normal(Num(10)), st2);
  }

  function ThrowBlock(k: Value): Comp { Throw(Error("boom!")) }

  /** An error thrown by the top block, a reset's block or a shift's block leaves `evaluate`. */
  lemma ErrorsLeaveEvaluate()
    ensures Eval(2, [], Fresh(Throw(Error("boom!"))), Identity, Undefined).out == Thrown(Error("boom!"))
    ensures Eval(4, [], Fresh(Then(Reset(Throw(Error("boom!"))), Discard)), Identity, Undefined).out
            == Thrown(Error("boom!"))
    ensures Eval(6, [], Fresh(Then(Reset(Then(Shift(ThrowBlock), Discard)), Discard)), Identity, Undefined).out
            == Thrown(Error("boom!"))
  {
    var s0 := Step(3, [], Then(Reset(Throw(Error("boom!"))), Discard));
    assert s0.next.Yielded? && s0.next.request == ResetC(Throw(Error("boom!")));
    assert Eval(3, [], Fresh(Throw(Error("boom!"))), ResumeOuter(s0.next.resume, Identity), Undefined).out
        == Thrown(Error("boom!"));

    var body := Then(Shift(ThrowBlock), Discard);
    var s1 := Step(5, [], Then(Reset(body), Discard));
    assert s1.next.Yielded? && s1.next.request == ResetC(body) && s1.store == [];
    var d := ResumeOuter(s1.next.resume, Identity);
    var s2 := Step(4, [], body);
    assert s2.next.Yielded? && s2.next.request == ShiftC(ThrowBlock) && s2.store == [];
    var st := [Cell(false, Undefined, s2.next.resume)];
    assert Eval(4, st, Fresh(ThrowBlock(KFn(0))), d, Undefined).out == Thrown(Error("boom!"));
    assert Eval(5, [], Fresh(body), d, Undefined).out == Thrown(Error("boom!"));
  }

  function SelfCall(x: Value): Comp { Call(x, Num(1), ReturnIt) }

  /**
   * A continuation called with itself, whose resumption calls it again:
   * the inner call finds the cell already continued and returns the
   * not-yet-assigned `result` instead of resuming the generator twice.
   */
  lemma ReentrantCallSeesUnsetResult()
    ensures var r0 := Eval(4, [], Fresh(Then(Shift(KeepK), SelfCall)), Identity, Undefined);
            r0.out == Normal(KFn(0)) && |r0.store| == 1 &&
            var r1 := Invoke(6, r0.store, 0, KFn(0));
            r1.out == Normal(Undefined) && |r1.store| == 1 &&
            r1.store[0].continued && r1.store[0].result == Undefined
  {
    var s0 := Step(3, [], Then(Shift(KeepK), SelfCall));
    assert s0.next.Yielded? && s0.next.request == ShiftC(KeepK) && s0.store == [];
    assert s0.next.resume == Delegate(ReturnIt, SelfCall);
    var c := s0.next.resume;
    var st := [Cell(false, Undefined, c)];
    assert Eval(3, st, Fresh(KeepK(KFn(0))), Identity, Undefined) == Res(Normal(KFn(0)), st);
    assert Eval(4, [], Fresh(Then(Shift(KeepK), SelfCall)), Identity, Undefined) == Res(Normal(KFn(0)), st);
    var m := [Cell(true, Undefined, c)];
    assert ReturnIt(KFn(0)) == Return(KFn(0));
    assert c(KFn(0)) == Then(ReturnIt(KFn(0)), SelfCall);
    assert Start(Suspended(c), KFn(0)) == Then(Return(KFn(0)), SelfCall);
    assert Invoke(2, m, 0, Num(1)) == Res(Normal(Undefined), m);
    assert Step(3, m, SelfCall(KFn(0))) == Stepped(Completed(Undefined), m);
    assert Step(4, m, Then(Return(KFn(0)), SelfCall)) == Stepped(Completed(Undefined), m);
    assert Eval(5, m, Suspended(c), Identity, KFn(0)) == Res(Normal(Undefined), m);
  }

  function Bing(v: Value): Comp { Throw(Error("bing 1")) }

  /**
   * `yield* shift(k => k); throw new Error("bing 1")`: the first call of
   * the continuation throws; the second returns the unset `result`
   * without running the throwing code again.
   */
  lemma ThrowingContinuation()
    ensures var r0 := Eval(4, [], Fresh(Then(Shift(KeepK), Bing)), Identity, Undefined);
            r0.out == Normal(KFn(0)) && |r0.store| == 1 &&
            var r1 := Invoke(6, r0.store, 0, Undefined);
            r1.out == Thrown(Error("bing 1")) && |r1.store| == 1 &&
            Invoke(6, r1.store, 0, Undefined).out == Normal(Undefined)
  {
    var s0 := Step(3, [], Then(Shift(KeepK), Bing));
    assert s0.next.Yielded? && s0.next.request == ShiftC(KeepK) && s0.store == [];
    assert s0.next.resume == Delegate(ReturnIt, Bing);
    var c := s0.next.resume;
    var st := [Cell(false, Undefined, c)];
    assert Eval(3, st, Fresh(KeepK(KFn(0))), Identity, Undefined) == Res(Normal(KFn(0)), st);
    assert Eval(4, [], Fresh(Then(Shift(KeepK), Bing)), Identity, Undefined) == Res(Normal(KFn(0)), st);
    var m := [Cell(true, Undefined, c)];
    assert ReturnIt(Undefined) == Return(Undefined);
    assert c(Undefined) == Then(ReturnIt(Undefined), Bing);
    assert Start(Suspended(c), Undefined) == Then(Return(Undefined), Bing);
    assert Eval(5, m, Suspended(c), Identity, Undefined) == Res(Thrown(Error("bing 1")), m);
  }

  function CallWithFive(k: Value): Comp { Call(k, Num(5), ReturnIt) }

  /**
   * A shift block that calls its continuation at once with 5: the
   * generator resumes with 5, completes, and 5 is the block's value.
   */
  lemma ImmediateResume()
    ensures Eval(6, [], Fresh(Then(Shift(CallWithFive), ReturnIt)), Identity, Undefined).out == Normal(Num(5))
  {
    var s0 := Step(5, [], Then(Shift(CallWithFive), ReturnIt));
    assert s0.next.Yielded? && s0.next.request == ShiftC(CallWithFive) && s0.store == [];
    assert s0.next.resume == Delegate(ReturnIt, ReturnIt);
    var c := s0.next.resume;
    var st := [Cell(false, Undefined, c)];
    var m := [Cell(true, Undefined, c)];
    assert ReturnIt(Num(5)) == Return(Num(5));
    assert c(Num(5)) == Then(ReturnIt(Num(5)), ReturnIt);
    assert Start(Suspended(c), Num(5)) == Then(Return(Num(5)), ReturnIt);
    assert Eval(3, m, Suspended(c), Identity, Num(5)) == Res(Normal(Num(5)), m);
    var done := [Cell(true, Num(5), c)];
    assert Invoke(4, st, 0, Num(5)) == Res(Normal(Num(5)), done);
    assert Step(4, st, CallWithFive(KFn(0))) == Stepped(Completed(Num(5)), done);
    assert Eval(5, st, Fresh(CallWithFive(KFn(0))), Identity, Undefined) == Res(Normal(Num(5)), done);
  }
}
