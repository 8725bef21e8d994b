/**
 * What the two operators `reset` and `shift` mean as whole programs:
 * each yields its request once and returns whatever it is resumed with,
 * so `reset(body)` delimits `body`, and `shift(block)` hands `block` a
 * continuation that, if it is called, returns its argument.
 */
module Operators {
  import opened Vocabulary
  import opened Semantics
  import opened Fuel
  import opened Evaluation

  /**
   * `reset(block)`: its first step, whatever the fuel and store, yields one
   * reset request for `body` and changes nothing; resuming it with `v`
   * completes with `v` at once.
   */
  function Reset(body: Comp): (r: Comp)
    ensures r.Yield?
    ensures forall f: nat, st: Store :: Step(f, st, r) == Stepped(Yielded(ResetC(body), r.resume), st)
    ensures forall f: nat, st: Store, v: Value :: Step(f, st, r.resume(v)) == Stepped(Completed(v), st)
  {
    Yield(ResetC(body), ReturnIt)
  }

  /**
   * `shift(block)`: its first step yields one shift request for `block` and
   * changes nothing; resuming it with `v` completes with `v` at once.
   */
  function Shift(block: Value -> Comp): (r: Comp)
    ensures r.Yield?
    ensures forall f: nat, st: Store :: Step(f, st, r) == Stepped(Yielded(ShiftC(block), r.resume), st)
    ensures forall f: nat, st: Store, v: Value :: Step(f, st, r.resume(v)) == Stepped(Completed(v), st)
  {
    Yield(ShiftC(block), ReturnIt)
  }

  /** Resuming what `reset` or `shift` left suspended returns the value sent to it. */
  lemma ReturnItResumes(st: Store, d: Done, v: Value, r: Res)
    ensures EvalsTo(st, Suspended(ReturnIt), d, v, r) <==> AppliesTo(st, d, v, r)
  {
    assert Step(0, st, ReturnIt(v)) == Stepped(Completed(v), st);
    CompletionGoesToDone(st, Suspended(ReturnIt), d, v, v, st, r);
  }

  /**
   * `reset(body)` run as a program finishes with `r` exactly when `body`,
   * run on its own with the identity `done`, finishes with some `r1` that
   * the given `done` turns into `r`.
   */
  lemma ResetDelimits(st: Store, body: Comp, d: Done, x: Value, r: Res)
    ensures EvalsTo(st, Fresh(Reset(body)), d, x, r) <==>
            exists r1 :: EvalsTo(st, Fresh(body), Identity, Undefined, r1) && ResumesTo(r1, d, r)
  {
    assert Step(0, st, Reset(body)) == Stepped(Yielded(ResetC(body), ReturnIt), st);
    ResetRunsBodyFirst(st, Fresh(Reset(body)), d, x, body, ReturnIt, st, r);
    forall r1: Res | r1.out.Normal?
      ensures EvalsTo(r1.store, Suspended(ReturnIt), d, r1.out.value, r) <==> AppliesTo(r1.store, d, r1.out.value, r)
    {
      ReturnItResumes(r1.store, d, r1.out.value, r);
    }
  }

  /**
   * `shift(block)` run as a program adds one cell that is not continued
   * and whose generator is the rest of `shift` itself, then runs `block`
   * with that continuation in place of the program.
   */
  lemma ShiftReplacesProgram(st: Store, block: Value -> Comp, d: Done, x: Value, r: Res)
    ensures EvalsTo(st, Fresh(Shift(block)), d, x, r) <==>
            exists r1 :: EvalsTo(st + [Cell(false, Undefined, ReturnIt)], Fresh(block(KFn(|st|))), Identity, Undefined, r1) &&
                         ResumesTo(r1, d, r)
  {
    assert Step(0, st, Shift(block)) == Stepped(Yielded(ShiftC(block), ReturnIt), st);
    ShiftRunsBlock(st, Fresh(Shift(block)), d, x, block, ReturnIt, st, r);
  }

  /**
   * The first call of the continuation of a bare `shift` returns its
   * argument and records it; the cell is then continued.
   */
  lemma BareShiftContinuationReturnsArgument(st: Store, i: nat, x: Value)
    requires i < |st| && !st[i].continued && st[i].cont == ReturnIt
    ensures InvokesTo(st, i, x, Res(Normal(x), st[i := Cell(true, x, ReturnIt)]))
  {
    assert Invoke(2, st, i, x) == Res(Normal(x), st[i := Cell(true, x, ReturnIt)]);
  }
}
