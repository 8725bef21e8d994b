/**
 * The one-shot continuation `k`: its first call resumes the captured
 * generator, every later call replays the stored `result`.
 */
module OneShot {
  import opened Vocabulary
  import opened Semantics
  import opened Fuel

  /**
   * Once cell `i` is continued, every call of `k` returns the stored
   * `result`, whatever its argument, and changes nothing.
   */
  lemma LaterCallsReplay(st: Store, i: nat, x: Value, r: Res)
    requires i < |st| && st[i].continued
    ensures InvokesTo(st, i, x, r) <==> r == Res(Normal(st[i].result), st)
  {
    assert Invoke(0, st, i, x) == Res(Normal(st[i].result), st);
    if InvokesTo(st, i, x, r) {
      InvokesToUnique(st, i, x, r, Res(Normal(st[i].result), st));
    }
  }

  /**
   * The first call `k(x)` marks the cell continued, resumes the captured
   * generator with `x` as the value of its `shift` expression, evaluates
   * the rest of the computation with the identity `done`, and stores the
   * value it returns.
   */
  lemma FirstCallResumes(st: Store, i: nat, x: Value, r: Res)
    requires i < |st| && !st[i].continued
    ensures InvokesTo(st, i, x, r) <==>
            exists r0 :: EvalsTo(Marked(st, i), Suspended(st[i].cont), Identity, x, r0) &&
                         |r0.store| > i && r == Recorded(r0, i)
  {
    if InvokesTo(st, i, x, r) {
      FirstCallSplits(st, i, x, r);
    }
    if exists r0 :: EvalsTo(Marked(st, i), Suspended(st[i].cont), Identity, x, r0) &&
                    |r0.store| > i && r == Recorded(r0, i) {
      var r0 :| EvalsTo(Marked(st, i), Suspended(st[i].cont), Identity, x, r0) &&
                |r0.store| > i && r == Recorded(r0, i);
      FirstCallJoins(st, i, x, r0);
    }
  }

  lemma FirstCallSplits(st: Store, i: nat, x: Value, r: Res)
    requires i < |st| && !st[i].continued && InvokesTo(st, i, x, r)
    ensures exists r0 :: EvalsTo(Marked(st, i), Suspended(st[i].cont), Identity, x, r0) &&
                         |r0.store| > i && r == Recorded(r0, i)
  {
    var f: nat :| Invoke(f, st, i, x) == r;
    var r0 := Eval(f - 1, Marked(st, i), Suspended(st[i].cont), Identity, x);
    assert EvalsTo(Marked(st, i), Suspended(st[i].cont), Identity, x, r0);
  }

  lemma FirstCallJoins(st: Store, i: nat, x: Value, r0: Res)
    requires i < |st| && !st[i].continued
    requires EvalsTo(Marked(st, i), Suspended(st[i].cont), Identity, x, r0) && |r0.store| > i
    ensures InvokesTo(st, i, x, Recorded(r0, i))
  {
    var f: nat :| Eval(f, Marked(st, i), Suspended(st[i].cont), Identity, x) == r0;
    assert Invoke(f + 1, st, i, x) == Recorded(r0, i);
  }

  /**
   * After a call of `k` has finished, any further call, with any argument,
   * returns what the cell holds and changes nothing; when that first call
   * returned a value, the later ones return the same value.
   */
  lemma SecondCallReplaysFirst(st: Store, i: nat, x: Value, y: Value, r1: Res)
    requires i < |st| && InvokesTo(st, i, x, r1)
    ensures i < |r1.store| && r1.store[i].continued
    ensures InvokesTo(r1.store, i, y, Res(Normal(r1.store[i].result), r1.store))
    ensures r1.out.Normal? ==> InvokesTo(r1.store, i, y, r1)
  {
    var f: nat :| Invoke(f, st, i, x) == r1;
    LaterCallsReplay(r1.store, i, y, Res(Normal(r1.store[i].result), r1.store));
  }

  /**
   * A first call that throws leaves `result` as it was, so a later call
   * returns that old value instead of throwing the error again.
   */
  lemma ThrowingFirstCallIsNotReplayed(st: Store, i: nat, x: Value, y: Value, r1: Res)
    requires i < |st| && !st[i].continued
    requires InvokesTo(st, i, x, r1) && r1.out.Thrown?
    ensures i < |r1.store| && r1.store[i].result == st[i].result
    ensures InvokesTo(r1.store, i, y, Res(Normal(st[i].result), r1.store))
  {
    var f: nat :| Invoke(f, st, i, x) == r1;
    var m := Marked(st, i);
    var r0 := Eval(f - 1, m, Suspended(st[i].cont), Identity, x);
    assert r1 == r0;
    assert r0.store[i] == m[i];
    LaterCallsReplay(r1.store, i, y, Res(Normal(st[i].result), r1.store));
  }
}
