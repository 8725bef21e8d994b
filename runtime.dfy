/**
 * The evaluator over real heap state. Each continuation `k` is an object
 * whose fields `continued` and `result` are the variables the closure in
 * the shift branch of `evaluate` captures; calling `k` updates them in
 * place. Every method is proved to do exactly what the reference
 * semantics says, with the store read off the heap's objects.
 */
module Runtime {
  import opened Vocabulary
  import S = Semantics

  /** The one-shot continuation made at one shift. */
  class K {
    var continued: bool
    var result: Value
    const cont: Value -> Comp
    const id: nat
    const heap: Heap

    constructor (heap: Heap, id: nat, cont: Value -> Comp)
      ensures this.heap == heap && this.id == id && this.cont == cont
      ensures !continued && result == Undefined
    {
      this.heap := heap;
      this.id := id;
      this.cont := cont;
      continued := false;
      result := Undefined;
    }

    /**
     * `k(value)`: on the first call set `continued`, resume the captured
     * generator with `value` and store what it evaluates to; afterwards
     * return `result` and ignore `value`.
     */
    method Invoke(value: Value, fuel: nat) returns (o: S.Outcome)
      requires heap.Valid() && id < |heap.ks| && heap.ks[id] == this
      modifies heap, heap.ks
      ensures heap.Valid() && old(heap.ks) <= heap.ks
      ensures forall i :: old(|heap.ks|) <= i < |heap.ks| ==> fresh(heap.ks[i])
      ensures o == S.Invoke(fuel, old(heap.Cells()), id, value).out
      ensures heap.Cells() == S.Invoke(fuel, old(heap.Cells()), id, value).store
      decreases fuel
    {
      if continued {
        o := S.Normal(result);
      } else if fuel == 0 {
        o := S.OutOfFuel;
      } else {
        continued := true;
        assert heap.Cells() == S.Marked(old(heap.Cells()), id);
        o := heap.Evaluate(fuel - 1, Suspended(cont), S.Identity, value);
        if o.Normal? {
          result := o.value;
        }
      }
    }
  }

  /** The continuations made so far, in order of creation. */
  class Heap {
    var ks: seq<K>

    ghost predicate Valid()
      reads this, ks
    {
      forall i :: 0 <= i < |ks| ==> ks[i].id == i && ks[i].heap == this
    }

    /** The store of the reference semantics that the objects hold. */
    function Cells(): S.Store
      reads this, ks
    {
      seq(|ks|, i requires 0 <= i < |ks| reads this, ks => S.Cell(ks[i].continued, ks[i].result, ks[i].cont))
    }

    constructor ()
      ensures Valid() && ks == []
    {
      ks := [];
    }

    /** `prog.next`: run generator code up to its next suspension. */
    method Next(fuel: nat, c: Comp) returns (n: S.Next)
      requires Valid()
      modifies this, ks
      ensures Valid() && old(ks) <= ks
      ensures forall i :: old(|ks|) <= i < |ks| ==> fresh(ks[i])
      ensures n == S.Step(fuel, old(Cells()), c).next && Cells() == S.Step(fuel, old(Cells()), c).store
      decreases fuel
    {
      match c
      case Return(v) => n := S.Completed(v);
      case Throw(e) => n := S.Raised(e);
      case Yield(request, resume) => n := S.Yielded(request, resume);
      case Call(f, arg, andThen) =>
        if fuel == 0 {
          n := S.Exhausted;
        } else if !f.KFn? || f.id >= |ks| {
          n := S.Raised(NotCallable(f));
        } else {
          var o := ks[f.id].Invoke(arg, fuel - 1);
          match o
          case Normal(v) => n := Next(fuel - 1, andThen(v));
          case Thrown(e) => n := S.Raised(e);
          case OutOfFuel => n := S.Exhausted;
        }
      case Then(first, rest) =>
        if fuel == 0 {
          n := S.Exhausted;
        } else {
          var n1 := Next(fuel - 1, first);
          match n1
          case Completed(v) => n := Next(fuel - 1, rest(v));
          case Yielded(request, resume) => n := S.Yielded(request, S.Delegate(resume, rest));
          case Raised(_) => n := n1;
          case Exhausted => n := n1;
        }
    }

    /** `evaluate(block, done, value)`. */
    method Evaluate(fuel: nat, b: Block, done: S.Done, value: Value) returns (o: S.Outcome)
      requires Valid()
      modifies this, ks
      ensures Valid() && old(ks) <= ks
      ensures forall i :: old(|ks|) <= i < |ks| ==> fresh(ks[i])
      ensures o == S.Eval(fuel, old(Cells()), b, done, value).out
      ensures Cells() == S.Eval(fuel, old(Cells()), b, done, value).store
      decreases fuel
    {
      if fuel == 0 {
        o := S.OutOfFuel;
        return;
      }
      var n := Next(fuel - 1, S.Start(b, value));
      ghost var st1 := Cells();
      match n
      case Completed(v) => o := Deliver(fuel - 1, done, v);
      case Raised(e) => o := S.Thrown(e);
      case Exhausted => o := S.OutOfFuel;
      case Yielded(ResetC(body), resume) =>
        o := Evaluate(fuel - 1, Fresh(body), S.ResumeOuter(resume, done), Undefined);
      case Yielded(ShiftC(block), resume) =>
        var k := new K(this, |ks|, resume);
        ks := ks + [k];
        assert Cells() == st1 + [S.Cell(false, Undefined, resume)];
        o := Evaluate(fuel - 1, Fresh(block(KFn(k.id))), done, Undefined);
    }

    /** Call the `done` continuation with `v`. */
    method Deliver(fuel: nat, done: S.Done, v: Value) returns (o: S.Outcome)
      requires Valid()
      modifies this, ks
      ensures Valid() && old(ks) <= ks
      ensures forall i :: old(|ks|) <= i < |ks| ==> fresh(ks[i])
      ensures o == S.Apply(fuel, old(Cells()), done, v).out
      ensures Cells() == S.Apply(fuel, old(Cells()), done, v).store
      decreases fuel
    {
      match done
      case Identity => o := S.Normal(v);
      case ResumeOuter(cont, outer) =>
        if fuel == 0 {
          o := S.OutOfFuel;
        } else {
          o := Evaluate(fuel - 1, Suspended(cont), outer, v);
        }
    }
  }
}
