/**
 * The request vocabulary of the delimited-continuation library: the values
 * a computation handles, the errors it throws, the computations themselves
 * (an abstract stand-in for the host's generators) and the two control
 * requests `reset` and `shift`.
 */
module Vocabulary {

  /** The errors a computation can throw. */
  datatype Error =
    | Error(message: string)   // `throw new Error(message)` in user code
    | NotCallable(callee: Value) // calling something that is not a function

  /**
   * The values computations exchange. A continuation `k` handed to a shift
   * block is a first-class value; `KFn(id)` names the one-shot cell `id`
   * of the evaluator's store.
   */
  datatype Value =
    | Undefined
    | Num(n: int)
    | Str(s: string)
    | KFn(id: nat)

  /**
   * A generator body, as far as the evaluator can observe it. Between two
   * suspensions a generator runs ordinary code, which is pure except for
   * calls of continuations (`Call`) made synchronously inside `next`.
   * `Then(c, rest)` is delegation: `rest(yield* c)`.
   */
  datatype Comp =
    | Return(value: Value)
    | Throw(error: Error)
    | Yield(request: Control, resume: Value -> Comp)
    | Call(callee: Value, arg: Value, andThen: Value -> Comp)
    | Then(first: Comp, rest: Value -> Comp)

  /**
   * The two control requests. A shift block receives the captured
   * continuation as a value; a reset body is a fresh generator.
   */
  datatype Control =
    | ShiftC(block: Value -> Comp)
    | ResetC(body: Comp)

  /**
   * What `evaluate` is asked to drive: a generator not started yet (the
   * value passed to its first `next` is ignored) or a generator suspended
   * at a yield, waiting for the value of that yield expression.
   */
  datatype Block =
    | Fresh(comp: Comp)
    | Suspended(resume: Value -> Comp)

  /** `resume(x)` hands `x` back as the value of the yield expression. */
  function ReturnIt(x: Value): Comp { Return(x) }
}
