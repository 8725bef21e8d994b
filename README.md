# One-shot delimited continuations: a Dafny model of `mod.ts`

This project models the evaluator of the `continuation` library: the two
control operators `reset` and `shift`, the recursive interpreter `evaluate`,
and the one-shot continuation `k` that a `shift` hands to its block. It proves
what these do.

- **Generators.** A generator is the datatype `Vocabulary.Comp`. It either
  returns a value, throws an error, yields a `Control` request together with
  the function that resumes it, calls a value as a function, or runs one piece
  of generator code and passes its value on (`Then`, which is `yield*`).
  `reset` and `shift` are `Operators.Reset` and `Operators.Shift`: generators
  that yield a single request and then return whatever they are resumed with.
  A generator suspended inside a `yield*` is resumed through
  `Semantics.Delegate`, which resumes the inner generator and then goes on
  with the outer one.
- **`evaluate(block, done, value)`.** This is `Semantics.Eval`. The `done`
  callback is a stack of frames, `Semantics.Done`. `Identity` is the default
  `v => v`. `ResumeOuter(cont, outer)` is the `done` that a reset installs,
  `v => evaluate(() => cont, outer, v)`. A `done` supplied by a caller is
  not modelled (see "Left out").
- **Continuations.** Each continuation `k` is a cell in a store. A cell holds
  `continued`, `result` and the suspended generator. Inside generator code a
  continuation is the value `KFn(i)`, the index of its cell. `Semantics.Invoke`
  is `k(value)`.
- **Fuel.** `evaluate` may be re-entered from a shift block that calls `k`, so
  the recursion is not well-founded. `Step`, `Eval`, `Apply` and `Invoke` take a fuel
  bound and report `OutOfFuel` when the bound runs out. The module `Fuel`
  proves that more fuel never changes a finished run. `EvalsTo` and its
  siblings then state outcomes without any bound. Each property is stated
  either for a given bound or without one, and the monotonicity lemmas of
  `Fuel` connect the two.
- **Heap state.** The module `Runtime` does the same on the heap. `K` is a
  class whose fields `continued` and `result` are updated in place, the way
  the variables captured by the closure in mod.ts:41-50 are. `Heap` holds the
  continuations made so far. Each method is proved to return exactly the
  outcome of the pure function and to leave exactly its store in the objects.

Where a generator calls something that is not a continuation, the model
raises `NotCallable`. JavaScript would raise a `TypeError` there.

A first call of `k` that throws is not cached. mod.ts:45 sets `continued`
first, and in mod.ts:46 `result = evaluate(...)` is never assigned when
`evaluate` throws. A later call therefore returns the unset `result`
(`undefined`) and throws nothing. The model gives the same behaviour
(`OneShot.ThrowingFirstCallIsNotReplayed`, `Scenarios.ThrowingContinuation`).
One consequence concerns the test in t/continuation.test.ts:61-80: its second
`boom()` returns without throwing, so that test's second `catch` block never
runs.

## Model

| member | source | states |
|---|---|---|
| Semantics.Step | mod.ts:32 | Driving generator code to its next suspension keeps every existing continuation cell. A cell changes only by going from not continued to continued, with the same generator. New cells are only ever appended. |
| Semantics.Eval | mod.ts:30-53 | The invariant above holds across a whole `evaluate`: no continuation is ever un-continued or given a different generator. |
| Semantics.Apply | mod.ts:30-39 | Calling a `done` frame (identity, or the frame a reset installs) keeps the same invariant on the store. |
| Semantics.Invoke | mod.ts:41-50 | `k(value)` keeps the store invariant. Once a call finishes, the cell is continued. A call that returns a value returns exactly the cell's stored `result`. |
| Fuel.StepMono | mod.ts:32 | A step that finishes within some fuel gives the same next state and store with any larger fuel. |
| Fuel.EvalMono | mod.ts:30-53 | An `evaluate` that finishes within some fuel finishes identically with any larger fuel. |
| Fuel.ApplyMono | mod.ts:34-39 | The same holds for calling `done`. |
| Fuel.InvokeMono | mod.ts:43-50 | The same holds for calling `k`. |
| Fuel.ApplyOutMono | mod.ts:39 | The same holds for handing an outcome on to outer frames. |
| Fuel.StepsToUnique | mod.ts:32 | Stepping is deterministic: generator code has at most one next state. |
| Fuel.EvalsToUnique | mod.ts:30-53 | `evaluate` is deterministic: it has at most one outcome and final store, whatever the fuel. |
| Fuel.InvokesToUnique | mod.ts:43-50 | Calling `k` is deterministic. |
| Delimiting.EvalCompose | mod.ts:39 | Evaluating under inner frames, then handing the outcome to outer frames, is evaluating under the stacked frames with the fuel of both runs. |
| Delimiting.ApplyCompose | mod.ts:39 | The same holds for calling `done`. |
| Delimiting.EvalDecompose | mod.ts:39 | Conversely, an evaluation under stacked frames finishes under the inner frames alone, and its outcome handed to the outer frames is the whole result. |
| Delimiting.ApplyDecompose | mod.ts:39 | The same holds for calling `done`. |
| Delimiting.DelimitedSplits | mod.ts:39 | With no fuel bound: a run under stacked frames splits into an inner run plus a handing-on to the outer frames. Values go to the frames; errors pass them by. |
| Delimiting.DelimitedJoins | mod.ts:39 | The converse of `DelimitedSplits`: an inner run followed by a handing-on is a run under the stacked frames. |
| Evaluation.EvalUnfold | mod.ts:31-51 | With no fuel bound, `evaluate` finishes with `r` exactly when the branch chosen by its first step finishes with `r`. The branches are completion to `done`, error, reset, and shift with a fresh cell. |
| Evaluation.EvalUnfoldSplits | mod.ts:31-51 | The forward direction of `EvalUnfold`. |
| Evaluation.EvalUnfoldJoins | mod.ts:31-51 | The backward direction of `EvalUnfold`. |
| Evaluation.DelegateSteps | mod.ts:32 | Models `Semantics.Delegate`, the suspension of a generator paused inside `yield*`. Resuming it with `x` steps to `s` exactly when the inner generator, resumed with `x`, steps to some `s1`, and then one of three things holds: the outer generator runs on `s1`'s value; the inner one suspended again and the whole is again suspended through `Delegate`; or `s1`'s error is the step's error. |
| Evaluation.DelegateSplits | mod.ts:32 | The forward direction of `DelegateSteps`. |
| Evaluation.DelegateJoins | mod.ts:32 | The backward direction of `DelegateSteps`. |
| Evaluation.ApplyIdentity | mod.ts:30 | The default `done` returns its argument and changes nothing. |
| Evaluation.ApplyResumeOuter | mod.ts:39 | The `done` a reset installs resumes the outer generator with the value, under the original `done`, in both directions. |
| Evaluation.CompletionGoesToDone | mod.ts:32-34 | If the first step completes with `v`, `evaluate` gives exactly `done(v)`. With the default `done` it gives `v`. |
| Evaluation.ErrorEscapes | mod.ts:30-53 | An error from the first step is exactly the outcome of `evaluate`, whatever `done` is. |
| Evaluation.ErrorPassesFrames | mod.ts:30-53 | An error that ends an evaluation ends it under any further `done` frames too. No reset catches it. |
| Evaluation.ResetRunsBodyFirst | mod.ts:38-39 | On a reset, `evaluate` ends with `r` exactly when the body, run alone with the identity `done`, ends with some `r1`, and then either `r1` is an error equal to `r`, or resuming the outer generator with `r1`'s value under the original `done` ends with `r`. |
| Evaluation.ShiftRunsBlock | mod.ts:40-51 | On a shift, `evaluate` appends a cell that is not continued and holds the rest of the generator. It then ends with `r` exactly when the block, given that continuation, ends with some `r1` that the original `done` turns into `r`. The rest of the generator runs only through `k`. |
| OneShot.LaterCallsReplay | mod.ts:44-49 | Once a cell is continued, `k(x)` ends with `r` exactly when `r` returns the stored `result` and leaves the store unchanged, for every `x`. |
| OneShot.FirstCallResumes | mod.ts:44-46 | On a cell that is not continued, `k(x)` ends with `r` exactly when resuming the captured generator with `x`, with the cell already marked continued and with the identity `done`, ends with some `r0`, and `r` is `r0` with a returned value also stored as `result`. |
| OneShot.FirstCallSplits | mod.ts:44-46 | The forward direction of `FirstCallResumes`. |
| OneShot.FirstCallJoins | mod.ts:44-46 | The backward direction of `FirstCallResumes`. |
| OneShot.SecondCallReplaysFirst | mod.ts:41-49 | After any finished call the cell is continued. Every later call, with any argument, returns the stored `result` and changes nothing. If the first call returned a value, the later calls return that same value. |
| OneShot.ThrowingFirstCallIsNotReplayed | mod.ts:46 | A first call that throws leaves `result` as it was. A later call returns that old value instead of throwing again. |
| Operators.Reset | mod.ts:22-24 | `reset(body)`: for any fuel and store, its first step yields one reset request for `body` and changes nothing. Resuming it with `v` completes with `v` at once. |
| Operators.Shift | mod.ts:26-28 | `shift(block)`: for any fuel and store, its first step yields one shift request for `block` and changes nothing. Resuming it with `v` completes with `v` at once. |
| Operators.ReturnItResumes | mod.ts:22-28 | Resuming a suspended `reset` or `shift` with `v` is exactly calling `done` with `v`. |
| Operators.ResetDelimits | mod.ts:22-24 | `reset(body)` as a program ends with `r` exactly when `body`, run alone with the identity `done`, ends with some `r1` that the given `done` turns into `r`. |
| Operators.ShiftReplacesProgram | mod.ts:26-28 | `shift(block)` as a program ends with `r` exactly when `block`, given a new continuation that is not continued, ends with some `r1` that `done` turns into `r`. |
| Operators.BareShiftContinuationReturnsArgument | mod.ts:26-28 | The first call of the continuation of a bare `shift` returns its argument, stores it as `result` and marks the cell continued. |
| Runtime.K.constructor | mod.ts:41-42 | A new continuation is not continued, and its `result` is unset. |
| Runtime.K.Invoke | mod.ts:43-50 | `k(value)` on the heap: it sets `continued` before resuming, stores a returned value in `result`, and on later calls returns `result`. Its outcome and the continuations' new fields are exactly those of `Semantics.Invoke`. Continuations only ever get appended, and existing ones keep their order. |
| Runtime.Heap.Next | mod.ts:32 | `prog.next` on the heap: it gives exactly the next state and store of `Semantics.Step`. |
| Runtime.Heap.Evaluate | mod.ts:30-53 | `evaluate` on the heap: on a shift it allocates a `K`. It gives exactly the outcome and store of `Semantics.Eval`. |
| Runtime.Heap.Deliver | mod.ts:34-39 | Calling `done` on the heap: it gives exactly the outcome and store of `Semantics.Apply`. |
| Scenarios.ReturnsFive | t/continuation.test.ts:6-13 | A generator that returns 5 evaluates to 5. |
| Scenarios.ShiftReturnsFive | t/continuation.test.ts:15-24 | A shift whose block returns 5 makes the whole evaluation return 5. Its continuation is never continued, so the code after the shift never runs. |
| Scenarios.EachPointResumesOnce | t/continuation.test.ts:26-59 | The first shift point's `k` returns the second point's `k`; called again, it returns the same `k` and changes nothing. The second `k(10)` returns 100, and `k(100)` afterwards still returns 100. |
| Scenarios.ThrowingContinuation | t/continuation.test.ts:61-80 | The first call of the captured `k` throws "bing 1". The second returns the unset `result` without throwing. |
| Scenarios.TimesSteps | t/continuation.test.ts:83-93 | Models `Scenarios.Times`, the test's recursive `times`. With enough fuel, for every list: without a 0 it completes with the product of the list, leaving the store as it was; with a 0 it suspends at a shift whose block returns 0, before multiplying anything. |
| Scenarios.TimesEvaluates | t/continuation.test.ts:82-97 | Evaluating `times(xs)` gives 0 if `xs` holds 0 and the product otherwise, for every list. |
| Scenarios.TimesExamples | t/continuation.test.ts:95-96 | `times([8, 0, 5, 2, 3])` gives 0 and `times([8, 1, 5, 2, 3])` gives 240. |
| Scenarios.NextShiftPointIsResult | t/continuation.test.ts:99-113 | The `k` that escapes a reset, called with 5, returns 10, the value of the following shift point. |
| Scenarios.ErrorsLeaveEvaluate | t/error.test.ts:5-27 | "boom!" thrown at top level, in a reset, or in a shift block inside a reset, escapes `evaluate`. |
| Scenarios.ReentrantCallSeesUnsetResult | mod.ts:44-46 | A continuation that calls itself while its first resumption runs gets the unset `result` back instead of resuming twice. |
| Scenarios.ImmediateResume | mod.ts:43-51 | A shift block that calls `k(5)` at once resumes the generator, which completes with 5. |

## Left out

- Host generators. `Symbol.iterator`, iterator objects and `yield*` are host machinery. Generator code is the abstract `Comp`, and `yield*` is `Then`.
- The mutable iterator `prog`. A suspension is a pure resume function here, not an iterator that `prog.next` advances in place. The two agree because each suspension is resumed at most once: a shift's by the one-shot `k`, and a reset's by the single call of its `done`.
- `try`/`catch` and `finally` inside generators. Errors injected into a suspended generator through `reject` (t/error.test.ts:29-67) are also left out. `mod.ts` passes a shift block only `k`, never calls `prog.throw`, and `Comp` has no handler form.
- Resource cleanup of abandoned continuations. The structural tests (t/structural.test.ts:6, 22) are disabled.
- Trampolining and the host stack limit. mod.ts has no trampoline: `evaluate` recurses in the host at mod.ts:39, 46, 51. The model has no stack-overflow error. A run deep enough to overflow the JavaScript stack throws a `RangeError` there, but finishes normally in the model given enough fuel.
- Semantics.Eval: a run is bounded by fuel. A computation that never finishes gives `OutOfFuel` for every bound. In JavaScript the same run ends with the stack overflow above. Properties are stated either at a given bound (`Delimiting`, most of `Scenarios`) or without one (`Fuel.EvalsTo` and its siblings, used by `Evaluation`, `OneShot` and `Operators`). The monotonicity lemmas of `Fuel` connect the two forms.
- Semantics.Eval: only the default `done` (`v => v`) and the frames a reset installs are modelled. `evaluate` is exported with an optional `done` parameter (mod.ts:30), and a caller could pass any callback there: one that throws, or one that calls continuations. No caller in mod.ts or its tests passes one.
- Vocabulary.Value: a JavaScript number is an IEEE double, but `Num` holds an unbounded integer. Arithmetic in the test programs (`Scenarios.Mul`, `Scenarios.Product`) is exact integer arithmetic. Non-integer numbers, rounding above 2^53, `NaN` and infinities are not modelled.
- Scenarios.TimesEvaluates: this states the exact integer product for every list of integers. JavaScript agrees only while every partial product stays below 2^53, and the test's `number[]` also admits non-integers.
- Calling a value that is not a continuation. The model raises `NotCallable` instead of a host `TypeError` with its message.
- Mutable local variables of the test programs (`beginning`, `middle`, `end`, `bing`). Only the values the tests return are modelled.
- npm.ts, test.ts and the test helpers. They handle packaging and test running.
- Type-level `Block`/`K`/`Control` generics (mod.ts:3-20). Values are one untyped `Value` datatype.
