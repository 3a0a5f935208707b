# Parallel circuit solver: a Dafny model of its decision logic

This project models the evaluation core of the `cp2024` parallel circuit solver. A circuit
is a finite tree of gates (NOT, AND, OR, GT, LT, IF) over boolean leaves.
`ParallelCircuitSolver.solve` submits the root node to a shared thread pool.
`recursiveSolve` evaluates each node. For AND, OR, GT and LT it fans the children out as
tasks, takes their results in completion order and stops as soon as the answer is fixed.
`stop` clears an accept flag and shuts the pool down. After that, `solve` returns a
`ParallelCircuitValue` whose `getValue` always fails.

Threads only deliver results, so the model states what each gate computes and why
stopping early is safe:

- `Circuit` defines the node datatype and `Eval`, a plain sequential recursive evaluation.
  `Eval` is the reference every other result is compared with.
- `Counting` counts true values and reorders a sequence by a permutation. A completion
  order is a permutation of the child indices.
- `Outcomes` is a node's result: a boolean, or the one failure kind the solver reports
  (`InterruptedException`).
- `Threshold` is `solveWithThreshold`: the consuming loop, its break conditions, its
  early-exit soundness, and the AND/OR/GT/LT encodings.
- `Engine` is `recursiveSolve`. A `Schedule` fixes each gate's completion order and which
  tasks are interrupted. For every schedule, any value the engine returns is `Eval`'s,
  a run with no interruptions returns it, and the exact conditions under which a run
  fails are stated node kind by node kind.
- `Value` is `ParallelCircuitValue` and `getValue`'s outcome mapping.
- `Solver` models the accept flag, `solve`, `stop`, and a sequence of caller requests.

NOT is evaluated by a direct recursive call on its first child (`solveNOT`,
ParallelCircuitSolver.java:73-75). It does not go through the single-child counting rule
that IF uses.

## Model

| member | source | states |
|---|---|---|
| Engine.RecursiveSolve | src/cp2024/solution/ParallelCircuitSolver.java:55-92 | Whatever completion order each gate sees, any boolean the evaluation returns is the reference value of the circuit (leaf value, negated first child, all/any/count comparisons, IF choosing a branch). A run in which no task is interrupted always returns that value, and a node whose own task is interrupted fails. |
| Engine.LeafFailsOnlyIfInterrupted | src/cp2024/solution/ParallelCircuitSolver.java:56-57 | A leaf answers its value without waiting on anything, so it fails only when its own task is interrupted. |
| Engine.NotPropagatesFailure | src/cp2024/solution/ParallelCircuitSolver.java:73-75 | NOT fails exactly when the evaluation of its first child fails. |
| Engine.IfPropagatesFailure | src/cp2024/solution/ParallelCircuitSolver.java:88-91 | IF fails exactly when its condition fails, or when the condition succeeds and the branch it selects fails. A failure in the other branch plays no part. |
| Engine.GatePropagatesFailure | src/cp2024/solution/ParallelCircuitSolver.java:76-87 | AND, OR, GT and LT fail exactly when, taking the children's results in completion order, the gate consumes a failed result before its break condition holds. The threshold and sense are those of each gate: `n - 1` and `0` in the greater-than sense, or `k` in either sense. |
| Engine.ChildOutcomes | src/cp2024/solution/ParallelCircuitSolver.java:102-108 | The fan-out produces one result per child, in submission order. Every successful result carries that child's reference value. Without interruptions, every child succeeds. |
| Engine.CompletionOrderIrrelevant | src/cp2024/solution/ParallelCircuitSolver.java:110-129 | Two runs of the same circuit with different completion orders (and interruptions) never return different booleans. |
| Engine.IfIgnoresUntakenBranch | src/cp2024/solution/ParallelCircuitSolver.java:88-91 | Once IF's condition has a value, replacing the run of the branch it does not select, even with an interrupted one, leaves IF's result unchanged. Only one branch is awaited. |
| Engine.ThresholdScenarios | src/cp2024/solution/ParallelCircuitSolver.java:63-65 | Under every uninterrupted run, whatever the completion order: AND(true,true,false) is false, OR(false,true) is true, and GT(1; true,true,false) is true. |
| Engine.IfScenarios | src/cp2024/solution/ParallelCircuitSolver.java:88-91 | Under every uninterrupted run: IF(true,true,false) is true and IF(false,true,false) is false. |
| Threshold.SolveWithThreshold | src/cp2024/solution/ParallelCircuitSolver.java:95-140 | The results are consumed in an arbitrary completion order. The gate fails exactly when it consumes a failed result before the break condition holds, so it succeeds whenever all children did. Any value it returns is `count > threshold` (or `count < threshold`) over the full set of children. This holds for every value the unconsumed or cancelled children might have had. |
| Threshold.SolveIgnoresAfterBreak | src/cp2024/solution/ParallelCircuitSolver.java:119-137 | Once the gate breaks after the first `m` results in completion order, it returns a value, and children that had not yet arrived cannot change it. Even a failure among them is ignored, since their futures are only cancelled. |
| Threshold.Consume | src/cp2024/solution/ParallelCircuitSolver.java:112-129 | The loop keeps the invariant that every consumed result succeeded, that `gotTrue` is the number of true results among them, and that `remaining = n - consumed`. The invariant is a precondition re-established at each iteration. The loop always finishes when every result succeeded. If it fails, some result at or after the current iteration failed. The exact failure rule is `ConsumeFailsExactly`. |
| Threshold.ConsumeFailsExactly | src/cp2024/solution/ParallelCircuitSolver.java:112-136 | From any iteration, the loop fails exactly when it takes a failed result (`future.get()` throws, which is turned into `InterruptedException`) before the break condition has held after any earlier result. |
| Threshold.ConsumeIgnoresAfterBreak | src/cp2024/solution/ParallelCircuitSolver.java:119-129 | If the break condition holds after the first `m` results and all of them succeeded, the loop returns a value. Any arrival sequence with the same first `m` results gives the same value. |
| Threshold.LoopStep | src/cp2024/solution/ParallelCircuitSolver.java:113-115 | Consuming one successful result (`gotTrue++` when true, `remaining--`) preserves the loop invariant. |
| Threshold.DecidedIsExact | src/cp2024/solution/ParallelCircuitSolver.java:117-128 | The break condition (`gotTrue > k` or `remaining + gotTrue <= k`, and for the less-than sense `gotTrue >= k` or `remaining + gotTrue < k`) holds if and only if the final comparison is the same for every possible value of the remaining results. |
| Threshold.DecidedSettlesCount | src/cp2024/solution/ParallelCircuitSolver.java:119-124 | As a statement about counters: the break condition holds if and only if the comparison at line 139 gives the same answer for every final count between `gotTrue` and `gotTrue + remaining`. |
| Threshold.EarlyExit | src/cp2024/solution/ParallelCircuitSolver.java:117-139 | After a break, the comparison made on the partial count equals the comparison on the full count. |
| Threshold.ConsumeSound | src/cp2024/solution/ParallelCircuitSolver.java:112-139 | Whenever the loop returns a value, whether by early break or after consuming everything, the value equals the full-count comparison for every completion of the results it saw. |
| Threshold.ConsumeInAnyOrder | src/cp2024/solution/ParallelCircuitSolver.java:110-139 | Running the loop over the children's results in any completion order gives the same answer as the full-count comparison in submission order. |
| Threshold.SolveAND | src/cp2024/solution/ParallelCircuitSolver.java:85-87 | Threshold `n - 1` in the greater-than sense means every child is true. With no children the result is true, since `0 > -1`. The gate fails exactly when it consumes a failure before breaking. |
| Threshold.SolveOR | src/cp2024/solution/ParallelCircuitSolver.java:82-84 | Threshold `0` in the greater-than sense means at least one child is true. With no children the result is false. The gate fails exactly when it consumes a failure before breaking. |
| Threshold.SolveGT | src/cp2024/solution/ParallelCircuitSolver.java:79-81 | The result is true exactly when more than `threshold` children are true, for any integer threshold. The gate fails exactly when it consumes a failure before breaking. |
| Threshold.SolveLT | src/cp2024/solution/ParallelCircuitSolver.java:76-78 | The result is true exactly when fewer than `threshold` children are true, for any integer threshold. The gate fails exactly when it consumes a failure before breaking. |
| Threshold.AnyTrueOfOne | src/cp2024/solution/ParallelCircuitSolver.java:89-91 | IF's single-child check (threshold 0, greater-than sense) returns the child's own result, and passes on its failure. |
| Counting.Count | src/cp2024/solution/ParallelCircuitSolver.java:114 | The number of true children never exceeds the number of children. |
| Counting.CountAppend | src/cp2024/solution/ParallelCircuitSolver.java:112-115 | The count before a break plus the count of the unconsumed results is the count of all results. |
| Counting.CountReorder | src/cp2024/solution/ParallelCircuitSolver.java:112-114 | Counting true results in completion order gives the same number as counting them in submission order. |
| Counting.CountAllTrue | src/cp2024/solution/ParallelCircuitSolver.java:86 | `gotTrue >= n` holds if and only if every child is true. |
| Counting.CountAnyTrue | src/cp2024/solution/ParallelCircuitSolver.java:83 | `gotTrue > 0` holds if and only if some child is true. |
| Value.FromFuture | src/cp2024/solution/ParallelCircuitValue.java:16-19 | A value built from a future is not broken and never dereferences a missing future. An uninterrupted read returns a boolean exactly when the future returned one. |
| Value.FromFlag | src/cp2024/solution/ParallelCircuitValue.java:21-24 | A value built from a flag has no future. With the flag set, every read throws `InterruptedException`. With it clear, every read dereferences the null future. |
| Value.GetValue | src/cp2024/solution/ParallelCircuitValue.java:26-40 | A read returns a boolean only from a value that is not broken, whose future returned that boolean, to a caller that was not interrupted while waiting. It dereferences a null future exactly when the value is not broken and has no future. Every other read throws `InterruptedException`. |
| Value.BrokenAlwaysFails | src/cp2024/solution/ParallelCircuitValue.java:28-30 | A value built with the flag `true` fails on every `getValue`, whatever its future field holds and whether or not the caller is interrupted. The future is never read. |
| Value.GetValueReturnsTaskValue | src/cp2024/solution/ParallelCircuitValue.java:32 | An uninterrupted read returns a boolean `b` if and only if the root task returned `b`. |
| Value.FailuresCollapse | src/cp2024/solution/ParallelCircuitValue.java:33-39 | A task that threw, a cancelled task and an interrupted wait are all reported as the same `InterruptedException`. The read fails in exactly these cases. |
| Solver.Solve | src/cp2024/solution/ParallelCircuitSolver.java:32-45 | When computations are not accepted, `solve` returns a broken value whose every read fails, and it leaves the state, including the submission count, unchanged, whatever circuit it is given. Otherwise it submits exactly one task. The value it returns reads the circuit's reference value exactly when the run succeeds and the caller is not interrupted, and throws `InterruptedException` in every other case. |
| Solver.Stop | src/cp2024/solution/ParallelCircuitSolver.java:49-52 | `stop` clears the flag and shuts the pool down without submitting anything. Every later `solve`, for any circuit, returns a rejected value and changes nothing. |
| Solver.StopIdempotent | src/cp2024/solution/ParallelCircuitSolver.java:49-52 | A second `stop` changes nothing. |
| Solver.SubmissionsBeforeStop | src/cp2024/solution/ParallelCircuitSolver.java:33-51 | From an accepting state, the number of tasks submitted grows by exactly the number of `solve` calls made before the first `stop`. Computations remain accepted exactly when no `stop` was made. |
| Solver.FreshSolverSubmissions | src/cp2024/solution/ParallelCircuitSolver.java:28-52 | A newly constructed solver, which accepts computations, submits one root task per `solve` until the first `stop`, and none after it. |
| Solver.RejectedForGood | src/cp2024/solution/ParallelCircuitSolver.java:29-35 | Once the accept flag is false, no sequence of `solve`/`stop` calls sets it again or submits a task, and every value handed out is broken, whatever circuits the calls carry. |
| Solver.StopIsFinal | src/cp2024/solution/ParallelCircuitSolver.java:33-52 | After `stop`, whatever requests follow, nothing more is submitted and every later `solve` yields a value whose `getValue` throws `InterruptedException` on every read. |
| Solver.SolveRaceAsWritten | src/cp2024/solution/ParallelCircuitSolver.java:33-37 | `solve` as written, with a `stop` able to run between the flag check and the submission. From any reachable state, the call throws `RejectedExecutionException` exactly when it passed the flag check and a `stop` ran before it submitted. |
| Solver.StopDuringSolveThrows | src/cp2024/solution/ParallelCircuitSolver.java:33-51 | On a fresh solver, a `stop` landing between line 33 and line 37 makes `solve` throw instead of returning a value. |
| Solver.SolveRace | src/cp2024/solution/ParallelCircuitSolver.java:33-45 | `solve` with the race closed: it never throws. With no `stop` in between, and on a solver that was already stopped, it is exactly the atomic `solve`. With a `stop` in between it behaves exactly like a `solve` issued after that `stop`, and returns a rejected value. It keeps the solver's state consistent: the pool is shut down exactly when computations are no longer accepted. |

## Left out

- The thread pool, `CompletionService`, `Future.cancel(true)`, thread creation and `shutdownNow` are not modelled. A `Schedule` replaces them: it gives each gate's completion order and marks which tasks are interrupted. Cancelling the remaining children is modelled by never consuming their results.
- The interrupt checks (ParallelCircuitSolver.java:38-40, 103-105) and an interrupted `take()` are timing-dependent. They appear only as an `Interrupt` anywhere in the schedule, which makes that node's task fail.
- The link between `stop` and tasks already running is not modelled. `shutdownNow` interrupts running tasks, but whether a task observes the interrupt is timing-dependent, so an in-flight run's schedule is independent of `stop`. The model also assumes every submitted future eventually settles. A task dropped from the pool's queue by `shutdownNow` is not modelled.
- Futures that were submitted and are not cancelled when the interrupt check at ParallelCircuitSolver.java:103-105 throws are not modelled. This is thread-lifecycle behaviour, not a result.
- `volatile` visibility of the accept flag is not modelled. Only its monotone true-to-false state is.
- The `default ->` branch (ParallelCircuitSolver.java:68) is left out because it is unreachable. Nodes are a closed datatype of the seven kinds.
- The classes in `cp2024.circuit` are not part of this model. Their arity guarantees appear as the `WellFormed` precondition: NOT has at least one child and IF at least three. Extra children are allowed and ignored, as in the code.
- Java's 32-bit `int` is modelled as an unbounded integer for thresholds and counters. The code does no arithmetic on the threshold. `args.length - 1`, `gotTrue` and `remaining + gotTrue` stay within `0..n` or `-1..n`, so no wrap-around can occur.
- The constructor `ParallelCircuitValue(false)` is never called by the solver. In the model it yields a value whose `getValue` ends in `NullDereference`, mirroring the null `future` field.
- Repeated `getValue` calls returning the same outcome is not a separate lemma. `GetValue` is a pure function of an immutable value, so this holds by construction.
- Requests are served one at a time (`Serve`). The only interleaving of a caller's `solve` with another thread's `stop` that is modelled is the one under "## Findings".

## Findings

| source | as written | input that shows it | evidently intended | confidence | as-written member | corrected member |
|---|---|---|---|---|---|---|
| src/cp2024/solution/ParallelCircuitSolver.java:33-37 | `solve` reads `acceptComputations` at line 33 and then calls `executorService.submit` at line 37. The read and the submission are not atomic with `stop` (lines 50-51). | A fresh solver. Thread A calls `solve` and passes the check at line 33. Thread B then runs `stop`, which clears the flag and calls `shutdownNow`. Thread A's `submit` is refused by the shut-down pool, and `RejectedExecutionException` propagates out of `solve`. | `solve` never fails synchronously. A refused submission returns `new ParallelCircuitValue(true)`, as if `stop` had come first. | medium, not executed | Solver.SolveRaceAsWritten, Solver.StopDuringSolveThrows | Solver.SolveRace |
