/** `ParallelCircuitSolver` as seen by its callers: a monotone accept flag, a pool that is
    shut down once, and `solve` calls that either submit the root task or hand back a
    rejected value without touching the pool. */
module Solver {
  import opened Circuit
  import opened Outcomes
  import opened Engine
  import opened Value

  /** The solver's state: the accept flag, whether the pool has been shut down, and how
      many root tasks have been submitted to it. */
  datatype SolverState = SolverState(acceptComputations: bool, shutdown: bool, submitted: nat)

  /** The states the solver can be in: the pool is shut down exactly when computations
      are no longer accepted, since `stop` does both and nothing else changes either. */
  predicate Valid(s: SolverState) {
    s.acceptComputations <==> !s.shutdown
  }

  /** A freshly constructed solver accepts computations and has submitted nothing. */
  function Initial(): (s: SolverState)
    ensures Valid(s) && s.acceptComputations && s.submitted == 0
  {
    SolverState(true, false, 0)
  }

  /** How the root task's future settles: a failed evaluation surfaces from `get` as an
      `ExecutionException`. */
  function Settle(o: Outcome): Settlement {
    match o
    case Done(b) => Returned(b)
    case Interrupted => Threw
  }

  /** `solve`. While computations are accepted, one root task is submitted and its future
      wrapped; `sched` describes how that task's evaluation unfolds. Afterwards the call
      returns a rejected value and leaves the state as it was, without looking at the
      circuit. A live handle reads the circuit's reference value when the run succeeds and
      the caller is not interrupted, and throws `InterruptedException` otherwise. */
  function Solve(s: SolverState, root: Node, sched: Schedule): (res: (SolverState, ParallelCircuitValue))
    requires s.acceptComputations ==> WellFormed(root) && Fits(sched, root)
    ensures !s.acceptComputations ==> res.0 == s && res.1.broken
    ensures !s.acceptComputations ==> forall w :: GetValue(res.1, w) == ThrowsInterrupted
    ensures s.acceptComputations ==> res.0.submitted == s.submitted + 1 && !res.1.broken
    ensures res.0.acceptComputations == s.acceptComputations && res.0.shutdown == s.shutdown
    ensures Valid(s) ==> Valid(res.0)
    ensures s.acceptComputations ==> forall w :: GetValue(res.1, w).Read? <==> !w && RecursiveSolve(root, sched).Done?
    ensures s.acceptComputations ==> forall w :: GetValue(res.1, w).Read? ==> GetValue(res.1, w).value == Eval(root)
    ensures s.acceptComputations ==> forall w ::
      GetValue(res.1, w) == ThrowsInterrupted <==> w || RecursiveSolve(root, sched).Interrupted?
    ensures s.acceptComputations && !Interrupts(sched) ==> GetValue(res.1, false) == Read(Eval(root))
  {
    if !s.acceptComputations then
      (s, FromFlag(true))
    else
      (s.(submitted := s.submitted + 1), FromFuture(Settle(RecursiveSolve(root, sched))))
  }

  /** `stop`: clear the accept flag and shut the pool down. Nothing is submitted, and every
      later `solve`, whatever its circuit, hands back a rejected value. */
  function Stop(s: SolverState): (r: SolverState)
    ensures !r.acceptComputations && r.shutdown && r.submitted == s.submitted
    ensures Valid(r)
    ensures forall root, sched :: Solve(r, root, sched) == (r, FromFlag(true))
  {
    s.(acceptComputations := false, shutdown := true)
  }

  /** A caller's request: a `solve` of the circuit with root `root`, run as `sched`
      describes, or a `stop`. */
  datatype Request = SolveRequest(root: Node, sched: Schedule) | StopRequest

  /** Every `solve` in `reqs` is of a circuit with the solver's arity guarantees, and its
      schedule describes a run of that circuit. */
  predicate ValidRequests(reqs: seq<Request>) {
    forall i :: 0 <= i < |reqs| && reqs[i].SolveRequest? ==>
      WellFormed(reqs[i].root) && Fits(reqs[i].sched, reqs[i].root)
  }

  lemma ValidTail(reqs: seq<Request>)
    requires |reqs| > 0 && ValidRequests(reqs)
    ensures ValidRequests(reqs[1..])
  {
  }

  /** Serves `reqs` in order and collects the handle of every `solve`. Only the requests
      served while computations are accepted need well-formed circuits. */
  function Serve(s: SolverState, reqs: seq<Request>): (res: (SolverState, seq<ParallelCircuitValue>))
    requires s.acceptComputations ==> ValidRequests(reqs)
    decreases |reqs|
  {
    if |reqs| == 0 then (s, [])
    else
      var (s1, vs1) :=
        match reqs[0]
        case StopRequest => (Stop(s), [])
        case SolveRequest(root, sched) =>
          var (s', v) := Solve(s, root, sched);
          (s', [v]);
      assert s1.acceptComputations ==> ValidRequests(reqs[1..]) by {
        if s1.acceptComputations {
          ValidTail(reqs);
        }
      }
      var (s2, vs2) := Serve(s1, reqs[1..]);
      (s2, vs1 + vs2)
  }

  /** The number of `solve` requests before the first `stop`. */
  function SolvesBeforeStop(reqs: seq<Request>): nat {
    if |reqs| == 0 || reqs[0].StopRequest? then 0 else 1 + SolvesBeforeStop(reqs[1..])
  }

  /** From an accepting state, exactly the `solve` calls made before the first `stop` reach
      the pool, and computations stay accepted exactly when no `stop` is among the
      requests. */
  lemma {:induction false} SubmissionsBeforeStop(s: SolverState, reqs: seq<Request>)
    requires s.acceptComputations && ValidRequests(reqs)
    ensures Serve(s, reqs).0.submitted == s.submitted + SolvesBeforeStop(reqs)
    ensures Serve(s, reqs).0.acceptComputations <==> forall i :: 0 <= i < |reqs| ==> reqs[i].SolveRequest?
    decreases |reqs|
  {
    if |reqs| > 0 {
      ValidTail(reqs);
      match reqs[0]
      case StopRequest =>
        RejectedForGood(Stop(s), reqs[1..]);
        assert Serve(s, reqs).0 == Serve(Stop(s), reqs[1..]).0;
      case SolveRequest(root, sched) =>
        var s1 := Solve(s, root, sched).0;
        SubmissionsBeforeStop(s1, reqs[1..]);
        assert Serve(s, reqs).0 == Serve(s1, reqs[1..]).0;
        assert forall i :: 1 <= i < |reqs| ==> reqs[i] == reqs[1..][i - 1];
    }
  }

  /** A freshly constructed solver submits one root task per `solve` until the first
      `stop`, and none after it. */
  lemma FreshSolverSubmissions(reqs: seq<Request>)
    requires ValidRequests(reqs)
    ensures Serve(Initial(), reqs).0.submitted == SolvesBeforeStop(reqs)
  {
    SubmissionsBeforeStop(Initial(), reqs);
  }

  /** `stop` is idempotent: a second call changes nothing. */
  lemma StopIdempotent(s: SolverState)
    ensures Stop(Stop(s)) == Stop(s)
  {
  }

  /** Every handle in `vs` is a rejection, so every read of it fails. */
  predicate AllRejected(vs: seq<ParallelCircuitValue>) {
    forall i :: 0 <= i < |vs| ==> vs[i].broken
  }

  /** Once computations are no longer accepted, no request turns the flag back on, no
      further task reaches the pool, and every handle handed out is a rejection, whatever
      circuits the requests carry. */
  lemma {:induction false} RejectedForGood(s: SolverState, reqs: seq<Request>)
    requires !s.acceptComputations
    ensures !Serve(s, reqs).0.acceptComputations
    ensures Serve(s, reqs).0.submitted == s.submitted
    ensures AllRejected(Serve(s, reqs).1)
    decreases |reqs|
  {
    if |reqs| > 0 {
      var s1 := if reqs[0].StopRequest? then Stop(s) else s;
      var vs1: seq<ParallelCircuitValue> := if reqs[0].StopRequest? then [] else [FromFlag(true)];
      RejectedForGood(s1, reqs[1..]);
      var rest := Serve(s1, reqs[1..]);
      assert Serve(s, reqs) == (rest.0, vs1 + rest.1);
      assert AllRejected(vs1 + rest.1) by {
        forall i | 0 <= i < |vs1 + rest.1| ensures (vs1 + rest.1)[i].broken {
          if i >= |vs1| {
            assert (vs1 + rest.1)[i] == rest.1[i - |vs1|];
          }
        }
      }
    }
  }

  /** After `stop`, whatever requests follow, nothing more is submitted and every `solve`
      yields a value whose `getValue` fails, however often and however it is read. */
  lemma StopIsFinal(s: SolverState, reqs: seq<Request>)
    ensures !Serve(Stop(s), reqs).0.acceptComputations
    ensures Serve(Stop(s), reqs).0.submitted == s.submitted
    ensures forall i, w :: 0 <= i < |Serve(Stop(s), reqs).1| ==>
      GetValue(Serve(Stop(s), reqs).1[i], w) == ThrowsInterrupted
  {
    RejectedForGood(Stop(s), reqs);
  }

  /** What a `solve` call hands back when it may race with `stop`: a handle, or the
      `RejectedExecutionException` that submitting to a shut-down pool throws. */
  datatype SolveReturn = Handle(value: ParallelCircuitValue) | RejectedExecution

  /** `solve` as written, with a `stop` from another thread possibly running in full
      between reading the flag (ParallelCircuitSolver.java:33) and submitting the root task
      (line 37). The flag check and the submission are not atomic, so the shut-down pool
      refuses the task and the call throws. */
  function SolveRaceAsWritten(s: SolverState, root: Node, sched: Schedule, stopInBetween: bool): (res: (SolverState, SolveReturn))
    requires Valid(s)
    requires s.acceptComputations ==> WellFormed(root) && Fits(sched, root)
    ensures res.1.RejectedExecution? <==> s.acceptComputations && stopInBetween
  {
    if !s.acceptComputations then (s, Handle(FromFlag(true)))
    else
      var s' := if stopInBetween then Stop(s) else s;
      if s'.shutdown then (s', RejectedExecution)
      else (s'.(submitted := s'.submitted + 1), Handle(FromFuture(Settle(RecursiveSolve(root, sched)))))
  }

  /** A fresh solver whose `stop` lands between the flag check and the submission makes
      `solve` throw instead of returning a value. */
  lemma StopDuringSolveThrows()
    ensures SolveRaceAsWritten(Initial(), Leaf(true), Run([], []), true).1 == RejectedExecution
  {
  }

  /** `solve` with the race closed: a submission the shut-down pool refuses yields a
      rejected value, as if the `stop` had come first. The call never throws, and each
      outcome is that of `solve` run atomically before or after the `stop`. */
  function SolveRace(s: SolverState, root: Node, sched: Schedule, stopInBetween: bool): (res: (SolverState, ParallelCircuitValue))
    requires Valid(s)
    requires s.acceptComputations ==> WellFormed(root) && Fits(sched, root)
    ensures !stopInBetween ==> res == Solve(s, root, sched)
    ensures !s.acceptComputations ==> res == Solve(s, root, sched)
    ensures Valid(res.0)
    ensures stopInBetween && s.acceptComputations ==> res == Solve(Stop(s), root, sched)
    ensures res.0.acceptComputations ==> !stopInBetween
    ensures stopInBetween ==> forall w :: GetValue(res.1, w) == ThrowsInterrupted
  {
    if !s.acceptComputations then (s, FromFlag(true))
    else
      var s' := if stopInBetween then Stop(s) else s;
      if s'.shutdown then (s', FromFlag(true))
      else (s'.(submitted := s'.submitted + 1), FromFuture(Settle(RecursiveSolve(root, sched))))
  }
}
