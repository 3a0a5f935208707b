/** The recursive gate evaluation `recursiveSolve`. Threads only deliver results, so a run
    is described by a `Schedule` that fixes, for each node, the order in which its
    children's tasks complete and whether the node's task is interrupted. */
module Engine {
  import opened Counting
  import opened Circuit
  import opened Outcomes
  import opened Threshold

  /** How one evaluation of a node unfolds. `Interrupt`: the node's task fails before it
      can produce a value (its thread is interrupted, its future is cancelled, or waiting
      for a child is interrupted). `Run`: the children complete in the order `order`, and
      `subs[j]` describes the evaluation of child `j`. */
  datatype Schedule = Interrupt | Run(order: seq<nat>, subs: seq<Schedule>)

  /** `s` describes an evaluation of `n`: one sub-schedule per child and a completion
      order listing each child exactly once. */
  predicate Fits(s: Schedule, n: Node)
    decreases n
  {
    match s
    case Interrupt => true
    case Run(order, subs) =>
      if n.Leaf? then subs == [] && order == []
      else
        && |subs| == |n.args|
        && IsPermutation(order, |n.args|)
        && forall j :: 0 <= j < |subs| ==> Fits(subs[j], n.args[j])
  }

  /** Some task in the run is interrupted. */
  predicate Interrupts(s: Schedule) {
    match s
    case Interrupt => true
    case Run(_, subs) => exists j :: 0 <= j < |subs| && Interrupts(subs[j])
  }

  predicate NoneInterrupted(subs: seq<Schedule>) {
    forall j :: 0 <= j < |subs| ==> !Interrupts(subs[j])
  }

  /** `recursiveSolve`: a leaf answers its value; NOT negates its first child, evaluated
      directly; IF runs the single-child "any true" check on its condition and then on
      exactly one branch; AND, OR, GT and LT fan out to all children and apply the counting
      rule. Whatever completion orders the schedule picks, a value it returns is the
      reference value, and a run without interruptions always returns it. */
  function RecursiveSolve(n: Node, s: Schedule): (r: Outcome)
    requires WellFormed(n) && Fits(s, n)
    ensures r.Done? ==> r.value == Eval(n)
    ensures !Interrupts(s) ==> r == Done(Eval(n))
    ensures s.Interrupt? ==> r == Interrupted
    decreases n, 1
  {
    match s
    case Interrupt => Interrupted
    case Run(order, subs) =>
      match n
      case Leaf(v) => Done(v)
      case Not(args) =>
        (match RecursiveSolve(args[0], subs[0])
         case Done(b) => Done(!b)
         case Interrupted => Interrupted)
      case And(args) => SolveAND(ChildOutcomes(args, subs), order)
      case Or(args) => SolveOR(ChildOutcomes(args, subs), order)
      case Gt(k, args) => SolveGT(ChildOutcomes(args, subs), order, k)
      case Lt(k, args) => SolveLT(ChildOutcomes(args, subs), order, k)
      case If(args) =>
        var cond := RecursiveSolve(args[0], subs[0]);
        AnyTrueOfOne(cond);
        match SolveWithThreshold([cond], [0], 0, true)
        case Interrupted => Interrupted
        case Done(c) =>
          if c then
            var thenPart := RecursiveSolve(args[1], subs[1]);
            AnyTrueOfOne(thenPart);
            SolveWithThreshold([thenPart], [0], 0, true)
          else
            var elsePart := RecursiveSolve(args[2], subs[2]);
            AnyTrueOfOne(elsePart);
            SolveWithThreshold([elsePart], [0], 0, true)
  }

  /** The results of the children's tasks, in submission order. Each one that succeeds
      carries the child's reference value, and without interruptions all succeed. */
  function ChildOutcomes(args: seq<Node>, subs: seq<Schedule>): (outs: seq<Outcome>)
    requires |subs| == |args|
    requires forall j :: 0 <= j < |args| ==> WellFormed(args[j]) && Fits(subs[j], args[j])
    ensures |outs| == |args|
    ensures Completes(outs, Evals(args))
    ensures NoneInterrupted(subs) ==> AllDone(outs) && Values(outs) == Evals(args)
    decreases args, 0
  {
    seq(|args|, j requires 0 <= j < |args| => RecursiveSolve(args[j], subs[j]))
  }

  /** A leaf's evaluation fails only when its task is interrupted. */
  lemma LeafFailsOnlyIfInterrupted(n: Node, s: Schedule)
    requires n.Leaf? && Fits(s, n)
    ensures RecursiveSolve(n, s).Interrupted? <==> s.Interrupt?
  {
  }

  /** NOT fails exactly when its task is interrupted or its child's evaluation fails. */
  lemma NotPropagatesFailure(n: Node, s: Schedule)
    requires n.Not? && WellFormed(n) && Fits(s, n) && s.Run?
    ensures RecursiveSolve(n, s).Interrupted? <==> RecursiveSolve(n.args[0], s.subs[0]).Interrupted?
  {
  }

  /** IF fails exactly when its condition fails or the branch the condition selects fails;
      the other branch plays no part. */
  lemma IfPropagatesFailure(n: Node, s: Schedule)
    requires n.If? && WellFormed(n) && Fits(s, n) && s.Run?
    ensures var cond := RecursiveSolve(n.args[0], s.subs[0]);
      RecursiveSolve(n, s).Interrupted? <==>
        || cond.Interrupted?
        || (cond == Done(true) && RecursiveSolve(n.args[1], s.subs[1]).Interrupted?)
        || (cond == Done(false) && RecursiveSolve(n.args[2], s.subs[2]).Interrupted?)
  {
  }

  /** AND, OR, GT and LT fail exactly when, taking the children's results in completion
      order, the gate consumes a failed one before its break condition holds: AND with
      threshold `n - 1` and OR with threshold `0` in the greater-than sense, GT and LT with
      their own threshold in their own sense. */
  lemma GatePropagatesFailure(n: Node, s: Schedule)
    requires (n.And? || n.Or? || n.Gt? || n.Lt?) && WellFormed(n) && Fits(s, n) && s.Run?
    ensures var arrivals := Reorder(ChildOutcomes(n.args, s.subs), s.order);
      RecursiveSolve(n, s).Interrupted? <==>
        match n
        case And(args) => FailsFrom(arrivals, 0, |args| - 1, true)
        case Or(_) => FailsFrom(arrivals, 0, 0, true)
        case Gt(k, _) => FailsFrom(arrivals, 0, k, true)
        case Lt(k, _) => FailsFrom(arrivals, 0, k, false)
  {
  }

  /** The answer does not depend on the completion order: two runs of the same circuit
      that both produce a value produce the same one. */
  lemma CompletionOrderIrrelevant(n: Node, s1: Schedule, s2: Schedule)
    requires WellFormed(n) && Fits(s1, n) && Fits(s2, n)
    ensures RecursiveSolve(n, s1).Done? && RecursiveSolve(n, s2).Done? ==>
      RecursiveSolve(n, s1) == RecursiveSolve(n, s2)
  {
  }

  /** IF awaits only the branch its condition selects: replacing the run of the other
      branch, even by an interrupted one, changes nothing. */
  lemma IfIgnoresUntakenBranch(args: seq<Node>, order: seq<nat>, subs: seq<Schedule>, other: Schedule)
    requires WellFormed(If(args)) && Fits(Run(order, subs), If(args))
    requires RecursiveSolve(args[0], subs[0]).Done?
    requires Fits(other, args[if RecursiveSolve(args[0], subs[0]).value then 2 else 1])
    ensures var untaken := if RecursiveSolve(args[0], subs[0]).value then 2 else 1;
      && Fits(Run(order, subs[untaken := other]), If(args))
      && RecursiveSolve(If(args), Run(order, subs[untaken := other])) == RecursiveSolve(If(args), Run(order, subs))
  {
  }

  /** Worked threshold circuits: in every uninterrupted run, whatever the completion
      order, AND(true, true, false) is false, OR(false, true) is true and
      GT(1; true, true, false) is true. */
  lemma ThresholdScenarios()
    ensures forall s :: Fits(s, And([Leaf(true), Leaf(true), Leaf(false)])) && !Interrupts(s) ==>
      RecursiveSolve(And([Leaf(true), Leaf(true), Leaf(false)]), s) == Done(false)
    ensures forall s :: Fits(s, Or([Leaf(false), Leaf(true)])) && !Interrupts(s) ==>
      RecursiveSolve(Or([Leaf(false), Leaf(true)]), s) == Done(true)
    ensures forall s :: Fits(s, Gt(1, [Leaf(true), Leaf(true), Leaf(false)])) && !Interrupts(s) ==>
      RecursiveSolve(Gt(1, [Leaf(true), Leaf(true), Leaf(false)]), s) == Done(true)
  {
    assert Evals([Leaf(true), Leaf(true), Leaf(false)]) == [true, true, false];
    assert Count([true, true, false]) == 2;
    assert !AllTrue([true, true, false]);
    assert Evals([Leaf(false), Leaf(true)]) == [false, true];
    assert [false, true][1];
  }

  /** Worked IF circuits: in every uninterrupted run IF(true, true, false) is true and
      IF(false, true, false) is false. */
  lemma IfScenarios()
    ensures forall s :: Fits(s, If([Leaf(true), Leaf(true), Leaf(false)])) && !Interrupts(s) ==>
      RecursiveSolve(If([Leaf(true), Leaf(true), Leaf(false)]), s) == Done(true)
    ensures forall s :: Fits(s, If([Leaf(false), Leaf(true), Leaf(false)])) && !Interrupts(s) ==>
      RecursiveSolve(If([Leaf(false), Leaf(true), Leaf(false)]), s) == Done(false)
  {
  }
}
