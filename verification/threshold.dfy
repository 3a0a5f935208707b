/** The counting rule every fan-out gate is reduced to: consume the children's results
    one at a time in completion order, keep the number of true results and the number of
    results still outstanding, and stop as soon as the comparison with the threshold can
    no longer change. */
module Threshold {
  import opened Counting
  import opened Outcomes

  /** The gate's answer from a count of true children: `count > threshold` in the
      greater-than sense, `count < threshold` in the less-than sense. */
  function Decide(gotTrue: int, threshold: int, isGreaterThan: bool): bool {
    if isGreaterThan then gotTrue > threshold else gotTrue < threshold
  }

  /** The break condition checked after each consumed result. */
  predicate Decided(gotTrue: int, remaining: int, threshold: int, isGreaterThan: bool) {
    if isGreaterThan then gotTrue > threshold || remaining + gotTrue <= threshold
    else gotTrue >= threshold || remaining + gotTrue < threshold
  }

  /** The break condition holds exactly when no number of further true results, up to
      `remaining`, changes the comparison. */
  lemma DecidedSettlesCount(gotTrue: int, remaining: nat, threshold: int, isGreaterThan: bool)
    ensures Decided(gotTrue, remaining, threshold, isGreaterThan) <==>
      forall g :: gotTrue <= g <= gotTrue + remaining ==>
        Decide(g, threshold, isGreaterThan) == Decide(gotTrue, threshold, isGreaterThan)
  {
    if !Decided(gotTrue, remaining, threshold, isGreaterThan) {
      var g := if isGreaterThan then gotTrue + remaining else threshold;
      assert Decide(g, threshold, isGreaterThan) != Decide(gotTrue, threshold, isGreaterThan);
    }
  }

  /** The break condition holds exactly when the answer computed from the results seen so
      far equals the answer for every way the `remaining` unseen results could turn out. */
  lemma {:induction false} DecidedIsExact(prefix: seq<bool>, remaining: nat, threshold: int, isGreaterThan: bool)
    ensures Decided(Count(prefix), remaining, threshold, isGreaterThan) <==>
      forall rest: seq<bool> :: |rest| == remaining ==>
        Decide(Count(prefix + rest), threshold, isGreaterThan) == Decide(Count(prefix), threshold, isGreaterThan)
  {
    var g := Count(prefix);
    forall rest: seq<bool> | |rest| == remaining
      ensures Count(prefix + rest) == g + Count(rest)
    {
      CountAppend(prefix, rest);
    }
    if !Decided(g, remaining, threshold, isGreaterThan) {
      var allTrue := seq(remaining, _ => true);
      CountAllTrue(allTrue);
      assert Decide(Count(prefix + allTrue), threshold, isGreaterThan) != Decide(g, threshold, isGreaterThan);
    }
  }

  /** What holds at the top of every iteration of the consuming loop after `i` results:
      all of them succeeded, `gotTrue` of them are true, and `remaining` are left. */
  predicate LoopInvariant(arrivals: seq<Outcome>, i: nat, gotTrue: int, remaining: int) {
    && i <= |arrivals|
    && AllDone(arrivals[..i])
    && gotTrue == Count(Values(arrivals[..i]))
    && remaining == |arrivals| - i
  }

  /** The break condition holds right after the first `m` arrivals have been consumed. */
  predicate BreaksAt(arrivals: seq<Outcome>, m: nat, threshold: int, isGreaterThan: bool) {
    m <= |arrivals| && Decided(Count(Values(arrivals[..m])), |arrivals| - m, threshold, isGreaterThan)
  }

  /** Continuing the loop from iteration `i`, the arrival at `j` is a failure that the loop
      consumes: every arrival before it succeeded and the loop did not break after any of
      the arrivals `i + 1 .. j`. */
  predicate FailsAt(arrivals: seq<Outcome>, i: nat, j: nat, threshold: int, isGreaterThan: bool) {
    && i <= j < |arrivals|
    && arrivals[j].Interrupted?
    && AllDone(arrivals[..j])
    && forall m :: i < m <= j ==> !BreaksAt(arrivals, m, threshold, isGreaterThan)
  }

  /** Some arrival from `i` on is a consumed failure. */
  predicate FailsFrom(arrivals: seq<Outcome>, i: nat, threshold: int, isGreaterThan: bool) {
    exists j :: i <= j < |arrivals| && FailsAt(arrivals, i, j, threshold, isGreaterThan)
  }

  /** The consuming loop from iteration `i` on. A failed result aborts the gate; after a
      result that makes the break condition hold, nothing further is looked at. */
  function Consume(arrivals: seq<Outcome>, i: nat, gotTrue: int, remaining: int,
                   threshold: int, isGreaterThan: bool): (r: Outcome)
    requires LoopInvariant(arrivals, i, gotTrue, remaining)
    ensures r.Interrupted? ==> exists j :: i <= j < |arrivals| && arrivals[j].Interrupted?
    ensures AllDone(arrivals) ==> r.Done?
    decreases |arrivals| - i
  {
    if i == |arrivals| then
      Done(Decide(gotTrue, threshold, isGreaterThan))
    else
      match arrivals[i]
      case Interrupted => Interrupted
      case Done(b) =>
        var gotTrue' := if b then gotTrue + 1 else gotTrue;
        var remaining' := remaining - 1;
        LoopStep(arrivals, i, gotTrue, remaining);
        if Decided(gotTrue', remaining', threshold, isGreaterThan) then
          Done(Decide(gotTrue', threshold, isGreaterThan))
        else
          Consume(arrivals, i + 1, gotTrue', remaining', threshold, isGreaterThan)
  }

  /** One iteration of the loop keeps the invariant. */
  lemma LoopStep(arrivals: seq<Outcome>, i: nat, gotTrue: int, remaining: int)
    requires LoopInvariant(arrivals, i, gotTrue, remaining)
    requires i < |arrivals| && arrivals[i].Done?
    ensures LoopInvariant(arrivals, i + 1, if arrivals[i].value then gotTrue + 1 else gotTrue, remaining - 1)
  {
    assert arrivals[..i + 1] == arrivals[..i] + [arrivals[i]];
    assert Values(arrivals[..i + 1]) == Values(arrivals[..i]) + [arrivals[i].value];
  }

  /** The loop fails exactly when it consumes a failed result before it breaks: a failure
      taken from the completion service aborts the gate, and one arriving after the break
      is never looked at. */
  lemma {:induction false} ConsumeFailsExactly(arrivals: seq<Outcome>, i: nat, gotTrue: int, remaining: int,
                                               threshold: int, isGreaterThan: bool)
    requires LoopInvariant(arrivals, i, gotTrue, remaining)
    ensures Consume(arrivals, i, gotTrue, remaining, threshold, isGreaterThan).Interrupted? <==>
      FailsFrom(arrivals, i, threshold, isGreaterThan)
    decreases |arrivals| - i
  {
    if i < |arrivals| {
      if arrivals[i].Interrupted? {
        assert FailsAt(arrivals, i, i, threshold, isGreaterThan);
      } else {
        var gotTrue' := if arrivals[i].value then gotTrue + 1 else gotTrue;
        LoopStep(arrivals, i, gotTrue, remaining);
        FailsFromStep(arrivals, i, threshold, isGreaterThan);
        if !Decided(gotTrue', remaining - 1, threshold, isGreaterThan) {
          ConsumeFailsExactly(arrivals, i + 1, gotTrue', remaining - 1, threshold, isGreaterThan);
        }
      }
    }
  }

  /** Past a successful arrival `i`, a consumed failure lies ahead exactly when the loop
      does not break right after `i` and a consumed failure lies ahead from `i + 1`. */
  lemma FailsFromStep(arrivals: seq<Outcome>, i: nat, threshold: int, isGreaterThan: bool)
    requires i < |arrivals| && arrivals[i].Done?
    ensures FailsFrom(arrivals, i, threshold, isGreaterThan) <==>
      !BreaksAt(arrivals, i + 1, threshold, isGreaterThan) && FailsFrom(arrivals, i + 1, threshold, isGreaterThan)
  {
    if FailsFrom(arrivals, i, threshold, isGreaterThan) {
      var j :| i <= j < |arrivals| && FailsAt(arrivals, i, j, threshold, isGreaterThan);
      assert FailsAt(arrivals, i + 1, j, threshold, isGreaterThan);
    }
    if !BreaksAt(arrivals, i + 1, threshold, isGreaterThan) && FailsFrom(arrivals, i + 1, threshold, isGreaterThan) {
      var j :| i + 1 <= j < |arrivals| && FailsAt(arrivals, i + 1, j, threshold, isGreaterThan);
      assert FailsAt(arrivals, i, j, threshold, isGreaterThan);
    }
  }

  /** Once the loop breaks after the first `m` arrivals, what arrives later (a failure
      included) does not matter: any arrivals that agree on the first `m` give the same
      value. */
  lemma {:induction false} ConsumeIgnoresAfterBreak(arrivals: seq<Outcome>, later: seq<Outcome>, i: nat, m: nat,
                                                    gotTrue: int, remaining: int, threshold: int, isGreaterThan: bool)
    requires LoopInvariant(arrivals, i, gotTrue, remaining)
    requires i < m <= |arrivals| && AllDone(arrivals[..m]) && BreaksAt(arrivals, m, threshold, isGreaterThan)
    requires |later| == |arrivals| && later[..m] == arrivals[..m]
    ensures LoopInvariant(later, i, gotTrue, remaining)
    ensures Consume(arrivals, i, gotTrue, remaining, threshold, isGreaterThan).Done?
    ensures Consume(later, i, gotTrue, remaining, threshold, isGreaterThan) ==
      Consume(arrivals, i, gotTrue, remaining, threshold, isGreaterThan)
    decreases m - i
  {
    AgreeBefore(arrivals, later, i, m);
    assert arrivals[..m][i] == arrivals[i];
    var gotTrue' := if arrivals[i].value then gotTrue + 1 else gotTrue;
    LoopStep(arrivals, i, gotTrue, remaining);
    LoopStep(later, i, gotTrue, remaining);
    if i + 1 == m {
      assert Decided(gotTrue', remaining - 1, threshold, isGreaterThan);
    } else if !Decided(gotTrue', remaining - 1, threshold, isGreaterThan) {
      ConsumeIgnoresAfterBreak(arrivals, later, i + 1, m, gotTrue', remaining - 1, threshold, isGreaterThan);
    }
  }

  /** Arrivals that agree on their first `m` entries agree on every shorter prefix and on
      each entry before `m`. */
  lemma AgreeBefore(arrivals: seq<Outcome>, later: seq<Outcome>, i: nat, m: nat)
    requires i < m <= |arrivals| == |later| && later[..m] == arrivals[..m]
    ensures later[..i] == arrivals[..i] && later[i] == arrivals[i]
  {
  }

  /** Under the invariant, the count kept so far is the count of any completion's prefix. */
  lemma PrefixCount(arrivals: seq<Outcome>, i: nat, full: seq<bool>)
    requires i <= |arrivals| && AllDone(arrivals[..i]) && Completes(arrivals, full)
    ensures Count(full[..i]) == Count(Values(arrivals[..i]))
  {
    assert full[..i] == Values(arrivals[..i]) by {
      forall j | 0 <= j < i ensures full[..i][j] == Values(arrivals[..i])[j] {
        assert arrivals[..i][j] == arrivals[j];
      }
    }
  }

  /** Breaking after the first `cut` entries gives the answer the whole sequence gives. */
  lemma EarlyExit(full: seq<bool>, cut: nat, threshold: int, isGreaterThan: bool)
    requires cut <= |full|
    requires Decided(Count(full[..cut]), |full| - cut, threshold, isGreaterThan)
    ensures Decide(Count(full), threshold, isGreaterThan) == Decide(Count(full[..cut]), threshold, isGreaterThan)
  {
    assert full[..cut] + full[cut..] == full;
    CountAppend(full[..cut], full[cut..]);
  }

  /** Early-exit soundness: whenever the loop returns a value, it is the comparison of the
      full count with the threshold, for any values the unconsumed (or failed but never
      awaited) results might have had. */
  lemma {:induction false} ConsumeSound(arrivals: seq<Outcome>, i: nat, gotTrue: int, remaining: int,
                                        threshold: int, isGreaterThan: bool, full: seq<bool>)
    requires LoopInvariant(arrivals, i, gotTrue, remaining)
    requires Completes(arrivals, full)
    ensures var r := Consume(arrivals, i, gotTrue, remaining, threshold, isGreaterThan);
      r.Done? ==> r.value == Decide(Count(full), threshold, isGreaterThan)
    decreases |arrivals| - i
  {
    if i == |arrivals| {
      PrefixCount(arrivals, i, full);
      assert full[..i] == full;
    } else if arrivals[i].Done? {
      var gotTrue' := if arrivals[i].value then gotTrue + 1 else gotTrue;
      LoopStep(arrivals, i, gotTrue, remaining);
      if Decided(gotTrue', remaining - 1, threshold, isGreaterThan) {
        PrefixCount(arrivals, i + 1, full);
        EarlyExit(full, i + 1, threshold, isGreaterThan);
      } else {
        ConsumeSound(arrivals, i + 1, gotTrue', remaining - 1, threshold, isGreaterThan, full);
      }
    }
  }

  /** The loop run over the children's results taken in the completion order `order`,
      stated back in submission order. */
  lemma ConsumeInAnyOrder(outs: seq<Outcome>, order: seq<nat>, threshold: int, isGreaterThan: bool)
    requires IsPermutation(order, |outs|)
    ensures var r := Consume(Reorder(outs, order), 0, 0, |outs|, threshold, isGreaterThan);
      && (r.Interrupted? ==> exists j :: 0 <= j < |outs| && outs[j].Interrupted?)
      && (AllDone(outs) ==> r == Done(Decide(Count(Values(outs)), threshold, isGreaterThan)))
      && (r.Done? ==> forall full :: Completes(outs, full) ==> r.value == Decide(Count(full), threshold, isGreaterThan))
  {
    var arrivals := Reorder(outs, order);
    assert arrivals[..0] == [];
    assert Values([]) == [];
    var r := Consume(arrivals, 0, 0, |outs|, threshold, isGreaterThan);
    if r.Interrupted? {
      var j :| 0 <= j < |arrivals| && arrivals[j].Interrupted?;
      assert outs[order[j]].Interrupted?;
    }
    forall full | Completes(outs, full)
      ensures r.Done? ==> r.value == Decide(Count(full), threshold, isGreaterThan)
    {
      CountReorder(full, order);
      ConsumeSound(arrivals, 0, 0, |outs|, threshold, isGreaterThan, Reorder(full, order));
    }
    if AllDone(outs) {
      assert Completes(outs, Values(outs));
      assert AllDone(arrivals) by {
        forall j | 0 <= j < |arrivals| ensures arrivals[j].Done? {
          assert arrivals[j] == outs[order[j]];
        }
      }
    }
  }

  /** `solveWithThreshold`: the children's results `outs` (in submission order) are
      consumed in the completion order `order`. The answer never depends on that order:
      it fails only if some child failed, it succeeds whenever every child did, and any
      value it returns is the full-count comparison. */
  function SolveWithThreshold(outs: seq<Outcome>, order: seq<nat>, threshold: int, isGreaterThan: bool): (r: Outcome)
    requires IsPermutation(order, |outs|)
    ensures r.Interrupted? ==> exists j :: 0 <= j < |outs| && outs[j].Interrupted?
    ensures AllDone(outs) ==> r == Done(Decide(Count(Values(outs)), threshold, isGreaterThan))
    ensures r.Done? ==> forall full :: Completes(outs, full) ==> r.value == Decide(Count(full), threshold, isGreaterThan)
    ensures r.Interrupted? <==> FailsFrom(Reorder(outs, order), 0, threshold, isGreaterThan)
  {
    ConsumeInAnyOrder(outs, order, threshold, isGreaterThan);
    StartInvariant(Reorder(outs, order));
    ConsumeFailsExactly(Reorder(outs, order), 0, 0, |outs|, threshold, isGreaterThan);
    Consume(Reorder(outs, order), 0, 0, |outs|, threshold, isGreaterThan)
  }

  /** The invariant holds before the first iteration. */
  lemma StartInvariant(arrivals: seq<Outcome>)
    ensures LoopInvariant(arrivals, 0, 0, |arrivals|)
  {
  }

  /** Once the gate has broken after the first `m` results in completion order, the
      children that had not arrived by then are irrelevant: whatever they deliver, a
      failure included, the gate returns the same value. */
  lemma {:induction false} SolveIgnoresAfterBreak(outs: seq<Outcome>, later: seq<Outcome>, order: seq<nat>, m: nat,
                                                  threshold: int, isGreaterThan: bool)
    requires IsPermutation(order, |outs|) && |later| == |outs|
    requires 0 < m <= |outs| && AllDone(Reorder(outs, order)[..m])
    requires BreaksAt(Reorder(outs, order), m, threshold, isGreaterThan)
    requires forall k :: 0 <= k < m ==> later[order[k]] == outs[order[k]]
    ensures SolveWithThreshold(outs, order, threshold, isGreaterThan).Done?
    ensures SolveWithThreshold(later, order, threshold, isGreaterThan) ==
      SolveWithThreshold(outs, order, threshold, isGreaterThan)
  {
    var arrivals, arrivals' := Reorder(outs, order), Reorder(later, order);
    assert arrivals'[..m] == arrivals[..m] by {
      forall k | 0 <= k < m ensures arrivals'[..m][k] == arrivals[..m][k] {
        assert arrivals'[k] == later[order[k]] && arrivals[k] == outs[order[k]];
      }
    }
    StartInvariant(arrivals);
    ConsumeIgnoresAfterBreak(arrivals, arrivals', 0, m, 0, |outs|, threshold, isGreaterThan);
  }

  /** `solveAND`: threshold `n - 1`, greater-than sense, which means "every child is true";
      with no children the answer is true. */
  function SolveAND(outs: seq<Outcome>, order: seq<nat>): (r: Outcome)
    requires IsPermutation(order, |outs|)
    ensures r.Interrupted? ==> exists j :: 0 <= j < |outs| && outs[j].Interrupted?
    ensures AllDone(outs) ==> r == Done(AllTrue(Values(outs)))
    ensures r.Done? ==> forall full :: Completes(outs, full) ==> (r.value <==> AllTrue(full))
    ensures r.Interrupted? <==> FailsFrom(Reorder(outs, order), 0, |outs| - 1, true)
  {
    CountDecidesAllAndAny();
    SolveWithThreshold(outs, order, |outs| - 1, true)
  }

  /** `solveOR`: threshold `0`, greater-than sense, which means "some child is true"; with
      no children the answer is false. */
  function SolveOR(outs: seq<Outcome>, order: seq<nat>): (r: Outcome)
    requires IsPermutation(order, |outs|)
    ensures r.Interrupted? ==> exists j :: 0 <= j < |outs| && outs[j].Interrupted?
    ensures AllDone(outs) ==> r == Done(AnyTrue(Values(outs)))
    ensures r.Done? ==> forall full :: Completes(outs, full) ==> (r.value <==> AnyTrue(full))
    ensures r.Interrupted? <==> FailsFrom(Reorder(outs, order), 0, 0, true)
  {
    CountDecidesAllAndAny();
    SolveWithThreshold(outs, order, 0, true)
  }

  /** `solveGT`: true exactly when more than `threshold` children are true. */
  function SolveGT(outs: seq<Outcome>, order: seq<nat>, threshold: int): (r: Outcome)
    requires IsPermutation(order, |outs|)
    ensures r.Interrupted? ==> exists j :: 0 <= j < |outs| && outs[j].Interrupted?
    ensures AllDone(outs) ==> r == Done(Count(Values(outs)) > threshold)
    ensures r.Done? ==> forall full :: Completes(outs, full) ==> (r.value <==> Count(full) > threshold)
    ensures r.Interrupted? <==> FailsFrom(Reorder(outs, order), 0, threshold, true)
  {
    SolveWithThreshold(outs, order, threshold, true)
  }

  /** `solveLT`: true exactly when fewer than `threshold` children are true. */
  function SolveLT(outs: seq<Outcome>, order: seq<nat>, threshold: int): (r: Outcome)
    requires IsPermutation(order, |outs|)
    ensures r.Interrupted? ==> exists j :: 0 <= j < |outs| && outs[j].Interrupted?
    ensures AllDone(outs) ==> r == Done(Count(Values(outs)) < threshold)
    ensures r.Done? ==> forall full :: Completes(outs, full) ==> (r.value <==> Count(full) < threshold)
    ensures r.Interrupted? <==> FailsFrom(Reorder(outs, order), 0, threshold, false)
  {
    SolveWithThreshold(outs, order, threshold, false)
  }

  /** The single-child "any true" check IF uses for each of its parts hands back the
      child's own result, failure included. */
  lemma AnyTrueOfOne(o: Outcome)
    ensures IsPermutation([0], 1)
    ensures SolveWithThreshold([o], [0], 0, true) == o
  {
    assert Range(1) == [0];
    var r := SolveWithThreshold([o], [0], 0, true);
    if o.Done? {
      assert Values([o]) == [o.value];
      assert Count([o.value]) == if o.value then 1 else 0;
    }
  }
}
