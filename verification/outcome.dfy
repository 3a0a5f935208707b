/** What evaluating one node yields. In the solver every failure while evaluating a node
    (the thread was interrupted, a child task was cancelled, a child task threw) is turned
    into the same `InterruptedException`; `Interrupted` stands for that single kind. */
module Outcomes {

  datatype Outcome = Done(value: bool) | Interrupted

  predicate AllDone(os: seq<Outcome>) {
    forall j :: 0 <= j < |os| ==> os[j].Done?
  }

  /** The booleans carried by `os`, with `false` standing in for a failed entry. */
  function Values(os: seq<Outcome>): (vs: seq<bool>)
    ensures |vs| == |os|
    ensures forall j :: 0 <= j < |os| && os[j].Done? ==> vs[j] == os[j].value
  {
    seq(|os|, j requires 0 <= j < |os| => os[j].Done? && os[j].value)
  }

  /** `full` is one way of completing `os`: it agrees with every entry that succeeded and
      may give any value to the entries that failed or were never awaited. */
  predicate Completes(os: seq<Outcome>, full: seq<bool>) {
    && |full| == |os|
    && forall j :: 0 <= j < |os| && os[j].Done? ==> full[j] == os[j].value
  }
}
