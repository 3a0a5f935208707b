/** `ParallelCircuitValue`, the handle `solve` returns: either a rejection built after
    `stop` or a wrapper around the future of the root task. Both fields are final, so a
    handle is an immutable value and every read of it sees the same outcome. */
module Value {

  /** How the future of the root task settled. */
  datatype Settlement =
    | Returned(value: bool)   // the root task returned a boolean
    | Threw                   // the root task threw; `get` reports an `ExecutionException`
    | Cancelled               // the future was cancelled; `get` reports a `CancellationException`

  /** The `future` field: absent (null) or a future that settles as given. */
  datatype FutureRef = NullFuture | FutureOf(settlement: Settlement)

  datatype ParallelCircuitValue = ParallelCircuitValue(broken: bool, future: FutureRef)

  /** What a call of `getValue` ends in: the boolean it returns, the
      `InterruptedException` every failure the solver reports is turned into, or the
      `NullPointerException` of reading an absent future. */
  datatype Access = Read(value: bool) | ThrowsInterrupted | NullDereference

  /** The constructor taking a future. The handle is live: it is not broken, it never
      dereferences an absent future, and an uninterrupted read returns a boolean exactly
      when the future returned one. */
  function FromFuture(settlement: Settlement): (v: ParallelCircuitValue)
    ensures !v.broken
    ensures forall w :: GetValue(v, w) != NullDereference
    ensures GetValue(v, false).Read? <==> settlement.Returned?
  {
    ParallelCircuitValue(false, FutureOf(settlement))
  }

  /** The constructor taking a flag; `solve` uses it with `true` after `stop`. A handle
      built this way has no future: with the flag set every read fails, and with it clear
      every read dereferences the absent future. */
  function FromFlag(broken: bool): (v: ParallelCircuitValue)
    ensures v.broken == broken
    ensures broken ==> forall w :: GetValue(v, w) == ThrowsInterrupted
    ensures !broken ==> forall w :: GetValue(v, w) == NullDereference
  {
    ParallelCircuitValue(broken, NullFuture)
  }

  /** `getValue`. `interruptedWhileWaiting` says whether the calling thread is interrupted
      while it blocks on the future before the future settles. A read returns a boolean
      only from a live handle whose future returned that boolean to an uninterrupted
      caller, and it dereferences nothing absent unless the handle is live yet has no
      future. */
  function GetValue(v: ParallelCircuitValue, interruptedWhileWaiting: bool): (a: Access)
    ensures a.Read? <==> !v.broken && !interruptedWhileWaiting && v.future.FutureOf? && v.future.settlement.Returned?
    ensures a.Read? ==> a.value == v.future.settlement.value
    ensures a.NullDereference? <==> !v.broken && v.future.NullFuture?
  {
    if v.broken then ThrowsInterrupted
    else
      match v.future
      case NullFuture => NullDereference
      case FutureOf(settlement) =>
        if interruptedWhileWaiting then ThrowsInterrupted
        else
          match settlement
          case Returned(b) => Read(b)
          case Threw => ThrowsInterrupted
          case Cancelled => ThrowsInterrupted
  }

  /** A rejected handle fails on every read, whatever its future field holds and
      whether or not the caller is interrupted: the future is never consulted. */
  lemma BrokenAlwaysFails(f: FutureRef, w: bool)
    ensures GetValue(ParallelCircuitValue(true, f), w) == ThrowsInterrupted
  {
  }

  /** An uninterrupted read returns a boolean exactly when the root task returned that boolean. */
  lemma GetValueReturnsTaskValue(settlement: Settlement, b: bool)
    ensures GetValue(FromFuture(settlement), false) == Read(b) <==> settlement == Returned(b)
  {
  }

  /** A fault, a cancellation and an interrupted wait are reported as one and the same
      failure; a read fails exactly in those cases. */
  lemma FailuresCollapse(settlement: Settlement, w: bool)
    ensures GetValue(FromFuture(settlement), w) == ThrowsInterrupted <==> w || !settlement.Returned?
    ensures GetValue(FromFuture(Threw), w) == GetValue(FromFuture(Cancelled), w)
  {
  }
}
