/** Failure-compatible wrappers shared by every module of the model.
    A Python exception that escapes a script becomes a `Failure` here. */
module Results {

  /** An optional value: an attribute cclib may or may not have set,
      a table lookup that may miss. */
  datatype Option<+T> = None | Some(value: T)

  /** Either a computed value or the reason the computation stopped. */
  datatype Result<+T, +E> = Success(value: T) | Failure(error: E) {

    predicate IsFailure() {
      Failure?
    }

    function PropagateFailure<U>(): Result<U, E>
      requires Failure?
    {
      Failure(error)
    }

    function Extract(): T
      requires Success?
    {
      value
    }
  }

  /** What a loop over independent items did when nothing catches the
      exceptions: the results of the items it finished, in order, and the
      exception of the item that stopped it, if any. That item is the one
      at index `|done|`. */
  datatype Run<+T, +E> = Run(done: seq<T>, failure: Option<E>)

  /** Runs items in order until the first one that fails. */
  function RunUntilFailure<T, E>(outcomes: seq<Result<T, E>>): (r: Run<T, E>)
    ensures |r.done| <= |outcomes|
    ensures forall i :: 0 <= i < |r.done| ==> outcomes[i] == Success(r.done[i])
    ensures r.failure.None? <==> |r.done| == |outcomes|
    ensures r.failure.Some? ==> outcomes[|r.done|] == Failure(r.failure.value)
    decreases |outcomes|
  {
    if |outcomes| == 0 then Run([], None)
    else
      match outcomes[0]
      case Failure(e) => Run([], Some(e))
      case Success(v) =>
        var rest := RunUntilFailure(outcomes[1..]);
        assert forall i :: 1 <= i < |outcomes| ==> outcomes[1..][i - 1] == outcomes[i];
        Run([v] + rest.done, rest.failure)
  }
}
