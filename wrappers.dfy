/** Option and Result, with the error kinds the modelled code raises. */
module Wrappers {

  /** A value that may be absent; `None` stands for a Java `null`. */
  datatype Option<+T> = None | Some(value: T)

  /** The exceptions of the modelled code, by the role they play. */
  datatype Error =
    | CorruptData            // IllegalArgumentException (or NumberFormatException) thrown by a decoder
    | UnexpectedClientState  // capture with neither the inventory nor the equipment container available
    | NullSlot               // NullPointerException: serialising an equipment entry whose slot is null

  /** The outcome of an operation that may throw; usable with `:-`. */
  datatype Result<+T> = Ok(value: T) | Err(error: Error) {
    predicate IsFailure() {
      Err?
    }

    function PropagateFailure<U>(): Result<U>
      requires Err?
    {
      Err(error)
    }

    function Extract(): T
      requires Ok?
    {
      value
    }
  }

  /**
    * Collecting a Java stream whose map may throw (toArray, collect): all the
    * values in order, or the first exception.
    */
  function Collect<T>(results: seq<Result<T>>): (r: Result<seq<T>>)
    ensures r.Err? <==> exists i :: 0 <= i < |results| && results[i].Err?
    ensures r.Ok? ==> |r.value| == |results| && forall i :: 0 <= i < |results| ==> results[i] == Ok(r.value[i])
  {
    if |results| == 0 then Ok([])
    else
      assert forall j :: 1 <= j < |results| ==> results[j] == results[1..][j - 1];
      var first :- results[0];
      var rest :- Collect(results[1..]);
      Ok([first] + rest)
  }
}
