/** Failure-compatible wrappers shared by the whole model. */
module Outcomes {

  /** An optional value: `None` stands for a search that found nothing. */
  datatype Option<+T> = None | Some(value: T)

  /** The outcome of an operation that can fail with an error of type `E`. */
  datatype Result<+T, +E> = Ok(value: T) | Err(error: E) {

    predicate IsFailure() {
      Err?
    }

    function PropagateFailure<U>(): Result<U, E>
      requires Err?
    {
      Err(error)
    }

    function Extract(): T
      requires Ok?
    {
      value
    }
  }

  /** Index of the first failure in a sequence of outcomes. */
  function FirstFailure<T, E>(rs: seq<Result<T, E>>): (k: Option<nat>)
    ensures k.Some? ==> k.value < |rs| && rs[k.value].Err?
    ensures k.Some? ==> forall j :: 0 <= j < k.value ==> rs[j].Ok?
    ensures k.None? ==> forall j :: 0 <= j < |rs| ==> rs[j].Ok?
  {
    if |rs| == 0 then None
    else if rs[0].Err? then Some(0)
    else match FirstFailure(rs[1..])
      case None => None
      case Some(k) => Some(k + 1)
  }

  /**
   * Runs a sequence of steps that each may fail, stopping at the first
   * failure: all the values if every step succeeds, else the first error.
   */
  function Collect<T, E>(rs: seq<Result<T, E>>): (r: Result<seq<T>, E>)
    ensures r.Ok? <==> forall j :: 0 <= j < |rs| ==> rs[j].Ok?
    ensures r.Ok? ==> |r.value| == |rs| && forall j :: 0 <= j < |rs| ==> rs[j] == Ok(r.value[j])
    ensures r.Err? ==> exists k :: 0 <= k < |rs| && rs[k] == Err(r.error) && forall j :: 0 <= j < k ==> rs[j].Ok?
  {
    match FirstFailure(rs)
    case Some(k) => Err(rs[k].error)
    case None => Ok(seq(|rs|, j requires 0 <= j < |rs| => rs[j].value))
  }
}
