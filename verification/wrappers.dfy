/** Option and Result, the two failure-carrying types the model returns. */
module Wrappers {

  datatype Option<+T> = None | Some(value: T)

  /** A Rust `Result`: `Failure` also stands for a panic, with an error value naming it. */
  datatype Result<+T, +E> = Success(value: T) | Failure(error: E)

  /** The `collect::<Result<Vec<_>, _>>()` of an iterator of results: the values in order,
      or the first error met, after which nothing more is looked at. */
  function Collect<A, T, E>(xs: seq<A>, f: A -> Result<T, E>): (r: Result<seq<T>, E>)
    ensures r.Success? <==> forall k :: 0 <= k < |xs| ==> f(xs[k]).Success?
    ensures r.Success? ==> |r.value| == |xs| && forall k :: 0 <= k < |xs| ==> f(xs[k]) == Success(r.value[k])
    ensures r.Failure? ==>
      exists k :: 0 <= k < |xs| && f(xs[k]) == Failure(r.error) && forall m :: 0 <= m < k ==> f(xs[m]).Success?
  {
    if xs == [] then Success([])
    else
      match f(xs[0])
      case Failure(e) => Failure(e)
      case Success(v) =>
        match Collect(xs[1..], f)
        case Failure(e) => Failure(e)
        case Success(vs) => Success([v] + vs)
  }
}
