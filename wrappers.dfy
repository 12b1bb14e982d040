/** Failure-compatible result types used by every module of the model. */
module Wrappers {

  datatype Option<+T> = None | Some(value: T)

  /** A computation that returns a value or raises an exception. */
  datatype Result<+R, +E> = Success(value: R) | Failure(error: E)

  /** A computation that returns nothing or raises an exception. */
  datatype Outcome<+E> = Pass | Fail(error: E)

  /** A list comprehension whose items are computed in order: the results of all of them,
      or the exception of the first that raises. */
  function Collect<T(==), E(==)>(rs: seq<Result<T, E>>): (r: Result<seq<T>, E>)
    ensures r.Success? <==> forall i | 0 <= i < |rs| :: rs[i].Success?
    ensures r.Success? ==> |r.value| == |rs| && forall i | 0 <= i < |rs| :: rs[i] == Success(r.value[i])
    ensures r.Failure? ==> exists i | 0 <= i < |rs| ::
      rs[i] == Failure(r.error) && forall j | 0 <= j < i :: rs[j].Success?
  {
    if rs == [] then Success([])
    else
      match rs[0]
      case Failure(e) => Failure(e)
      case Success(v) =>
        match Collect(rs[1..])
        case Failure(e) =>
          var i :| 0 <= i < |rs[1..]| && rs[1..][i].Failure? && rs[1..][i].error == e && forall j | 0 <= j < i :: rs[1..][j].Success?;
          assert rs[i + 1] == Failure(e);
          assert forall j | 0 <= j < i + 1 :: rs[j].Success? by {
            forall j | 0 <= j < i + 1 ensures rs[j].Success? {
              if j > 0 { assert rs[j] == rs[1..][j - 1]; }
            }
          }
          Failure(e)
        case Success(vs) =>
          assert forall i | 1 <= i < |rs| :: rs[i] == rs[1..][i - 1];
          Success([v] + vs)
  }
}
