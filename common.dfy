/** Option and Result values, used wherever the modelled code can fail or find nothing,
    and the one generic predicate the modules share. */
module Common {

  datatype Option<+T> = None | Some(value: T)

  /** The outcome of a call that may raise: the value it returns, or the message of the
      exception it raises (Python's `str(e)`). */
  datatype Result<+T, +E> = Success(value: T) | Failure(error: E)

  /** No element occurs twice. */
  predicate Distinct<T(==)>(xs: seq<T>) {
    forall i, j :: 0 <= i < j < |xs| ==> xs[i] != xs[j]
  }
}
