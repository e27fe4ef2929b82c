/** Option and Result, and the bookkeeping a loop that collects results needs. */
module Wrappers {
  datatype Option<+T> = None | Some(value: T)

  datatype Result<+T, +E> = Ok(value: T) | Err(error: E)

  /** `done` followed by the outcome of the rest of a scan; a failure of the rest is the failure of the whole. */
  function Prepend<T, E>(done: seq<T>, r: Result<seq<T>, E>): Result<seq<T>, E>
  {
    match r
    case Ok(rest) => Ok(done + rest)
    case Err(e) => Err(e)
  }

  lemma PrependConcat<T, E>(done: seq<T>, more: seq<T>, r: Result<seq<T>, E>)
    ensures Prepend(done, Prepend(more, r)) == Prepend(done + more, r)
  {
    if r.Ok? {
      assert done + (more + r.value) == (done + more) + r.value;
    }
  }

  lemma PrependNothing<T, E>(r: Result<seq<T>, E>)
    ensures Prepend([], r) == r
  {
    if r.Ok? {
      assert [] + r.value == r.value;
    }
  }

  lemma PrependAll<T, E>(done: seq<T>, r: Result<seq<T>, E>)
    requires r == Ok([])
    ensures Prepend(done, r) == Ok(done)
  {
    assert done + [] == done;
  }
}
