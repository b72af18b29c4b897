/** Option and Result, the failure-compatible wrappers used across the model. */
module Wrappers {

  datatype Option<+T> = None | Some(value: T) {
    predicate IsFailure() { None? }

    function PropagateFailure<U>(): Option<U>
      requires None?
    {
      None
    }

    function Extract(): T
      requires Some?
    {
      value
    }
  }

  datatype Result<+R, +E> = Success(value: R) | Failure(error: E) {
    predicate IsFailure() { Failure? }

    function PropagateFailure<U>(): Result<U, E>
      requires Failure?
    {
      Failure(error)
    }

    function Extract(): R
      requires Success?
    {
      value
    }
  }

  /** The first present value of a sequence of options, tried in order. */
  function FirstSome<T>(xs: seq<Option<T>>): Option<T>
  {
    if |xs| == 0 then None else if xs[0].Some? then xs[0] else FirstSome(xs[1..])
  }

  /** FirstSome returns the option at the first index holding a value, and None
      exactly when no index holds one. */
  lemma {:induction false} FirstSomeSpec<T>(xs: seq<Option<T>>)
    ensures FirstSome(xs).None? <==> forall i :: 0 <= i < |xs| ==> xs[i].None?
    ensures FirstSome(xs).Some? ==>
      exists j :: 0 <= j < |xs| && FirstSome(xs) == xs[j] && forall i :: 0 <= i < j ==> xs[i].None?
    decreases |xs|
  {
    if |xs| > 0 && xs[0].None? {
      FirstSomeSpec(xs[1..]);
      assert forall i :: 1 <= i < |xs| ==> xs[i] == xs[1..][i - 1];
      if FirstSome(xs[1..]).Some? {
        var j :| 0 <= j < |xs[1..]| && FirstSome(xs[1..]) == xs[1..][j]
          && forall i :: 0 <= i < j ==> xs[1..][i].None?;
        assert FirstSome(xs) == xs[j + 1];
      }
    }
  }
}
