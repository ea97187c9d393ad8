/** Option and Result values for the operations of the reduction pipeline that
    can fail, and the "first failure wins" collection of a list of results. */
module Outcomes {

  datatype Option<+T> = None | Some(value: T)

  datatype Result<+T, +E> = Success(value: T) | Failure(error: E) {
    predicate IsFailure() { Failure? }

    function PropagateFailure<U>(): Result<U, E>
      requires Failure?
    {
      Failure(error)
    }

    function Extract(): T
      requires Success?
    {
      value
    }
  }

  /** Runs a list of fallible steps in order and stops at the first failure,
      as a Python loop that appends results and lets an exception escape does. */
  function Collect<T, E>(rs: seq<Result<T, E>>): Result<seq<T>, E>
    decreases |rs|
  {
    if |rs| == 0 then Success([])
    else
      match Collect(rs[..|rs| - 1])
      case Failure(e) => Failure(e)
      case Success(vs) =>
        if rs[|rs| - 1].Failure? then Failure(rs[|rs| - 1].error)
        else Success(vs + [rs[|rs| - 1].value])
  }

  /** Collect succeeds exactly when every step does, keeping each step's value
      in place; otherwise it reports the error of the first failing step. */
  lemma {:induction false} CollectSpec<T, E>(rs: seq<Result<T, E>>)
    ensures Collect(rs).Success? <==> forall i :: 0 <= i < |rs| ==> rs[i].Success?
    ensures Collect(rs).Success? ==>
              |Collect(rs).value| == |rs| &&
              forall i :: 0 <= i < |rs| ==> Collect(rs).value[i] == rs[i].value
    ensures Collect(rs).Failure? ==>
              exists i :: 0 <= i < |rs| && rs[i].Failure? && Collect(rs).error == rs[i].error &&
                          forall j :: 0 <= j < i ==> rs[j].Success?
  {
    if |rs| > 0 {
      var init := rs[..|rs| - 1];
      CollectSpec(init);
      assert forall i :: 0 <= i < |init| ==> init[i] == rs[i];
      if Collect(init).Failure? {
        var i :| 0 <= i < |init| && init[i].Failure? && Collect(init).error == init[i].error &&
                 forall j :: 0 <= j < i ==> init[j].Success?;
        assert rs[i].Failure?;
      }
    }
  }

  /** A prefix of steps whose collection fails decides the whole collection. */
  lemma {:induction false} CollectPrefixFailure<T, E>(rs: seq<Result<T, E>>, k: nat)
    requires k <= |rs| && Collect(rs[..k]).Failure?
    ensures Collect(rs) == Collect(rs[..k])
    decreases |rs| - k
  {
    if k < |rs| {
      assert rs[..k + 1][..k] == rs[..k];
      CollectPrefixFailure(rs, k + 1);
    } else {
      assert rs[..k] == rs;
    }
  }
}
