/** Option and Result values: the model's stand-ins for Python's `None`
    results and raised exceptions. */
module Results {

  datatype Option<+T> = None | Some(value: T)

  /** A value or the error the source would raise; usable with `:-`. */
  datatype Result<+T, +E> = Success(value: T) | Failure(error: E) {

    predicate IsFailure() {
      Failure?
    }

    function PropagateFailure<U>(): Result<U, E>
      requires Failure?
    {
      Failure(error)
    }

    function Extract(): T
      requires Success?
    {
      value
    }
  }

  /** The values of a sequence of results, or the first failure among them:
      what a loop that stops at the first raised error produces. */
  function Collect<T, E>(rs: seq<Result<T, E>>): (r: Result<seq<T>, E>)
    ensures r.Success? <==> forall k :: 0 <= k < |rs| ==> rs[k].Success?
    ensures r.Success? ==> |r.value| == |rs| && forall k :: 0 <= k < |rs| ==> r.value[k] == rs[k].value
    ensures r.Failure? ==> exists k :: 0 <= k < |rs| && rs[k].Failure? && r.error == rs[k].error
    decreases |rs|
  {
    if |rs| == 0 then Success([])
    else
      var n := |rs| - 1;
      var front :- Collect(rs[..n]);
      var last :- rs[n];
      Success(front + [last])
  }

  /** The error reported is that of the first failing result: every result
      before it succeeded. */
  lemma {:induction false} CollectFirstFailure<T, E>(rs: seq<Result<T, E>>)
    ensures Collect(rs).Failure? ==>
      exists k :: 0 <= k < |rs| && rs[k].Failure? && Collect(rs).error == rs[k].error
        && forall j :: 0 <= j < k ==> rs[j].Success?
    decreases |rs|
  {
    if |rs| > 0 {
      var n := |rs| - 1;
      var init := rs[..n];
      CollectFirstFailure(init);
      if Collect(init).Failure? {
        var k :| 0 <= k < n && init[k].Failure? && Collect(init).error == init[k].error
          && forall j :: 0 <= j < k ==> init[j].Success?;
        assert forall j :: 0 <= j <= k ==> init[j] == rs[j];
      } else if rs[n].Failure? {
        assert forall j :: 0 <= j < n ==> init[j] == rs[j];
      }
    }
  }
}
