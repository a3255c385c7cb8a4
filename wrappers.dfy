/** Option and Result values used for the source's missing values and raised exceptions. */
module Wrappers {

  datatype Option<+T> = None | Some(value: T)

  /** `Err` stands for a Python exception that propagates to the caller. */
  datatype Result<+T, +E> = Ok(value: T) | Err(error: E)

  /**
   * `f` applied to each element in order, as a loop that lets the first
   * exception escape: every result when none fails, otherwise the error of
   * the first element that fails.
   */
  function MapResult<A, B, E>(xs: seq<A>, f: A -> Result<B, E>): (r: Result<seq<B>, E>)
    ensures r.Ok? <==> forall k :: 0 <= k < |xs| ==> f(xs[k]).Ok?
    ensures r.Ok? ==> |r.value| == |xs| && forall k :: 0 <= k < |xs| ==> r.value[k] == f(xs[k]).value
    ensures r.Err? ==> exists k :: 0 <= k < |xs| && f(xs[k]).Err? && r.error == f(xs[k]).error
                          && forall j :: 0 <= j < k ==> f(xs[j]).Ok?
    decreases |xs|
  {
    if xs == [] then Ok([])
    else
      var pre := xs[..|xs| - 1];
      assert forall k :: 0 <= k < |pre| ==> pre[k] == xs[k];
      match MapResult(pre, f)
      case Err(e) => Err(e)
      case Ok(done) =>
        match f(xs[|xs| - 1])
        case Err(e) => Err(e)
        case Ok(y) => Ok(done + [y])
  }

  /** A failing element makes the whole map fail, whatever follows it. */
  lemma MapResultPrefix<A, B, E>(xs: seq<A>, ys: seq<A>, f: A -> Result<B, E>)
    requires MapResult(xs, f).Err?
    ensures MapResult(xs + ys, f) == MapResult(xs, f)
  {
    var k :| 0 <= k < |xs| && f(xs[k]).Err? && MapResult(xs, f).error == f(xs[k]).error
                && forall j :: 0 <= j < k ==> f(xs[j]).Ok?;
    assert (xs + ys)[k] == xs[k];
    assert forall j :: 0 <= j < k ==> (xs + ys)[j] == xs[j];
  }
}
