/** Option and Result, the failure-carrying values used by both client models, and mapping over Results. */
module Wrappers {

  datatype Option<+T> = None | Some(value: T)

  /** A Python call either returns a value or raises an exception of kind E. */
  datatype Result<+T, +E> = Ok(value: T) | Err(error: E)

  /** f applied to each of xs in order, stopping at the first error. */
  function MapResults<A, B, E>(f: A -> Result<B, E>, xs: seq<A>): Result<seq<B>, E>
    decreases |xs|
  {
    if xs == [] then Ok([])
    else
      match MapResults(f, xs[..|xs| - 1])
      case Err(e) => Err(e)
      case Ok(ys) =>
        match f(xs[|xs| - 1])
        case Err(e) => Err(e)
        case Ok(y) => Ok(ys + [y])
  }

  /** MapResults succeeds exactly when f succeeds on every element, and then holds f's results in order. */
  lemma {:induction false} MapResultsEach<A, B, E>(f: A -> Result<B, E>, xs: seq<A>)
    ensures MapResults(f, xs).Ok? <==> forall i :: 0 <= i < |xs| ==> f(xs[i]).Ok?
    ensures MapResults(f, xs).Ok? ==> |MapResults(f, xs).value| == |xs|
    ensures MapResults(f, xs).Ok? ==> forall i :: 0 <= i < |xs| ==> Ok(MapResults(f, xs).value[i]) == f(xs[i])
    decreases |xs|
  {
    if xs != [] {
      var n := |xs| - 1;
      var init := xs[..n];
      MapResultsEach(f, init);
      assert forall i :: 0 <= i < n ==> init[i] == xs[i];
    }
  }

  /** An error on a prefix is the error of the whole sequence. */
  lemma {:induction false} MapResultsStop<A, B, E>(f: A -> Result<B, E>, xs: seq<A>, k: nat)
    requires k <= |xs| && MapResults(f, xs[..k]).Err?
    ensures MapResults(f, xs) == MapResults(f, xs[..k])
    decreases |xs|
  {
    if k == |xs| {
      assert xs[..k] == xs;
    } else {
      var init := xs[..|xs| - 1];
      assert init[..k] == xs[..k];
      MapResultsStop(f, init, k);
    }
  }
}
