/**
 * The shape shared by every loop of the translator: walk a list in order,
 * append the result for each element, and let the first exception abort
 * the whole loop.
 */
module Traverse {
  import opened Wrappers

  /** `[f(x) for x in xs]` where `f` may raise: the results in order, or the first error. */
  function MapAll<A, B, E>(xs: seq<A>, f: A -> Result<B, E>): (r: Result<seq<B>, E>)
    ensures r.Ok? ==> |r.value| == |xs|
    decreases |xs|
  {
    if xs == [] then Ok([])
    else
      match MapAll(xs[..|xs| - 1], f)
      case Err(e) => Err(e)
      case Ok(ys) =>
        match f(xs[|xs| - 1])
        case Err(e) => Err(e)
        case Ok(y) => Ok(ys + [y])
  }

  /** The loop succeeds exactly when every element succeeds, and then gives each element's result at its position. */
  lemma {:induction false} MapAllOk<A, B, E>(xs: seq<A>, f: A -> Result<B, E>, ys: seq<B>)
    ensures MapAll(xs, f) == Ok(ys) <==> |ys| == |xs| && forall i :: 0 <= i < |xs| ==> f(xs[i]) == Ok(ys[i])
    decreases |xs|
  {
    if xs != [] {
      var n := |xs| - 1;
      if |ys| == |xs| {
        MapAllOk(xs[..n], f, ys[..n]);
        assert ys == ys[..n] + [ys[n]];
      } else if MapAll(xs, f).Ok? {
        assert |MapAll(xs, f).value| == |xs|;
      }
    }
  }

  /** The loop fails exactly when some element fails, and then with the error of the first failing element. */
  lemma {:induction false} MapAllErr<A, B, E>(xs: seq<A>, f: A -> Result<B, E>)
    ensures MapAll(xs, f).Err? <==> exists i :: 0 <= i < |xs| && f(xs[i]).Err?
    ensures MapAll(xs, f).Err? ==>
      exists i :: 0 <= i < |xs| && f(xs[i]) == Err(MapAll(xs, f).error) && forall j :: 0 <= j < i ==> f(xs[j]).Ok?
    decreases |xs|
  {
    if xs != [] {
      var n := |xs| - 1;
      MapAllErr(xs[..n], f);
      assert forall i :: 0 <= i < n ==> xs[..n][i] == xs[i];
      if MapAll(xs[..n], f).Err? {
        var i :| 0 <= i < n && f(xs[..n][i]) == Err(MapAll(xs[..n], f).error) && forall j :: 0 <= j < i ==> f(xs[..n][j]).Ok?;
        assert f(xs[i]) == Err(MapAll(xs, f).error);
      } else {
        assert forall i :: 0 <= i < n ==> f(xs[i]).Ok?;
      }
    }
  }

  /** The loop succeeds exactly when every element succeeds. */
  lemma MapAllSucceeds<A, B, E>(xs: seq<A>, f: A -> Result<B, E>)
    ensures MapAll(xs, f).Ok? <==> forall i :: 0 <= i < |xs| ==> f(xs[i]).Ok?
  {
    MapAllErr(xs, f);
  }

  /** Once a prefix of the loop has failed, the rest of the list is never reached. */
  lemma {:induction false} MapAllPrefixErr<A, B, E>(xs: seq<A>, f: A -> Result<B, E>, k: nat)
    requires k <= |xs| && MapAll(xs[..k], f).Err?
    ensures MapAll(xs, f) == MapAll(xs[..k], f)
    decreases |xs| - k
  {
    if k < |xs| {
      assert xs[..k + 1][..k] == xs[..k];
      MapAllPrefixErr(xs, f, k + 1);
    } else {
      assert xs[..k] == xs;
    }
  }

  /** One more iteration of the loop: extend the gathered results, or abort with the element's error. */
  lemma MapAllStep<A, B, E>(xs: seq<A>, f: A -> Result<B, E>, k: nat, ys: seq<B>)
    requires k < |xs| && MapAll(xs[..k], f) == Ok(ys)
    ensures f(xs[k]).Ok? ==> MapAll(xs[..k + 1], f) == Ok(ys + [f(xs[k]).value])
    ensures f(xs[k]).Err? ==> MapAll(xs, f) == Err(f(xs[k]).error)
  {
    assert xs[..k + 1][..k] == xs[..k];
    if f(xs[k]).Err? {
      MapAllPrefixErr(xs, f, k + 1);
    }
  }
}
