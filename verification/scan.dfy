/**
 * The first-match scan both extractors perform over the pages of a document:
 * the first element that yields a value wins and nothing after it is examined.
 */
module Scan {
  import opened Wrappers

  /** `i` is the first position of `xs` on which `f` yields a value. */
  predicate IsFirst<T, U>(xs: seq<T>, f: T -> Option<U>, i: int) {
    0 <= i < |xs| && f(xs[i]).Some? && forall j :: 0 <= j < i ==> f(xs[j]).None?
  }

  function FirstSome<T, U>(xs: seq<T>, f: T -> Option<U>): (r: Option<U>)
    ensures r.None? <==> forall i :: 0 <= i < |xs| ==> f(xs[i]).None?
    ensures r.Some? ==> exists i :: IsFirst(xs, f, i)
    ensures forall i :: IsFirst(xs, f, i) ==> r == f(xs[i])
    decreases |xs|
  {
    if |xs| == 0 then None
    else
      match f(xs[0])
      case Some(v) =>
        assert IsFirst(xs, f, 0);
        Some(v)
      case None =>
        var r := FirstSome(xs[1..], f);
        assert forall i :: IsFirst(xs, f, i) && i > 0 ==> IsFirst(xs[1..], f, i - 1);
        assert r.Some? ==> exists i :: IsFirst(xs[1..], f, i) && IsFirst(xs, f, i + 1);
        r
  }

  /** Elements after the first match are never examined: appending to the input changes nothing. */
  lemma {:induction false} FirstSomeAppend<T, U>(xs: seq<T>, ys: seq<T>, f: T -> Option<U>)
    requires FirstSome(xs, f).Some?
    ensures FirstSome(xs + ys, f) == FirstSome(xs, f)
    decreases |xs|
  {
    assert (xs + ys)[0] == xs[0];
    if f(xs[0]).None? {
      assert (xs + ys)[1..] == xs[1..] + ys;
      FirstSomeAppend(xs[1..], ys, f);
    }
  }
}
