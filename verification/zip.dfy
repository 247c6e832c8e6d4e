/** Python's `zip`, which pairs two sequences up to the shorter one. */
module Zip {

  /** Smaller of two lengths: where `zip` stops. */
  function Min(a: int, b: int): (m: int)
    ensures m <= a && m <= b
    ensures m == a || m == b
  {
    if a <= b then a else b
  }

  /** `[f(x, y) for x, y in zip(xs, ys)]`. */
  function ZipWith<A, B, R>(f: (A, B) -> R, xs: seq<A>, ys: seq<B>): (rs: seq<R>)
    ensures |rs| == Min(|xs|, |ys|)
    ensures forall i :: 0 <= i < |rs| ==> rs[i] == f(xs[i], ys[i])
  {
    if xs == [] || ys == [] then []
    else [f(xs[0], ys[0])] + ZipWith(f, xs[1..], ys[1..])
  }

  /** Zipping two concatenations whose first parts have equal length is
      zipping the parts apart and concatenating. */
  lemma ZipWithAppend<A, B, R>(f: (A, B) -> R, xs1: seq<A>, ys1: seq<B>, xs2: seq<A>, ys2: seq<B>)
    requires |xs1| == |ys1|
    ensures ZipWith(f, xs1 + xs2, ys1 + ys2) == ZipWith(f, xs1, ys1) + ZipWith(f, xs2, ys2)
  {
    var all, first, second := ZipWith(f, xs1 + xs2, ys1 + ys2), ZipWith(f, xs1, ys1), ZipWith(f, xs2, ys2);
    var n := |xs1|;
    forall i | 0 <= i < |all| ensures all[i] == (first + second)[i] {
      if i < n {
        assert (xs1 + xs2)[i] == xs1[i] && (ys1 + ys2)[i] == ys1[i];
      } else {
        assert (xs1 + xs2)[i] == xs2[i - n] && (ys1 + ys2)[i] == ys2[i - n];
      }
    }
  }
}
