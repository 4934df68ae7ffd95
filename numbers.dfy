/** The arithmetic of scores: the 0.8 decay per level and the arithmetic mean (`np.mean`). */
module Numbers {

  /** `0.8 ** depth`. */
  function Decay(depth: nat): (r: real)
    ensures 0.0 < r <= 1.0
  {
    if depth == 0 then 1.0 else 0.8 * Decay(depth - 1)
  }

  function Sum(xs: seq<real>): real {
    if xs == [] then 0.0 else xs[0] + Sum(xs[1..])
  }

  /** The arithmetic mean of a non-empty sequence. */
  function Mean(xs: seq<real>): real
    requires |xs| > 0
  {
    Sum(xs) / (|xs| as real)
  }

  /** Every element lies in [lo, hi]. */
  predicate Within(xs: seq<real>, lo: real, hi: real) {
    forall k :: 0 <= k < |xs| ==> lo <= xs[k] <= hi
  }

  lemma {:induction false} SumWithin(xs: seq<real>, lo: real, hi: real)
    requires Within(xs, lo, hi)
    ensures (|xs| as real) * lo <= Sum(xs) <= (|xs| as real) * hi
  {
    if xs != [] {
      SumWithin(xs[1..], lo, hi);
    }
  }

  /** A mean lies between any lower and upper bound of its elements. */
  lemma MeanWithin(xs: seq<real>, lo: real, hi: real)
    requires |xs| > 0 && Within(xs, lo, hi)
    ensures lo <= Mean(xs) <= hi
  {
    SumWithin(xs, lo, hi);
    var n := |xs| as real;
    Quotient(Sum(xs), n, lo, hi);
  }

  /** Dividing by a positive `n` keeps bounds scaled by `n`. */
  lemma Quotient(s: real, n: real, lo: real, hi: real)
    requires n > 0.0 && n * lo <= s <= n * hi
    ensures lo <= s / n <= hi
  {
    var q := s / n;
    assert s == q * n;
  }

  /** The mean of a sequence whose elements all equal `x` is `x`. */
  lemma MeanConstant(xs: seq<real>, x: real)
    requires |xs| > 0 && Within(xs, x, x)
    ensures Mean(xs) == x
  {
    MeanWithin(xs, x, x);
  }
}
