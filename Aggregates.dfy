/** The column aggregates the analysis takes: `sum`, `mean` and `max` of a
    column of reals. An empty column has no mean and no maximum (pandas gives NaN). */
module Aggregates {
  import opened Wrappers

  function Sum(xs: seq<real>): real
  {
    if |xs| == 0 then 0.0 else xs[0] + Sum(xs[1..])
  }

  function Mean(xs: seq<real>): (m: Option<real>)
    ensures m.None? <==> |xs| == 0
    ensures m.Some? ==> (|xs| as real) * m.value == Sum(xs)
  {
    if |xs| == 0 then None else Some(Sum(xs) / (|xs| as real))
  }

  function Max(xs: seq<real>): (m: Option<real>)
    ensures m.None? <==> |xs| == 0
    ensures m.Some? ==> forall k :: 0 <= k < |xs| ==> xs[k] <= m.value
    ensures m.Some? ==> exists k :: 0 <= k < |xs| && xs[k] == m.value
  {
    if |xs| == 0 then None
    else
      match Max(xs[1..])
      case None => Some(xs[0])
      case Some(rest) =>
        if xs[0] >= rest then Some(xs[0])
        else
          var k :| 0 <= k < |xs[1..]| && xs[1..][k] == rest;
          assert xs[k + 1] == rest;
          Some(rest)
  }

  /** A sum of n values that all lie in [lo, hi] lies in [n * lo, n * hi]. */
  lemma {:induction false} SumBounds(xs: seq<real>, lo: real, hi: real)
    requires forall k :: 0 <= k < |xs| ==> lo <= xs[k] <= hi
    ensures (|xs| as real) * lo <= Sum(xs) <= (|xs| as real) * hi
  {
    if |xs| > 0 {
      SumBounds(xs[1..], lo, hi);
      assert (|xs| as real) * lo == lo + (|xs[1..]| as real) * lo;
      assert (|xs| as real) * hi == hi + (|xs[1..]| as real) * hi;
    }
  }

  /** A quotient s / n of a sum s lying in [n * lo, n * hi] lies in [lo, hi]. */
  lemma QuotientBounds(n: real, m: real, s: real, lo: real, hi: real)
    requires n > 0.0 && n * m == s && n * lo <= s <= n * hi
    ensures lo <= m <= hi
  {
  }

  /** The mean of a column whose sum lies in [n * lo, n * hi] lies in [lo, hi]. */
  lemma MeanFromSum(xs: seq<real>, lo: real, hi: real)
    requires |xs| > 0
    requires (|xs| as real) * lo <= Sum(xs) <= (|xs| as real) * hi
    ensures lo <= Mean(xs).value <= hi
  {
    QuotientBounds(|xs| as real, Mean(xs).value, Sum(xs), lo, hi);
  }

  /** The mean of a non-empty column of values at least `lo` lies between
      `lo` and the column's maximum. */
  lemma MeanWithinBounds(xs: seq<real>, lo: real)
    requires |xs| > 0
    requires forall k :: 0 <= k < |xs| ==> lo <= xs[k]
    ensures lo <= Mean(xs).value <= Max(xs).value
  {
    var top := Max(xs).value;
    SumBounds(xs, lo, top);
    MeanFromSum(xs, lo, top);
  }
}
