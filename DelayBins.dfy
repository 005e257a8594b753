/** Classification of excess delays into six half-open ranges, closed on the
    left and open on the right (`pd.cut(..., right=False)`), and the count of
    delays per range in the fixed label order (`value_counts().reindex(labels,
    fill_value=0)`). Delays are in seconds. */
module DelayBins {
  import opened Wrappers
  import opened Select

  /** A bin edge: a finite value or `float("inf")`. */
  datatype Edge = At(value: real) | Infinity

  /** `bins = [0, 0.001, 0.005, 0.010, 0.025, 0.050, float("inf")]` */
  const Edges: seq<Edge> := [At(0.0), At(0.001), At(0.005), At(0.010), At(0.025), At(0.050), Infinity]

  const Labels: seq<string> := ["<1ms", "1–5ms", "5–10ms", "10–25ms", "25–50ms", ">50ms"]

  /** Edge e is at most x. */
  predicate EdgeAtMost(e: Edge, x: real)
  {
    e.At? && e.value <= x
  }

  /** Edge a lies strictly below edge b. */
  predicate EdgeBelow(a: Edge, b: Edge)
  {
    a.At? && (b.Infinity? || a.value < b.value)
  }

  predicate Ascending(edges: seq<Edge>)
  {
    forall k :: 0 <= k < |edges| - 1 ==> EdgeBelow(edges[k], edges[k + 1])
  }

  /** x lies in bin i: Edges[i] <= x < Edges[i + 1]. */
  predicate InBin(x: real, i: nat)
  {
    i < |Labels| && EdgeAtMost(Edges[i], x) && !EdgeAtMost(Edges[i + 1], x)
  }

  /** The membership test of bin i, as a mask over a column of delays. */
  function InBinOf(i: nat): real -> bool
  {
    x => InBin(x, i)
  }

  /** How many edges are at most x (`searchsorted(edges, x, side="right")`). */
  function EdgesAtMost(edges: seq<Edge>, x: real): nat
  {
    if |edges| == 0 then 0
    else (if EdgeAtMost(edges[0], x) then 1 else 0) + EdgesAtMost(edges[1..], x)
  }

  /** On ascending edges, the edges at most x are exactly a prefix. */
  lemma {:induction false} EdgesAtMostIsPrefix(edges: seq<Edge>, x: real)
    requires Ascending(edges)
    ensures EdgesAtMost(edges, x) <= |edges|
    ensures forall k :: 0 <= k < |edges| ==> (EdgeAtMost(edges[k], x) <==> k < EdgesAtMost(edges, x))
  {
    if |edges| > 0 {
      var rest := edges[1..];
      EdgesAtMostIsPrefix(rest, x);
      if !EdgeAtMost(edges[0], x) && |rest| > 0 {
        assert EdgeBelow(edges[0], rest[0]);
        assert !EdgeAtMost(rest[0], x);
      }
      forall k | 0 < k < |edges|
        ensures EdgeAtMost(edges[k], x) <==> k < EdgesAtMost(edges, x)
      {
        assert edges[k] == rest[k - 1];
      }
    }
  }

  lemma EdgesAscending()
    ensures Ascending(Edges)
  {
    forall k | 0 <= k < |Edges| - 1
      ensures EdgeBelow(Edges[k], Edges[k + 1])
    {
    }
  }

  /** The bin of a delay, or None when the delay lies outside every bin. */
  function Cut(x: real): (b: Option<nat>)
    ensures b.Some? ==> InBin(x, b.value)
    ensures forall i: nat :: InBin(x, i) ==> b == Some(i)
    ensures b.None? <==> x < 0.0
  {
    EdgesAscending();
    EdgesAtMostIsPrefix(Edges, x);
    var k := EdgesAtMost(Edges, x);
    assert !EdgeAtMost(Edges[|Edges| - 1], x);
    if k == 0 || k == |Edges| then None else Some(k - 1)
  }

  /** Every non-negative delay lies in exactly one of the six bins. */
  lemma ExactlyOneBin(x: real)
    requires x >= 0.0
    ensures exists i: nat :: InBin(x, i)
    ensures forall i: nat, j: nat :: InBin(x, i) && InBin(x, j) ==> i == j
  {
    var b := Cut(x);
    assert InBin(x, b.value);
  }

  /** The delays of a column that fall in bin i, in column order. */
  function BinMembers(xs: seq<real>, i: nat): seq<real>
  {
    Filter(xs, InBinOf(i))
  }

  /** Counts per bin, in label order, gathered in one pass over the column. */
  function Tally(xs: seq<real>): (t: seq<nat>)
    ensures |t| == |Labels|
    ensures forall i :: 0 <= i < |Labels| ==> t[i] == |BinMembers(xs, i)|
  {
    if |xs| == 0 then [0, 0, 0, 0, 0, 0]
    else
      var t := Tally(xs[1..]);
      match Cut(xs[0])
      case None => t
      case Some(i) => t[i := t[i] + 1]
  }

  function SumNat(t: seq<nat>): nat
  {
    if |t| == 0 then 0 else t[0] + SumNat(t[1..])
  }

  lemma {:induction false} SumNatIncrement(t: seq<nat>, i: nat)
    requires i < |t|
    ensures SumNat(t[i := t[i] + 1]) == SumNat(t) + 1
  {
    if i > 0 {
      assert t[i := t[i] + 1][1..] == t[1..][i - 1 := t[i] + 1];
      SumNatIncrement(t[1..], i - 1);
    }
  }

  /** The counts add up to the number of delays when no delay is negative. */
  lemma {:induction false} TallyTotal(xs: seq<real>)
    requires forall k :: 0 <= k < |xs| ==> xs[k] >= 0.0
    ensures SumNat(Tally(xs)) == |xs|
  {
    if |xs| == 0 {
      assert SumNat([0, 0, 0, 0, 0, 0]) == 0;
    } else {
      TallyTotal(xs[1..]);
      SumNatIncrement(Tally(xs[1..]), Cut(xs[0]).value);
    }
  }

  /** The `(label, count)` table: all six labels in the fixed order, with 0
      for a bin no delay falls in. */
  function DelayCounts(xs: seq<real>): (c: seq<(string, nat)>)
    ensures |c| == |Labels|
    ensures forall i :: 0 <= i < |c| ==> c[i].0 == Labels[i] && c[i].1 == |BinMembers(xs, i)|
    ensures forall i :: 0 <= i < |c| ==> (c[i].1 == 0 <==> forall k :: 0 <= k < |xs| ==> !InBin(xs[k], i))
  {
    var t := Tally(xs);
    var c := seq(|Labels|, i requires 0 <= i < |Labels| => (Labels[i], t[i]));
    forall i | 0 <= i < |c|
      ensures c[i].1 == 0 <==> forall k :: 0 <= k < |xs| ==> !InBin(xs[k], i)
    {
      var members := BinMembers(xs, i);
      assert forall x :: x in members <==> x in xs && InBin(x, i);
      if members != [] {
        assert members[0] in xs && InBin(members[0], i);
        var k :| 0 <= k < |xs| && xs[k] == members[0];
      } else {
        forall k | 0 <= k < |xs| ensures !InBin(xs[k], i) {
          assert xs[k] in xs;
        }
      }
    }
    c
  }

  /** The count column of a `(label, count)` table. */
  function CountColumn(c: seq<(string, nat)>): seq<nat>
  {
    seq(|c|, i requires 0 <= i < |c| => c[i].1)
  }

  /** The counts of the table add up to the number of delays binned. */
  lemma DelayCountsTotal(xs: seq<real>)
    requires forall k :: 0 <= k < |xs| ==> xs[k] >= 0.0
    ensures SumNat(CountColumn(DelayCounts(xs))) == |xs|
  {
    assert CountColumn(DelayCounts(xs)) == Tally(xs);
    TallyTotal(xs);
  }
}
