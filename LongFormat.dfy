/** The wide-to-long reshape: every participant row with StimulusCount
    `(time, no_target)` column pairs becomes StimulusCount long rows, stacked
    stimulus by stimulus (all participants for stimulus 1, then for stimulus 2, ...). */
module LongFormat {
  import opened Tables

  /** The long row for stimulus i of one wide row (the renamed column
      triple plus the `stimulus` column). */
  function Unpivot(w: WideRow, i: nat): LongRow
    requires 1 <= i <= |w.cells|
  {
    LongRow(w.participantNumber, w.cells[i - 1].time, w.cells[i - 1].noTarget, i)
  }

  /** `temp_df` for stimulus i: one row per participant, in table order. */
  function StimulusFrame(wide: seq<WideRow>, i: nat): seq<LongRow>
    requires WellFormed(wide) && 1 <= i <= StimulusCount
  {
    seq(|wide|, j requires 0 <= j < |wide| => Unpivot(wide[j], i))
  }

  /** The long table after the frames of stimuli 1..n have been concatenated. */
  function Melt(wide: seq<WideRow>, n: nat): seq<LongRow>
    requires WellFormed(wide) && n <= StimulusCount
  {
    if n == 0 then [] else Melt(wide, n - 1) + StimulusFrame(wide, n)
  }

  lemma {:induction false} MulNonNegative(c: int, p: int)
    requires c >= 0 && p >= 0
    ensures c * p >= 0
  {
    if c > 0 {
      MulNonNegative(c - 1, p);
      assert c * p == (c - 1) * p + p;
    }
  }

  lemma MulMonotone(a: int, b: int, p: int)
    requires a <= b && p >= 0
    ensures a * p <= b * p
  {
    assert b * p == a * p + (b - a) * p;
    MulNonNegative(b - a, p);
  }

  /** Index q of a layout in blocks of p rows lies in block q / p at offset q % p. */
  lemma BlockIndex(q: int, k: int, p: int)
    requires p > 0 && 0 <= k && k * p <= q < k * p + p
    ensures q / p == k && q % p == q - k * p
  {
    var d, r := q / p, q % p;
    assert q == d * p + r && 0 <= r < p;
    if d < k {
      MulMonotone(d + 1, k, p);
    } else if d > k {
      MulMonotone(k + 1, d, p);
    }
  }

  /** The melted table has n * P rows, and row q holds stimulus q / P + 1 of
      wide row q % P: each (participant row, stimulus) pair sits at exactly one index. */
  lemma {:induction false} MeltLayout(wide: seq<WideRow>, n: nat)
    requires WellFormed(wide) && n <= StimulusCount
    ensures |Melt(wide, n)| == n * |wide|
    ensures forall q :: 0 <= q < |Melt(wide, n)| ==>
              q / |wide| < n && Melt(wide, n)[q] == Unpivot(wide[q % |wide|], q / |wide| + 1)
  {
    if n > 0 {
      MeltLayout(wide, n - 1);
      var p := |wide|;
      assert |Melt(wide, n)| == (n - 1) * p + p == n * p;
      forall q | (n - 1) * p <= q < n * p
        ensures q / p < n && Melt(wide, n)[q] == Unpivot(wide[q % p], q / p + 1)
      {
        LastFrameRow(wide, n, q);
      }
    }
  }

  /** A row of the frame appended last: stimulus n of wide row q - (n - 1) * P. */
  lemma LastFrameRow(wide: seq<WideRow>, n: nat, q: int)
    requires WellFormed(wide) && 1 <= n <= StimulusCount
    requires |Melt(wide, n - 1)| == (n - 1) * |wide|
    requires (n - 1) * |wide| <= q < n * |wide|
    ensures q / |wide| == n - 1 && q % |wide| == q - (n - 1) * |wide|
    ensures Melt(wide, n)[q] == Unpivot(wide[q % |wide|], n)
  {
    var p := |wide|;
    assert n * p == (n - 1) * p + p;
    BlockIndex(q, n - 1, p);
    assert Melt(wide, n)[q] == StimulusFrame(wide, n)[q - (n - 1) * p];
  }

  /** The long row of participant row j for stimulus i sits at (i - 1) * P + j. */
  lemma RowOfPair(wide: seq<WideRow>, i: nat, j: nat)
    requires WellFormed(wide) && 1 <= i <= StimulusCount && j < |wide|
    ensures (i - 1) * |wide| + j < |Melt(wide, StimulusCount)|
    ensures Melt(wide, StimulusCount)[(i - 1) * |wide| + j] == Unpivot(wide[j], i)
  {
    var p := |wide|;
    MeltLayout(wide, StimulusCount);
    assert (i - 1) * p + j < (i - 1) * p + p == i * p;
    MulMonotone(i, StimulusCount, p);
    BlockIndex((i - 1) * p + j, i - 1, p);
  }

  /** With distinct participant numbers, no other long row carries the
      (participant, stimulus) pair of RowOfPair. */
  lemma PairIsUnique(wide: seq<WideRow>, i: nat, j: nat, q: nat)
    requires WellFormed(wide) && 1 <= i <= StimulusCount && j < |wide|
    requires forall a, b :: 0 <= a < b < |wide| ==> wide[a].participantNumber != wide[b].participantNumber
    requires q < |Melt(wide, StimulusCount)|
    requires Melt(wide, StimulusCount)[q].participant == wide[j].participantNumber
    requires Melt(wide, StimulusCount)[q].stimulus == i
    ensures q == (i - 1) * |wide| + j
  {
    var p := |wide|;
    MeltLayout(wide, StimulusCount);
    var k, r := q / p, q % p;
    assert q == k * p + r;
    assert r == j;
  }

  /** Every row of the melted table carries a stimulus number 1..n. */
  lemma {:induction false} MeltStimuli(wide: seq<WideRow>, n: nat)
    requires WellFormed(wide) && n <= StimulusCount
    ensures forall r :: r in Melt(wide, n) ==> 1 <= r.stimulus <= n
  {
    if n > 0 {
      MeltStimuli(wide, n - 1);
      forall r | r in Melt(wide, n) ensures 1 <= r.stimulus <= n {
        if r !in Melt(wide, n - 1) {
          assert r in StimulusFrame(wide, n);
        }
      }
    }
  }

  /** The loop at the top of the analysis: append the frame of each stimulus
      1..StimulusCount to `long_df` in turn. */
  method Reshape(wide: seq<WideRow>) returns (long: seq<LongRow>)
    requires WellFormed(wide)
    ensures long == Melt(wide, StimulusCount)
    ensures |long| == StimulusCount * |wide|
    ensures forall q :: 0 <= q < |long| ==>
              q / |wide| < StimulusCount && long[q] == Unpivot(wide[q % |wide|], q / |wide| + 1)
  {
    long := [];
    for i := 1 to StimulusCount + 1
      invariant long == Melt(wide, i - 1)
    {
      var frame := StimulusFrame(wide, i);
      long := long + frame;
    }
    MeltLayout(wide, StimulusCount);
  }
}
