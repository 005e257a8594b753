/** The target-present analysis: the rows with `no_target == False`, their
    groups per stimulus, the inclusive stimulus ranges selected with
    `between`, and the per-range statistics. */
module TargetPresent {
  import opened Wrappers
  import opened Tables
  import opened Select
  import opened Aggregates
  import NoTargetDelays
  import LongFormat

  /** The mask `no_target == False`. */
  predicate IsTargetPresent(r: LongRow)
  {
    !r.noTarget
  }

  function TargetPresentRows(long: seq<LongRow>): seq<LongRow>
  {
    Filter(long, IsTargetPresent)
  }

  /** The no-target and the target-present selections split the long table. */
  lemma TrialKindsPartition(long: seq<LongRow>)
    ensures multiset(Filter(long, NoTargetDelays.IsNoTarget)) + multiset(TargetPresentRows(long)) == multiset(long)
    ensures |Filter(long, NoTargetDelays.IsNoTarget)| + |TargetPresentRows(long)| == |long|
  {
    FilterPartition(long, NoTargetDelays.IsNoTarget, IsTargetPresent);
  }

  /** The mask `stimulus.between(lo, hi)`, inclusive on both ends. */
  function InRange(lo: int, hi: int): LongRow -> bool
  {
    (r: LongRow) => lo <= r.stimulus <= hi
  }

  function Between(rows: seq<LongRow>, lo: int, hi: int): seq<LongRow>
  {
    Filter(rows, InRange(lo, hi))
  }

  /** The selection is inclusive on both ends. */
  lemma BetweenMembers(rows: seq<LongRow>, lo: int, hi: int)
    ensures forall r :: r in Between(rows, lo, hi) <==> r in rows && lo <= r.stimulus <= hi
  {
  }

  /** A range of consecutive stimuli with its label. */
  datatype StimulusRange = StimulusRange(name: string, start: int, end: int)

  /** The ranges of the per-range table. */
  const Ranges: seq<StimulusRange> := [
    StimulusRange("Stimuli 1-5", 1, 5),
    StimulusRange("Stimuli 6-10", 6, 10),
    StimulusRange("Stimuli 11-15", 11, 15),
    StimulusRange("Stimuli 16-20", 16, 20)
  ]

  function RangeRows(rows: seq<LongRow>, k: nat): seq<LongRow>
    requires k < |Ranges|
  {
    Between(rows, Ranges[k].start, Ranges[k].end)
  }

  /** On a table whose stimuli are 1..StimulusCount, the four range subsets
      partition the table: each row is in exactly one of them. */
  lemma {:induction false} RangesPartition(rows: seq<LongRow>)
    requires forall r :: r in rows ==> 1 <= r.stimulus <= StimulusCount
    ensures multiset(RangeRows(rows, 0)) + multiset(RangeRows(rows, 1))
          + multiset(RangeRows(rows, 2)) + multiset(RangeRows(rows, 3)) == multiset(rows)
    ensures |RangeRows(rows, 0)| + |RangeRows(rows, 1)| + |RangeRows(rows, 2)| + |RangeRows(rows, 3)| == |rows|
  {
    FilterKeepsAll(rows, InRange(1, StimulusCount));
    SplitRange(rows, 1, 10, 20);
    SplitRange(rows, 1, 5, 10);
    SplitRange(rows, 11, 15, 20);
    assert |multiset(rows)| == |rows|;
  }

  /** The four ranges partition the target-present rows of the reshaped table. */
  lemma ReshapedRangesPartition(wide: seq<WideRow>)
    requires WellFormed(wide)
    ensures var rows := TargetPresentRows(LongFormat.Melt(wide, StimulusCount));
            multiset(RangeRows(rows, 0)) + multiset(RangeRows(rows, 1))
            + multiset(RangeRows(rows, 2)) + multiset(RangeRows(rows, 3)) == multiset(rows)
  {
    var long := LongFormat.Melt(wide, StimulusCount);
    LongFormat.MeltStimuli(wide, StimulusCount);
    RangesPartition(TargetPresentRows(long));
  }

  /** Cutting an inclusive range lo..hi after mid splits its rows in two. */
  lemma SplitRange(rows: seq<LongRow>, lo: int, mid: int, hi: int)
    requires lo <= mid <= hi
    ensures multiset(Between(rows, lo, mid)) + multiset(Between(rows, mid + 1, hi)) == multiset(Between(rows, lo, hi))
  {
    var span := Between(rows, lo, hi);
    BetweenMembers(rows, lo, hi);
    FilterPartition(span, InRange(lo, mid), InRange(mid + 1, hi));
    FilterTwice(rows, InRange(lo, hi), InRange(lo, mid), InRange(lo, mid));
    FilterTwice(rows, InRange(lo, hi), InRange(mid + 1, hi), InRange(mid + 1, hi));
  }

  /** The reaction times of one stimulus (a `groupby("stimulus")` group). */
  datatype StimulusGroup = StimulusGroup(stimulus: int, reactionTimes: seq<real>)

  /** The reaction times of the rows of stimulus s. */
  function StimulusTimes(rows: seq<LongRow>, s: int): seq<real>
  {
    ReactionTimes(Between(rows, s, s))
  }

  /** The groups of the stimuli lo..hi that occur in the table, in ascending
      stimulus order. */
  function GroupByStimulus(rows: seq<LongRow>, lo: int, hi: int): seq<StimulusGroup>
    decreases hi - lo + 1
  {
    if lo > hi then []
    else
      var here := StimulusTimes(rows, lo);
      (if here != [] then [StimulusGroup(lo, here)] else []) + GroupByStimulus(rows, lo + 1, hi)
  }

  /** Each group holds the reaction times of exactly the rows of its
      stimulus and is never empty; the stimuli ascend; every stimulus lo..hi
      that occurs in the table has a group. */
  lemma {:induction false} GroupsAreStimulusGroups(rows: seq<LongRow>, lo: int, hi: int)
    decreases hi - lo + 1
    ensures forall k :: 0 <= k < |GroupByStimulus(rows, lo, hi)| ==>
              var g := GroupByStimulus(rows, lo, hi)[k];
              lo <= g.stimulus <= hi && g.reactionTimes == StimulusTimes(rows, g.stimulus) && g.reactionTimes != []
    ensures forall k, m :: 0 <= k < m < |GroupByStimulus(rows, lo, hi)| ==>
              GroupByStimulus(rows, lo, hi)[k].stimulus < GroupByStimulus(rows, lo, hi)[m].stimulus
    ensures forall r :: r in rows && lo <= r.stimulus <= hi ==>
              exists k :: 0 <= k < |GroupByStimulus(rows, lo, hi)| && GroupByStimulus(rows, lo, hi)[k].stimulus == r.stimulus
  {
    if lo <= hi {
      GroupsAreStimulusGroups(rows, lo + 1, hi);
      var g := GroupByStimulus(rows, lo, hi);
      var here := StimulusTimes(rows, lo);
      var head := if here != [] then [StimulusGroup(lo, here)] else [];
      var tail := GroupByStimulus(rows, lo + 1, hi);
      assert g == head + tail;
      forall k, m | 0 <= k < m < |g|
        ensures g[k].stimulus < g[m].stimulus
      {
        if k < |head| {
          assert g[m] == tail[m - |head|];
        } else {
          assert g[k] == tail[k - |head|] && g[m] == tail[m - |head|];
        }
      }
      forall r | r in rows && lo <= r.stimulus <= hi
        ensures exists k :: 0 <= k < |g| && g[k].stimulus == r.stimulus
      {
        if r.stimulus == lo {
          var lone := Between(rows, lo, lo);
          BetweenMembers(rows, lo, lo);
          assert r in lone;
          assert |here| == |lone| > 0;
          assert g[0] == StimulusGroup(lo, here);
        } else {
          var k :| 0 <= k < |tail| && tail[k].stimulus == r.stimulus;
          assert g[|head| + k] == tail[k];
        }
      }
    } else {
      assert GroupByStimulus(rows, lo, hi) == [];
    }
  }

  /** Per-stimulus statistics: the mean reaction time of each stimulus. */
  datatype StimulusStat = StimulusStat(stimulus: int, mean: real)

  /** `groupby("stimulus")["reaction_time"].mean()`: one row per stimulus
      that occurs, in ascending order, holding the mean of that stimulus's rows. */
  function StimulusStats(rows: seq<LongRow>): (st: seq<StimulusStat>)
    ensures forall k :: 0 <= k < |st| ==>
              1 <= st[k].stimulus <= StimulusCount &&
              Mean(StimulusTimes(rows, st[k].stimulus)) == Some(st[k].mean)
    ensures forall k, m :: 0 <= k < m < |st| ==> st[k].stimulus < st[m].stimulus
    ensures forall r :: r in rows && 1 <= r.stimulus <= StimulusCount ==>
              exists k :: 0 <= k < |st| && st[k].stimulus == r.stimulus
  {
    var g := GroupByStimulus(rows, 1, StimulusCount);
    GroupsAreStimulusGroups(rows, 1, StimulusCount);
    var st := seq(|g|, k requires 0 <= k < |g| => StimulusStat(g[k].stimulus, Mean(g[k].reactionTimes).value));
    assert forall k :: 0 <= k < |g| ==> st[k].stimulus == g[k].stimulus;
    st
  }

  /** Selecting a range and then a stimulus is selecting the stimulus when it
      lies in the range, and selects nothing otherwise. */
  lemma BetweenNested(rows: seq<LongRow>, a: int, b: int, s: int)
    ensures Between(Between(rows, a, b), s, s) == if a <= s <= b then Between(rows, s, s) else []
  {
    if a <= s <= b {
      FilterTwice(rows, InRange(a, b), InRange(s, s), InRange(s, s));
    } else {
      FilterKeepsNone(Between(rows, a, b), InRange(s, s));
    }
  }

  /** The trend view of stimuli start..end, grouped over the stimuli lo..hi,
      holds exactly the per-stimulus groups of the table for the stimuli that
      lie in both spans. */
  lemma {:induction false} TrendIsRestriction(rows: seq<LongRow>, start: int, end: int, lo: int, hi: int)
    decreases hi - lo + 1
    ensures GroupByStimulus(Between(rows, start, end), lo, hi) ==
            GroupByStimulus(rows, if lo < start then start else lo, if hi < end then hi else end)
  {
    var lo', hi' := (if lo < start then start else lo), (if hi < end then hi else end);
    if lo <= hi {
      var span := Between(rows, start, end);
      TrendIsRestriction(rows, start, end, lo + 1, hi);
      var rest := GroupByStimulus(span, lo + 1, hi);
      assert rest == GroupByStimulus(rows, if lo + 1 < start then start else lo + 1, hi');
      BetweenNested(rows, start, end, lo);
      var here := StimulusTimes(span, lo);
      assert GroupByStimulus(span, lo, hi) == (if here != [] then [StimulusGroup(lo, here)] else []) + rest;
      if start <= lo <= end {
        assert here == StimulusTimes(rows, lo);
        assert rest == GroupByStimulus(rows, lo + 1, hi');
        assert GroupByStimulus(rows, lo, hi') == (if here != [] then [StimulusGroup(lo, here)] else []) + rest;
      } else if lo < start {
        assert here == [];
        assert rest == GroupByStimulus(rows, start, hi');
      } else {
        assert here == [];
        assert rest == GroupByStimulus(rows, lo + 1, hi');
        assert lo + 1 > hi' && lo' > hi';
      }
    }
  }

  /** m is the mean reaction time of the rows of one range: absent exactly
      when no row lies in the range, otherwise the subset's sum over its size. */
  predicate IsRangeMean(rows: seq<LongRow>, range: StimulusRange, m: Option<real>)
  {
    (m.None? <==> forall r :: r in rows ==> !(range.start <= r.stimulus <= range.end)) &&
    (m.Some? ==> (|Between(rows, range.start, range.end)| as real) * m.value
                 == Sum(ReactionTimes(Between(rows, range.start, range.end))))
  }

  /** The mean reaction time of the rows of one range; absent when the range
      has no row. */
  function RangeMean(rows: seq<LongRow>, range: StimulusRange): (m: Option<real>)
    ensures IsRangeMean(rows, range, m)
  {
    var s := Between(rows, range.start, range.end);
    assert s == [] <==> forall r :: r in rows ==> !(range.start <= r.stimulus <= range.end) by {
      if s != [] { assert s[0] in s; }
    }
    Mean(ReactionTimes(s))
  }

  /** A range comparison: the means of two ranges side by side. */
  function CompareRanges(rows: seq<LongRow>, r1: StimulusRange, r2: StimulusRange): (c: (Option<real>, Option<real>))
    ensures IsRangeMean(rows, r1, c.0)
    ensures IsRangeMean(rows, r2, c.1)
  {
    (RangeMean(rows, r1), RangeMean(rows, r2))
  }

  /** A row of the per-range table. */
  datatype RangeStat = RangeStat(range: string, mean: Option<real>)

  /** The loop that builds the per-range table, one row per range in order. */
  method RangeStatistics(rows: seq<LongRow>) returns (stats: seq<RangeStat>)
    ensures |stats| == |Ranges|
    ensures forall k :: 0 <= k < |stats| ==>
              stats[k].range == Ranges[k].name && stats[k].mean == RangeMean(rows, Ranges[k])
  {
    stats := [];
    for k := 0 to |Ranges|
      invariant |stats| == k
      invariant forall m :: 0 <= m < k ==>
                  stats[m].range == Ranges[m].name && stats[m].mean == RangeMean(rows, Ranges[m])
    {
      var subset := Between(rows, Ranges[k].start, Ranges[k].end);
      stats := stats + [RangeStat(Ranges[k].name, Mean(ReactionTimes(subset)))];
    }
  }
}
