/** The no-target delay analysis: the no-target rows of the long table, their
    excess delay beyond the fixed window, the removal of rows with a negative
    excess, the delay statistics and the per-range counts. */
module NoTargetDelays {
  import opened Wrappers
  import opened Tables
  import opened Select
  import opened Aggregates
  import opened DelayBins
  import opened LongFormat

  /** The exposure window of a no-target trial, in seconds. */
  const NoTargetWindow: real := 20.0

  /** A row of `no_target_df`: a long row with its `excess_delay` column. */
  datatype DelayRow = DelayRow(row: LongRow, excessDelay: real)

  /** The mask `no_target == True`. */
  predicate IsNoTarget(r: LongRow)
  {
    r.noTarget
  }

  function WithExcessDelay(r: LongRow): DelayRow
  {
    DelayRow(r, r.reactionTime - NoTargetWindow)
  }

  /** `no_target_df`: the no-target rows of the long table, in order, each
      with its excess delay. */
  function NoTargetFrame(long: seq<LongRow>): (d: seq<DelayRow>)
    ensures |d| == |Filter(long, IsNoTarget)|
    ensures forall k :: 0 <= k < |d| ==> d[k] == WithExcessDelay(Filter(long, IsNoTarget)[k])
    ensures forall x :: x in d <==> x.row in long && x.row.noTarget && x == WithExcessDelay(x.row)
  {
    var rows := Filter(long, IsNoTarget);
    var d := seq(|rows|, k requires 0 <= k < |rows| => WithExcessDelay(rows[k]));
    assert forall x :: x in d ==> x.row in rows;
    assert forall r :: r in rows ==> WithExcessDelay(r) in d by {
      forall r | r in rows ensures WithExcessDelay(r) in d {
        var k :| 0 <= k < |rows| && rows[k] == r;
        assert d[k] == WithExcessDelay(r);
      }
    }
    d
  }

  /** The mask `excess_delay < 0`. */
  predicate IsInvalid(d: DelayRow)
  {
    d.excessDelay < 0.0
  }

  /** The mask `excess_delay >= 0`. */
  predicate IsValid(d: DelayRow)
  {
    d.excessDelay >= 0.0
  }

  /** `invalid_rows`: the rows reported in the warning. */
  function InvalidRows(d: seq<DelayRow>): seq<DelayRow>
  {
    Filter(d, IsInvalid)
  }

  /** The guarded removal of invalid rows: the table is filtered only when
      some row is invalid, and either way exactly the rows with a negative
      excess delay are gone. */
  function DropInvalid(d: seq<DelayRow>): (v: seq<DelayRow>)
    ensures v == Filter(d, IsValid)
    ensures forall x :: x in v ==> x.excessDelay >= 0.0
    ensures InvalidRows(d) == [] ==> v == d
    ensures multiset(v) + multiset(InvalidRows(d)) == multiset(d)
  {
    FilterPartition(d, IsValid, IsInvalid);
    var invalid := InvalidRows(d);
    if invalid != [] then Filter(d, IsValid)
    else
      assert forall x :: x in d ==> IsValid(x) by {
        forall x | x in d ensures IsValid(x) {
          assert !(x in invalid);
        }
      }
      FilterKeepsAll(d, IsValid);
      d
  }

  /** The `excess_delay` column. */
  function ExcessDelays(d: seq<DelayRow>): (xs: seq<real>)
    ensures |xs| == |d|
    ensures forall k :: 0 <= k < |d| ==> xs[k] == d[k].excessDelay
  {
    seq(|d|, k requires 0 <= k < |d| => d[k].excessDelay)
  }

  /** `count_total`, `max_delay` and `mean_delay`; the maximum and the mean
      are absent (NaN) when no valid row is left. */
  datatype DelayStatistics = DelayStatistics(countTotal: nat, maxDelay: Option<real>, meanDelay: Option<real>)

  /** Everything the no-target analysis reports. */
  datatype DelayReport = DelayReport(
    invalid: seq<DelayRow>,
    valid: seq<DelayRow>,
    stats: DelayStatistics,
    delayCounts: seq<(string, nat)>)

  /** The maximum of the `excess_delay` column bounds every row and is
      attained by one of them. */
  lemma MaxOfRows(valid: seq<DelayRow>)
    requires |valid| > 0
    ensures Max(ExcessDelays(valid)).Some?
    ensures forall x :: x in valid ==> x.excessDelay <= Max(ExcessDelays(valid)).value
    ensures exists x :: x in valid && x.excessDelay == Max(ExcessDelays(valid)).value
  {
    var xs := ExcessDelays(valid);
    var m := Max(xs).value;
    forall x | x in valid ensures x.excessDelay <= m {
      var k :| 0 <= k < |valid| && valid[k] == x;
      assert xs[k] == x.excessDelay;
    }
    var k :| 0 <= k < |xs| && xs[k] == m;
    assert valid[k] in valid;
  }

  /** Rows with no negative excess give a column with no negative value. */
  lemma NonNegativeColumn(valid: seq<DelayRow>)
    requires forall x :: x in valid ==> x.excessDelay >= 0.0
    ensures forall k :: 0 <= k < |ExcessDelays(valid)| ==> 0.0 <= ExcessDelays(valid)[k]
  {
    forall k | 0 <= k < |valid| ensures 0.0 <= ExcessDelays(valid)[k] {
      assert valid[k] in valid;
    }
  }

  function Statistics(valid: seq<DelayRow>): (s: DelayStatistics)
    requires forall x :: x in valid ==> x.excessDelay >= 0.0
    ensures s.countTotal == |valid|
    ensures s.countTotal == 0 <==> s.maxDelay.None?
    ensures s.countTotal == 0 <==> s.meanDelay.None?
    ensures s.countTotal > 0 ==> forall x :: x in valid ==> x.excessDelay <= s.maxDelay.value
    ensures s.countTotal > 0 ==> exists x :: x in valid && x.excessDelay == s.maxDelay.value
    ensures s.countTotal > 0 ==> s.meanDelay.value == Sum(ExcessDelays(valid)) / (s.countTotal as real)
    ensures s.countTotal > 0 ==> 0.0 <= s.meanDelay.value <= s.maxDelay.value
  {
    var xs := ExcessDelays(valid);
    if |valid| == 0 then DelayStatistics(0, Max(xs), Mean(xs))
    else
      MaxOfRows(valid);
      NonNegativeColumn(valid);
      MeanWithinBounds(xs, 0.0);
      DelayStatistics(|valid|, Max(xs), Mean(xs))
  }

  /** The no-target analysis of a long table, from the selection of the
      no-target rows to the count per delay range. */
  function AnalyseNoTarget(long: seq<LongRow>): (rep: DelayReport)
    ensures forall x :: x in rep.valid <==>
              x.row in long && x.row.noTarget && x == WithExcessDelay(x.row) && x.excessDelay >= 0.0
    ensures forall x :: x in rep.invalid <==>
              x.row in long && x.row.noTarget && x == WithExcessDelay(x.row) && x.excessDelay < 0.0
    ensures rep.valid == Filter(NoTargetFrame(long), IsValid)
    ensures rep.invalid == Filter(NoTargetFrame(long), IsInvalid)
    ensures multiset(rep.valid) + multiset(rep.invalid) == multiset(NoTargetFrame(long))
    ensures |rep.valid| + |rep.invalid| == |Filter(long, IsNoTarget)|
    ensures rep.stats == Statistics(rep.valid)
    ensures rep.stats.countTotal == |rep.valid|
    ensures |rep.delayCounts| == |Labels|
    ensures forall i :: 0 <= i < |rep.delayCounts| ==>
              rep.delayCounts[i].0 == Labels[i] &&
              rep.delayCounts[i].1 == |BinMembers(ExcessDelays(rep.valid), i)|
    ensures SumNat(CountColumn(rep.delayCounts)) == rep.stats.countTotal
  {
    var d := NoTargetFrame(long);
    var invalid := InvalidRows(d);
    var valid := DropInvalid(d);
    var xs := ExcessDelays(valid);
    assert forall k :: 0 <= k < |xs| ==> xs[k] >= 0.0 by {
      forall k | 0 <= k < |xs| ensures xs[k] >= 0.0 {
        assert valid[k] in valid;
      }
    }
    DelayCountsTotal(xs);
    FilterPartition(d, IsValid, IsInvalid);
    DelayReport(invalid, valid, Statistics(valid), DelayCounts(xs))
  }

  /** The no-target frame of the two-participant example. */
  lemma ExampleFrame(a: LongRow, b: LongRow)
    requires a.noTarget && b.noTarget
    ensures NoTargetFrame([a, b]) == [WithExcessDelay(a), WithExcessDelay(b)]
  {
    FilterKeepsAll([a, b], IsNoTarget);
  }

  /** The delay counts of a single valid 7 ms excess. */
  lemma ExampleCounts()
    ensures DelayCounts([0.007]) == [("<1ms", 0), ("1–5ms", 0), ("5–10ms", 1), ("10–25ms", 0), ("25–50ms", 0), (">50ms", 0)]
  {
    assert InBin(0.007, 2);
    assert Cut(0.007) == Some(2);
    assert Tally([0.007]) == [0, 0, 1, 0, 0, 0] by {
      assert [0.007][1..] == [];
    }
  }

  /** Two participants whose stimulus 3 is a no-target trial: the reaction
      at 19.999 s is reported invalid and excluded; the one at 20.007 s
      leaves an excess of 7 ms and is counted in the 5–10 ms range. */
  lemma TwoParticipantExample()
    ensures var a := LongRow(1, 20.007, true, 3);
            var b := LongRow(2, 19.999, true, 3);
            var rep := AnalyseNoTarget([a, b]);
            rep.invalid == [DelayRow(b, -0.001)] &&
            rep.valid == [DelayRow(a, 0.007)] &&
            rep.stats.countTotal == 1 &&
            rep.delayCounts == [("<1ms", 0), ("1–5ms", 0), ("5–10ms", 1), ("10–25ms", 0), ("25–50ms", 0), (">50ms", 0)]
  {
    var a := LongRow(1, 20.007, true, 3);
    var b := LongRow(2, 19.999, true, 3);
    var da, db := DelayRow(a, 0.007), DelayRow(b, -0.001);
    ExampleFrame(a, b);
    var d := NoTargetFrame([a, b]);
    assert d == [da, db];
    assert d[1..] == [db];
    assert InvalidRows(d) == [db];
    assert DropInvalid(d) == [da];
    assert ExcessDelays([da]) == [0.007];
    ExampleCounts();
  }

  /** When stimulus s is the only no-target stimulus of every participant,
      the no-target rows of the table melted up to stimulus n are the frame
      of stimulus s (or none before it is reached). */
  lemma {:induction false} NoTargetRowsOfMelt(wide: seq<WideRow>, s: nat, n: nat)
    requires WellFormed(wide) && 1 <= s <= StimulusCount && n <= StimulusCount
    requires forall j, i :: 0 <= j < |wide| && 0 <= i < StimulusCount ==>
               wide[j].cells[i].noTarget == (i == s - 1)
    ensures Filter(Melt(wide, n), IsNoTarget) == if s <= n then StimulusFrame(wide, s) else []
  {
    if n > 0 {
      NoTargetRowsOfMelt(wide, s, n - 1);
      var frame := StimulusFrame(wide, n);
      FilterConcat(Melt(wide, n - 1), frame, IsNoTarget);
      if n == s {
        FilterKeepsAll(frame, IsNoTarget);
      } else {
        FilterKeepsNone(frame, IsNoTarget);
      }
    }
  }

  /** The wide row of a participant whose only no-target trial is
      stimulus 3, answered at time t; every other stimulus is answered at 1 s. */
  function ExampleParticipant(number: int, t: real): WideRow
  {
    WideRow(number, seq(StimulusCount, i requires 0 <= i < StimulusCount =>
      if i == 2 then StimulusCell(t, true) else StimulusCell(1.0, false)))
  }

  /** The two-participant example from the wide table: participant 1 leaves
      stimulus 3 at 20.007 s and participant 2 at 19.999 s. After the reshape,
      the first is a valid 7 ms excess counted in the 5–10 ms range and the
      second is reported invalid. */
  lemma TwoParticipantWideExample()
    ensures var wide := [ExampleParticipant(1, 20.007), ExampleParticipant(2, 19.999)];
            WellFormed(wide) &&
            var rep := AnalyseNoTarget(Melt(wide, StimulusCount));
            rep.invalid == [DelayRow(LongRow(2, 19.999, true, 3), -0.001)] &&
            rep.valid == [DelayRow(LongRow(1, 20.007, true, 3), 0.007)] &&
            rep.stats.countTotal == 1 &&
            rep.delayCounts == [("<1ms", 0), ("1–5ms", 0), ("5–10ms", 1), ("10–25ms", 0), ("25–50ms", 0), (">50ms", 0)]
  {
    var wide := [ExampleParticipant(1, 20.007), ExampleParticipant(2, 19.999)];
    var a := LongRow(1, 20.007, true, 3);
    var b := LongRow(2, 19.999, true, 3);
    assert WellFormed(wide);
    NoTargetRowsOfMelt(wide, 3, StimulusCount);
    assert StimulusFrame(wide, 3) == [a, b];
    FilterKeepsAll([a, b], IsNoTarget);
    assert NoTargetFrame(Melt(wide, StimulusCount)) == NoTargetFrame([a, b]);
    TwoParticipantExample();
  }
}
