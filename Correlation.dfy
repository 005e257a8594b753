/** The inputs of the distractor/reaction-time correlation: the
    `(distractor_count, reaction_time)` pairs of the target-present log
    entries of a stimulus range, gathered over all participant logs. */
module Correlation {
  import opened Wrappers

  /** An entry of a participant's `stimulus_log`. */
  datatype LogEntry = LogEntry(
    stimulusNumber: int,
    reactionTimeSeconds: real,
    numberOfDistractors: int,
    noTarget: bool)

  /** A parsed `Participant_*.json` file; `participant_number` may be missing
      (`dict.get` then gives None). */
  datatype ParticipantLog = ParticipantLog(participantNumber: Option<int>, stimulusLog: seq<LogEntry>)

  /** A record of `all_corr_data`. */
  datatype CorrPoint = CorrPoint(
    participant: Option<int>,
    stimulusNumber: int,
    reactionTime: real,
    distractorCount: int)

  /** The condition under which a log entry is collected. */
  predicate Selected(e: LogEntry, lo: int, hi: int)
  {
    lo <= e.stimulusNumber <= hi && !e.noTarget
  }

  function ToPoint(participant: Option<int>, e: LogEntry): CorrPoint
  {
    CorrPoint(participant, e.stimulusNumber, e.reactionTimeSeconds, e.numberOfDistractors)
  }

  /** The points of one participant's log, in log order. */
  function LogPoints(participant: Option<int>, log: seq<LogEntry>, lo: int, hi: int): seq<CorrPoint>
  {
    if |log| == 0 then []
    else
      var e := log[|log| - 1];
      LogPoints(participant, log[..|log| - 1], lo, hi) + (if Selected(e, lo, hi) then [ToPoint(participant, e)] else [])
  }

  /** The points of all files, file by file in the order given. */
  function CorrelationData(files: seq<ParticipantLog>, lo: int, hi: int): seq<CorrPoint>
  {
    if |files| == 0 then []
    else
      var f := files[|files| - 1];
      CorrelationData(files[..|files| - 1], lo, hi) + LogPoints(f.participantNumber, f.stimulusLog, lo, hi)
  }

  /** Points of a log come out in log order: the points of two runs of
      entries are the first run's, then the second's. */
  lemma {:induction false} LogPointsConcat(participant: Option<int>, a: seq<LogEntry>, b: seq<LogEntry>, lo: int, hi: int)
    ensures LogPoints(participant, a + b, lo, hi) == LogPoints(participant, a, lo, hi) + LogPoints(participant, b, lo, hi)
  {
    if |b| == 0 {
      assert a + b == a;
    } else {
      var init := b[..|b| - 1];
      assert (a + b)[..|a + b| - 1] == a + init;
      LogPointsConcat(participant, a, init, lo, hi);
    }
  }

  /** A point comes from a log exactly when its entry is selected. */
  lemma {:induction false} LogPointsMembers(participant: Option<int>, log: seq<LogEntry>, lo: int, hi: int)
    ensures forall p :: p in LogPoints(participant, log, lo, hi) <==>
              exists e :: e in log && Selected(e, lo, hi) && p == ToPoint(participant, e)
  {
    if |log| > 0 {
      var init, e := log[..|log| - 1], log[|log| - 1];
      LogPointsMembers(participant, init, lo, hi);
      assert log == init + [e];
      forall p | p in LogPoints(participant, log, lo, hi)
        ensures exists e' :: e' in log && Selected(e', lo, hi) && p == ToPoint(participant, e')
      {
        if p !in LogPoints(participant, init, lo, hi) {
          assert Selected(e, lo, hi) && p == ToPoint(participant, e);
        }
      }
    }
  }

  /** A point is collected exactly when some file holds a selected entry it
      comes from. */
  lemma {:induction false} CorrelationDataMembers(files: seq<ParticipantLog>, lo: int, hi: int)
    ensures forall p :: p in CorrelationData(files, lo, hi) <==>
              exists f, e :: f in files && e in f.stimulusLog && Selected(e, lo, hi) && p == ToPoint(f.participantNumber, e)
  {
    if |files| > 0 {
      var init, f := files[..|files| - 1], files[|files| - 1];
      CorrelationDataMembers(init, lo, hi);
      LogPointsMembers(f.participantNumber, f.stimulusLog, lo, hi);
      assert files == init + [f];
      forall p | p in CorrelationData(files, lo, hi)
        ensures exists f', e :: f' in files && e in f'.stimulusLog && Selected(e, lo, hi) && p == ToPoint(f'.participantNumber, e)
      {
        if p !in CorrelationData(init, lo, hi) {
          var e :| e in f.stimulusLog && Selected(e, lo, hi) && p == ToPoint(f.participantNumber, e);
          assert f in files;
        }
      }
    }
  }

  /** Points come out in file order, then log order: the points of two
      consecutive runs of files are those of the first run, then those of the second. */
  lemma {:induction false} CorrelationDataConcat(a: seq<ParticipantLog>, b: seq<ParticipantLog>, lo: int, hi: int)
    ensures CorrelationData(a + b, lo, hi) == CorrelationData(a, lo, hi) + CorrelationData(b, lo, hi)
  {
    if |b| == 0 {
      assert a + b == a;
    } else {
      var init := b[..|b| - 1];
      assert (a + b)[..|a + b| - 1] == a + init;
      CorrelationDataConcat(a, init, lo, hi);
    }
  }

  /** The nested loop that fills `all_corr_data` for one stimulus range. */
  method CollectCorrelationData(files: seq<ParticipantLog>, lo: int, hi: int) returns (points: seq<CorrPoint>)
    ensures points == CorrelationData(files, lo, hi)
  {
    points := [];
    for i := 0 to |files|
      invariant points == CorrelationData(files[..i], lo, hi)
    {
      var participant := files[i].participantNumber;
      var log := files[i].stimulusLog;
      ghost var before := points;
      for j := 0 to |log|
        invariant points == before + LogPoints(participant, log[..j], lo, hi)
      {
        var e := log[j];
        assert log[..j + 1][..j] == log[..j];
        if lo <= e.stimulusNumber <= hi && !e.noTarget {
          points := points + [CorrPoint(participant, e.stimulusNumber, e.reactionTimeSeconds, e.numberOfDistractors)];
        }
      }
      assert log[..|log|] == log;
      assert files[..i + 1][..i] == files[..i];
    }
    assert files[..|files|] == files;
  }

  /** A stimulus range of the correlation analysis and the label of its chart. */
  datatype CorrelationRange = CorrelationRange(name: string, start: int, end: int)

  const CorrelationRanges: seq<CorrelationRange> := [CorrelationRange("1_5", 1, 5), CorrelationRange("11_15", 11, 15)]

  /** What the analysis does with one range: skip it when no pair was
      collected, or hand the two columns to the correlation. */
  datatype CorrelationInput =
    | Skipped(name: string)
    | Correlated(name: string, distractorCounts: seq<int>, reactionTimes: seq<real>)

  /** The outer loop over the two ranges. */
  method CorrelationAnalysis(files: seq<ParticipantLog>) returns (inputs: seq<CorrelationInput>)
    ensures |inputs| == |CorrelationRanges|
    ensures forall k :: 0 <= k < |inputs| ==>
              var range := CorrelationRanges[k];
              var points := CorrelationData(files, range.start, range.end);
              inputs[k].name == range.name &&
              (inputs[k].Skipped? <==> points == []) &&
              (inputs[k].Correlated? ==>
                 |inputs[k].distractorCounts| == |inputs[k].reactionTimes| == |points| &&
                 forall n :: 0 <= n < |points| ==>
                   inputs[k].distractorCounts[n] == points[n].distractorCount &&
                   inputs[k].reactionTimes[n] == points[n].reactionTime)
  {
    inputs := [];
    for k := 0 to |CorrelationRanges|
      invariant |inputs| == k
      invariant forall m :: 0 <= m < k ==>
                  var range := CorrelationRanges[m];
                  var points := CorrelationData(files, range.start, range.end);
                  inputs[m].name == range.name &&
                  (inputs[m].Skipped? <==> points == []) &&
                  (inputs[m].Correlated? ==>
                     |inputs[m].distractorCounts| == |inputs[m].reactionTimes| == |points| &&
                     forall n :: 0 <= n < |points| ==>
                       inputs[m].distractorCounts[n] == points[n].distractorCount &&
                       inputs[m].reactionTimes[n] == points[n].reactionTime)
    {
      var range := CorrelationRanges[k];
      var points := CollectCorrelationData(files, range.start, range.end);
      if points == [] {
        inputs := inputs + [Skipped(range.name)];
      } else {
        var xs := seq(|points|, n requires 0 <= n < |points| => points[n].distractorCount);
        var ys := seq(|points|, n requires 0 <= n < |points| => points[n].reactionTime);
        inputs := inputs + [Correlated(range.name, xs, ys)];
      }
    }
  }
}
