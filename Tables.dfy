/** The records of the experiment's tables: the wide table read from
    `stimulus_times.csv` and the long table derived from it. */
module Tables {

  /** Stimulus slots per participant: the reshape loop runs over `range(1, 21)`. */
  const StimulusCount: nat := 20

  /** One `(stimulus_i_time, stimulus_i_no_target)` column pair of a wide row. */
  datatype StimulusCell = StimulusCell(time: real, noTarget: bool)

  /** A row of the wide table: `cells[i - 1]` holds the column pair of stimulus i. */
  datatype WideRow = WideRow(participantNumber: int, cells: seq<StimulusCell>)

  /** A row of the long table: columns `participant`, `reaction_time`,
      `no_target` and `stimulus`. */
  datatype LongRow = LongRow(participant: int, reactionTime: real, noTarget: bool, stimulus: int)

  /** The wide table has the columns of every stimulus 1..StimulusCount
      (a missing column is a schema error that aborts the run). */
  predicate WellFormed(wide: seq<WideRow>)
  {
    forall j :: 0 <= j < |wide| ==> |wide[j].cells| >= StimulusCount
  }

  /** Projection onto the `reaction_time` column. */
  function ReactionTimes(rows: seq<LongRow>): (times: seq<real>)
    ensures |times| == |rows|
    ensures forall k :: 0 <= k < |rows| ==> times[k] == rows[k].reactionTime
  {
    seq(|rows|, k requires 0 <= k < |rows| => rows[k].reactionTime)
  }
}
