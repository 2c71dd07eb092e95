/** The measurement loop of `findByte`: for every round, the candidates in a
    freshly shuffled order, each one timed once, the time stored in the
    candidate's slot. The oracle's running time is a parameter. */
module Measurement {
  import opened Candidates
  import Median

  /** A duration table: one row per candidate slot, one entry per round. */
  predicate WellShaped(d: seq<seq<int>>) {
    && |d| == CandidateCount
    && forall c :: 0 <= c < |d| ==> |d[c]| == Median.NumberOfTries
  }

  /** The table as it should come out when the oracle call for candidate v in
      round n takes timing(n, v): slot c, round n holds the time measured for
      that slot's own candidate. */
  function TimingTable(timing: (int, int) -> int): (d: seq<seq<int>>)
    ensures WellShaped(d)
  {
    seq(CandidateCount, c => seq(Median.NumberOfTries, n => timing(n, IndexToValue(c))))
  }

  /** The fill of `durations`: round n visits the candidates in the order
      shuffles[n] and writes each measured time at the candidate's slot. Each
      round's order is a permutation of all byte values, so every cell is
      written exactly once and the order leaves no trace in the result. */
  method MeasureDurations(shuffles: seq<seq<int>>, timing: (int, int) -> int)
    returns (durations: seq<seq<int>>)
    requires |shuffles| == Median.NumberOfTries
    requires forall n :: 0 <= n < |shuffles| ==> IsShuffle(shuffles[n])
    ensures durations == TimingTable(timing)
  {
    SlotValueBijection();
    durations := seq(CandidateCount, _ => seq(Median.NumberOfTries, _ => 0));
    var n := 0;
    while n < Median.NumberOfTries
      invariant 0 <= n <= Median.NumberOfTries
      invariant WellShaped(durations)
      invariant forall c, m :: 0 <= c < CandidateCount && 0 <= m < n ==>
                  durations[c][m] == timing(m, IndexToValue(c))
    {
      var order := shuffles[n];
      var j := 0;
      while j < |order|
        invariant 0 <= j <= |order|
        invariant WellShaped(durations)
        invariant forall c, m :: 0 <= c < CandidateCount && 0 <= m < n ==>
                    durations[c][m] == timing(m, IndexToValue(c))
        invariant forall c :: 0 <= c < CandidateCount && IndexToValue(c) in order[..j] ==>
                    durations[c][n] == timing(n, IndexToValue(c))
      {
        var candidate := order[j];
        assert candidate in order;
        var c := ValueToIndex(candidate);
        durations := durations[c := durations[c][n := timing(n, candidate)]];
        assert order[..j + 1] == order[..j] + [candidate];
        j := j + 1;
      }
      assert order[..j] == order;
      n := n + 1;
    }
    assert forall c :: 0 <= c < CandidateCount ==> durations[c] == TimingTable(timing)[c];
  }
}
