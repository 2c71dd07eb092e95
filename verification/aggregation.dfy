/** The tail of `findByte`: one median per candidate, the position average as
    the rounded mean of those medians, and the choice of the slowest candidate. */
module Aggregation {
  import opened JavaArith
  import opened Candidates
  import opened Measurement
  import Median

  /** The per-candidate medians, slot by slot. */
  function Medians(durations: seq<seq<int>>): (m: seq<int>)
    requires WellShaped(durations)
    ensures |m| == CandidateCount
  {
    seq(CandidateCount, c requires 0 <= c < |durations| => Median.Median(durations[c]))
  }

  function Sum(s: seq<int>): int {
    if s == [] then 0 else Sum(s[..|s| - 1]) + s[|s| - 1]
  }

  lemma {:induction false} SumBounds(s: seq<int>, lo: int, hi: int)
    requires forall i :: 0 <= i < |s| ==> lo <= s[i] <= hi
    ensures |s| * lo <= Sum(s) <= |s| * hi
  {
    if s != [] {
      SumBounds(s[..|s| - 1], lo, hi);
    }
  }

  /** The position average is a rounded mean, so it lies within any range
      that holds all the medians it is taken over. */
  lemma RoundedMeanWithin(s: seq<int>, lo: int, hi: int)
    requires |s| > 0
    requires forall i :: 0 <= i < |s| ==> lo <= s[i] <= hi
    ensures lo <= RoundHalfUp(Sum(s), |s|) <= hi
  {
    SumBounds(s, lo, hi);
    RoundHalfUpAtMost(Sum(s), |s|, hi);
    RoundHalfUpAtLeast(Sum(s), |s|, lo);
  }

  /** The byte the scan of `findByte` settles on, given the medians slot by
      slot. The running maximum starts at Integer.MIN_VALUE and the chosen
      value at 0, and only a strictly greater median replaces them. So the
      choice is the value of the first slot holding the greatest median, or 0
      when no median exceeds Integer.MIN_VALUE. */
  predicate SelectedBy(m: seq<int>, value: int) {
    if forall j :: 0 <= j < |m| ==> m[j] <= IntMinValue then
      value == 0
    else
      var k := ValueToIndex(value);
      && 0 <= k < |m|
      && m[k] > IntMinValue
      && (forall j :: 0 <= j < |m| ==> m[j] <= m[k])
      && (forall j :: 0 <= j < k ==> m[j] < m[k])
  }

  /** The state of the scan after the medians p: the value chosen so far is
      what SelectedBy prescribes for p, and the running maximum is its median
      (still Integer.MIN_VALUE while nothing has beaten it). */
  predicate Scanned(p: seq<int>, maxDuration: int, value: int) {
    && SelectedBy(p, value)
    && maxDuration == (if forall j :: 0 <= j < |p| ==> p[j] <= IntMinValue then IntMinValue
                       else p[ValueToIndex(value)])
  }

  /** One step of the scan keeps Scanned: a strictly greater median takes over,
      anything else leaves the choice alone. */
  lemma ScanStep(p: seq<int>, x: int, maxDuration: int, value: int)
    requires |p| < CandidateCount
    requires Scanned(p, maxDuration, value)
    ensures x > maxDuration ==> Scanned(p + [x], x, IndexToValue(|p|))
    ensures x <= maxDuration ==> Scanned(p + [x], maxDuration, value)
  {
    SlotValueBijection();
    var q := p + [x];
    assert forall j :: 0 <= j < |p| ==> q[j] == p[j];
    if forall j :: 0 <= j < |p| ==> p[j] <= IntMinValue {
      if x > maxDuration {
        assert ValueToIndex(IndexToValue(|p|)) == |p|;
      } else {
        assert forall j :: 0 <= j < |q| ==> q[j] <= IntMinValue;
      }
    } else {
      var k := ValueToIndex(value);
      assert 0 <= k < |p|;
      if x > maxDuration {
        assert ValueToIndex(IndexToValue(|p|)) == |p|;
        assert !(forall j :: 0 <= j < |q| ==> q[j] <= IntMinValue) by {
          assert q[|p|] > IntMinValue;
        }
      } else {
        assert !(forall j :: 0 <= j < |q| ==> q[j] <= IntMinValue) by {
          assert q[k] > IntMinValue;
        }
      }
    }
  }

  /** One slot of the aggregation loop, on the medians alone. */
  lemma AggregateStep(m: seq<int>, i: int, total: int, maxDuration: int, value: int)
    requires 0 <= i < |m| == CandidateCount
    requires total == Sum(m[..i]) && Scanned(m[..i], maxDuration, value)
    ensures total + m[i] == Sum(m[..i + 1])
    ensures m[i] > maxDuration ==> Scanned(m[..i + 1], m[i], IndexToValue(i))
    ensures m[i] <= maxDuration ==> Scanned(m[..i + 1], maxDuration, value)
  {
    assert m[..i + 1] == m[..i] + [m[i]];
    assert m[..i + 1][..i] == m[..i];
    ScanStep(m[..i], m[i], maxDuration, value);
  }

  /** Every row has NumberOfTries (even) entries, so the medians as
      `getMedian` computes them are the intended ones. */
  lemma MediansAsWritten(durations: seq<seq<int>>)
    requires WellShaped(durations)
    ensures forall c {:trigger Median.GetMedian(durations[c])} :: 0 <= c < CandidateCount ==>
              Median.GetMedian(durations[c]).median == Medians(durations)[c]
  {
    forall c | 0 <= c < CandidateCount
      ensures Median.GetMedian(durations[c]).median == Medians(durations)[c]
    {
      Median.GetMedianAgreesOnEvenCounts(durations[c]);
    }
  }

  /** The aggregation loop of `findByte`, one pass over the slots: take the
      slot's median as `getMedian` computes it, add it to the total, and keep
      it if it beats the running maximum. m holds those medians. */
  method ScanSlots(durations: seq<seq<int>>, ghost m: seq<int>)
    returns (total: int, maxDuration: int, maxDurationValue: int)
    requires WellShaped(durations) && |m| == CandidateCount
    requires forall c {:trigger Median.GetMedian(durations[c])} :: 0 <= c < CandidateCount ==>
               Median.GetMedian(durations[c]).median == m[c]
    ensures total == Sum(m)
    ensures Scanned(m, maxDuration, maxDurationValue)
  {
    maxDurationValue := 0;
    maxDuration := IntMinValue;
    total := 0;
    var i := 0;
    while i < CandidateCount
      invariant 0 <= i <= CandidateCount
      invariant total == Sum(m[..i])
      invariant Scanned(m[..i], maxDuration, maxDurationValue)
    {
      var actualDuration := Median.GetMedian(durations[i]).median;
      AggregateStep(m, i, total, maxDuration, maxDurationValue);
      total := total + actualDuration;
      if actualDuration > maxDuration {
        maxDuration := actualDuration;
        maxDurationValue := IndexToValue(i);
      }
      i := i + 1;
    }
    assert m[..CandidateCount] == m;
  }

  /** The tail of `findByte`: the position average is the rounded mean of the
      256 medians, and the committed byte is the first slot's value with the
      greatest median (0 when no median exceeds Integer.MIN_VALUE). */
  method Aggregate(durations: seq<seq<int>>) returns (average: int, chosen: int)
    requires WellShaped(durations)
    ensures average == RoundHalfUp(Sum(Medians(durations)), CandidateCount)
    ensures SelectedBy(Medians(durations), chosen)
  {
    MediansAsWritten(durations);
    var total, maxDuration, maxDurationValue := ScanSlots(durations, Medians(durations));
    average := RoundHalfUp(total, CandidateCount);
    chosen := maxDurationValue;
  }

  /** A chosen value is always a byte, so committing it keeps the signature a
      buffer of bytes. */
  lemma SelectedIsByte(m: seq<int>, value: int)
    requires |m| == CandidateCount
    requires SelectedBy(m, value)
    ensures IsByte(value)
  {
  }
}
