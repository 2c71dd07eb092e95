/** `getMedian`: the per-candidate statistic taken over the measurement rounds. */
module Median {
  import opened JavaArith
  import opened Sorting

  /** `NUMBER_OF_TRIES`: rounds per position, hence the length of every array
      whose median the program takes. */
  const NumberOfTries: nat := 50

  /** What `getMedian` leaves behind: Java sorts its argument in place, so the
      reordered array is part of the outcome together with the returned value. */
  datatype MedianResult = MedianResult(sorted: seq<int>, median: int)

  /** `getMedian` as written. For an even count the result is the truncated
      mean of the two middle elements of the sorted array. For an odd count it
      is the index-like value n/2 + 1, whatever the contents (a defect). An
      empty array makes Java read index -1, so at least one value is required. */
  function GetMedian(values: seq<int>): (r: MedianResult)
    requires |values| >= 1
    ensures Sorted(r.sorted) && multiset(r.sorted) == multiset(values) && |r.sorted| == |values|
    ensures |values| % 2 == 0 ==>
              var n := |values|;
              && r.median == Div(r.sorted[n / 2 - 1] + r.sorted[n / 2], 2)
              && r.sorted[n / 2 - 1] <= r.median <= r.sorted[n / 2]
    ensures |values| % 2 == 1 ==> r.median == |values| / 2 + 1
  {
    var sorted := Sort(values);
    var n := |sorted|;
    if n % 2 == 0 then
      MedianResult(sorted, Div(sorted[n / 2 - 1] + sorted[n / 2], 2))
    else
      MedianResult(sorted, n / 2 + 1)
  }

  /** The median the method's documentation and the even branch intend: for an
      odd count the middle element of the sorted array. Either way at least
      half of the inputs lie at or below it and at least half at or above it. */
  function Median(values: seq<int>): (m: int)
    requires |values| >= 1
    ensures Count(values, m, AtMost) >= (|values| + 1) / 2
    ensures Count(values, m, AtLeast) >= (|values| + 1) / 2
  {
    var s := Sort(values);
    var n := |s|;
    var m := if n % 2 == 0 then Div(s[n / 2 - 1] + s[n / 2], 2) else s[n / 2];
    CountSort(values, m, AtMost);
    CountSort(values, m, AtLeast);
    assert Count(s, m, AtMost) >= (n + 1) / 2 && Count(s, m, AtLeast) >= (n + 1) / 2 by {
      if n % 2 == 0 {
        CountSortedPrefix(s, n / 2 - 1, m);
        CountSortedSuffix(s, n / 2, m);
      } else {
        CountSortedPrefix(s, n / 2, m);
        CountSortedSuffix(s, n / 2, m);
      }
    }
    m
  }

  /** With an even number of rounds (NumberOfTries is 50) the defective branch
      is never taken, so the median as written and the intended one agree. */
  lemma GetMedianAgreesOnEvenCounts(values: seq<int>)
    requires |values| >= 2 && |values| % 2 == 0
    ensures GetMedian(values).median == Median(values)
    ensures GetMedian(values).sorted == Sort(values)
  {
    SortedPermutationUnique(GetMedian(values).sorted, Sort(values));
  }

  /** The odd branch as written: on [10, 20, 30] it returns 2, a value that is
      not among the inputs and has no input at or below it, where the intended
      median is 20. */
  lemma GetMedianOddDefect()
    ensures var v := [10, 20, 30];
            && GetMedian(v).median == 2
            && Count(v, GetMedian(v).median, AtMost) == 0
            && Median(v) == 20
  {
    var v := [10, 20, 30];
    assert Sorted(v);
    SortedPermutationUnique(Sort(v), v);
    assert Count(v, 2, AtMost) == 0 by {
      assert v[1..] == [20, 30] && v[1..][1..] == [30] && v[1..][1..][1..] == [];
    }
  }
}
