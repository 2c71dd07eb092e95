/** Trend check over the per-position averages: the trailing-window baseline
    (`getAverageDeltaInInterval`) and the rollback test of the main loop. */
module Trend {
  import opened JavaArith
  import opened Preamble

  /** How many consecutive pairs (t, t + 1), t = start, start + 1, ..., the
      baseline loop counts: it stops at `end`, at the last position, or at the
      first later entry that is not positive. The contract says k is exactly
      the length of that maximal run. */
  function RunLength(start: int, end: int, values: seq<int>): (k: nat)
    requires 0 <= start && |values| == SignatureLength
    ensures k > 0 ==> start + k < SignatureLength && start + k <= end
    ensures forall t :: start < t <= start + k ==> values[t] > 0
    ensures !(start + k < end && start + k + 1 < SignatureLength && values[start + k + 1] > 0)
    decreases end - start
  {
    if start < end && start + 1 < SignatureLength && values[start + 1] > 0 then
      1 + RunLength(start + 1, end, values)
    else
      0
  }

  /** The value `getAverageDeltaInInterval` returns: the k counted deltas
      telescope to values[start + k] - values[start], and their mean is rounded
      half up. With nothing counted Java divides 0 by 0.0, and Math.round of
      that NaN is 0. */
  function Baseline(start: int, end: int, values: seq<int>): int
    requires 0 <= start && |values| == SignatureLength
  {
    var k := RunLength(start, end, values);
    if k == 0 then 0 else RoundHalfUp(values[start + k] - values[start], k)
  }

  /** `getAverageDeltaInInterval`, step by step as the program does it: add up
      the deltas one pair at a time and stop at the first pair that does not
      qualify. The result is the telescoped closed form. */
  method AverageDeltaInInterval(start: int, end: int, values: seq<int>) returns (avg: int)
    requires 0 <= start && |values| == SignatureLength
    ensures avg == Baseline(start, end, values)
  {
    var itemsCounted: nat := 0;
    var accumulator := 0;
    var i := start;
    while i < end
      invariant start <= i
      invariant itemsCounted == i - start
      invariant RunLength(start, end, values) == itemsCounted + RunLength(i, end, values)
      invariant itemsCounted > 0 ==> i < SignatureLength && accumulator == values[i] - values[start]
      invariant itemsCounted == 0 ==> accumulator == 0
      decreases end - i
    {
      var j := i + 1;
      if j < SignatureLength && values[j] > 0 {
        accumulator := accumulator + (values[j] - values[i]);
        itemsCounted := itemsCounted + 1;
      } else {
        break;
      }
      i := i + 1;
    }
    // Math.round(0 / 0.0) is Math.round(NaN), which is 0
    avg := if itemsCounted == 0 then 0 else RoundHalfUp(accumulator, itemsCounted);
  }

  /** The test of the main loop after position i is measured: from the fourth
      position on, the latest increase of the position average falls short of
      half the trailing baseline (halved with Java's truncating division). */
  predicate RollbackFires(i: int, avg: seq<int>)
    requires 0 <= i < SignatureLength && |avg| == SignatureLength
  {
    i > 2 && avg[i] - avg[i - 1] < Div(Baseline(Max(0, i - 4), Max(0, i - 2), avg), 2)
  }

  /** A sum of consecutive deltas telescopes, so an upper bound on each delta
      bounds the difference of the end points. */
  lemma {:induction false} TelescopeAtMost(values: seq<int>, a: int, k: nat, hi: int)
    requires 0 <= a && a + k < |values|
    requires forall t :: a <= t < a + k ==> values[t + 1] - values[t] <= hi
    ensures values[a + k] - values[a] <= k * hi
  {
    if k > 0 {
      TelescopeAtMost(values, a, k - 1, hi);
      assert values[a + k] - values[a + k - 1] <= hi;
    }
  }

  /** The lower-bound counterpart of TelescopeAtMost. */
  lemma {:induction false} TelescopeAtLeast(values: seq<int>, a: int, k: nat, lo: int)
    requires 0 <= a && a + k < |values|
    requires forall t :: a <= t < a + k ==> lo <= values[t + 1] - values[t]
    ensures k * lo <= values[a + k] - values[a]
  {
    if k > 0 {
      TelescopeAtLeast(values, a, k - 1, lo);
      assert lo <= values[a + k] - values[a + k - 1];
    }
  }

  /** The baseline is a rounded mean of the window's counted deltas, so it
      never exceeds a bound that every delta of the window respects. */
  lemma BaselineAtMost(start: int, end: int, values: seq<int>, hi: int)
    requires 0 <= start && |values| == SignatureLength
    requires RunLength(start, end, values) > 0
    requires forall t :: start <= t < end && t + 1 < SignatureLength ==> values[t + 1] - values[t] <= hi
    ensures Baseline(start, end, values) <= hi
  {
    var k := RunLength(start, end, values);
    TelescopeAtMost(values, start, k, hi);
    RoundHalfUpAtMost(values[start + k] - values[start], k, hi);
  }

  /** The lower-bound counterpart of BaselineAtMost. */
  lemma BaselineAtLeast(start: int, end: int, values: seq<int>, lo: int)
    requires 0 <= start && |values| == SignatureLength
    requires RunLength(start, end, values) > 0
    requires forall t :: start <= t < end && t + 1 < SignatureLength ==> lo <= values[t + 1] - values[t]
    ensures lo <= Baseline(start, end, values)
  {
    var k := RunLength(start, end, values);
    TelescopeAtLeast(values, start, k, lo);
    RoundHalfUpAtLeast(values[start + k] - values[start], k, lo);
  }

  /** With no qualifying pair in the window the baseline is 0, and the
      rollback test reduces to "the position average went down". */
  lemma EmptyWindowRollback(i: int, avg: seq<int>)
    requires 2 < i < SignatureLength && |avg| == SignatureLength
    requires RunLength(Max(0, i - 4), Max(0, i - 2), avg) == 0
    ensures Baseline(Max(0, i - 4), Max(0, i - 2), avg) == 0
    ensures RollbackFires(i, avg) <==> avg[i] < avg[i - 1]
  {
  }

  /** Growth that keeps up never triggers a rollback: if the latest delta is
      not negative and at least every delta in the trailing window, the
      position is kept. */
  lemma NoRollbackWhileGrowing(i: int, avg: seq<int>)
    requires 2 < i < SignatureLength && |avg| == SignatureLength
    requires 0 <= avg[i] - avg[i - 1]
    requires forall t :: Max(0, i - 4) <= t < i - 2 ==> avg[t + 1] - avg[t] <= avg[i] - avg[i - 1]
    ensures !RollbackFires(i, avg)
  {
    var start, end := Max(0, i - 4), Max(0, i - 2);
    if RunLength(start, end, avg) > 0 {
      BaselineAtMost(start, end, avg, avg[i] - avg[i - 1]);
    }
  }

  /** A drop after a window that never went down always triggers a rollback. */
  lemma RollbackOnDrop(i: int, avg: seq<int>)
    requires 2 < i < SignatureLength && |avg| == SignatureLength
    requires avg[i] < avg[i - 1]
    requires forall t :: Max(0, i - 4) <= t < i - 2 ==> avg[t] <= avg[t + 1]
    ensures RollbackFires(i, avg)
  {
    var start, end := Max(0, i - 4), Max(0, i - 2);
    if RunLength(start, end, avg) > 0 {
      BaselineAtLeast(start, end, avg, 0);
    }
  }

  /** Deltas that keep growing but stay negative can still trigger a
      rollback: on averages 100, 90, 82, 76 the deltas are -10, -8, -6, the
      baseline at position 3 is -10, half of it truncates to -5, and -6 falls
      below that. */
  lemma RollbackOnGrowingNegativeDeltas()
    ensures var avg := [100, 90, 82, 76] + seq(SignatureLength - 4, _ => 0);
            && avg[1] - avg[0] < avg[2] - avg[1] < avg[3] - avg[2] < 0
            && Baseline(0, 1, avg) == -10
            && RollbackFires(3, avg)
  {
    var avg := [100, 90, 82, 76] + seq(SignatureLength - 4, _ => 0);
    assert RunLength(1, 1, avg) == 0;
    assert RunLength(0, 1, avg) == 1;
  }
}
