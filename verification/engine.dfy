/** The attack engine: the working state, one measurement of a position
    (`findByte`), the cursor update of `main`'s loop, and the loop itself. The
    oracle's verdict and its running time are parameters. */
module Engine {
  import opened JavaArith
  import opened Candidates
  import opened Preamble
  import opened Trend
  import opened Measurement
  import opened Aggregation
  import Median

  /** The static arrays of the attack: the guessed signature, each position's
      average of medians, and how often each position has been measured. */
  datatype Session = Session(signature: seq<int>, avgByteDurations: seq<int>, findByteTries: seq<nat>)

  predicate Valid(s: Session) {
    && |s.signature| == SignatureLength
    && (forall i :: 0 <= i < SignatureLength ==> IsByte(s.signature[i]))
    && |s.avgByteDurations| == SignatureLength
    && |s.findByteTries| == SignatureLength
  }

  /** The state `main` sets up before the first position: every signature byte
      is Byte.MIN_VALUE, every average and counter is zero. */
  function Initial(): (s: Session)
    ensures Valid(s)
    ensures forall i :: 0 <= i < SignatureLength ==>
              s.signature[i] == ByteMinValue && s.avgByteDurations[i] == 0 && s.findByteTries[i] == 0
  {
    Session(seq(SignatureLength, _ => ByteMinValue), seq(SignatureLength, _ => 0), seq(SignatureLength, _ => 0))
  }

  /** What measuring position i commits: the candidate chosen by the
      first-greatest-median rule over the medians of the duration table, the
      rounded mean of those medians as the position average, one more try;
      every other entry of the session is unchanged. */
  ghost predicate Committed(s: Session, s': Session, i: int, timing: (int, int) -> int)
    requires Valid(s) && Valid(s') && 0 <= i < SignatureLength
  {
    var m := Medians(TimingTable(timing));
    && SelectedBy(m, s'.signature[i])
    && s'.signature == s.signature[i := s'.signature[i]]
    && s'.avgByteDurations == s.avgByteDurations[i := RoundHalfUp(Sum(m), CandidateCount)]
    && s'.findByteTries == s.findByteTries[i := s.findByteTries[i] + 1]
  }

  /** `findByte(byteIndex)`: measure every candidate in every round, then
      commit the slowest candidate and the position's rounded mean of medians.
      Only the entries at byteIndex change, and the try counter there grows by
      one. During the measurement the program leaves each candidate in the
      signature in turn; the committed choice overwrites it. */
  method FindByte(s: Session, byteIndex: int, shuffles: seq<seq<int>>, timing: (int, int) -> int)
    returns (s': Session)
    requires Valid(s) && 0 <= byteIndex < SignatureLength
    requires |shuffles| == Median.NumberOfTries
    requires forall n :: 0 <= n < |shuffles| ==> IsShuffle(shuffles[n])
    ensures Valid(s')
    ensures Committed(s, s', byteIndex, timing)
  {
    var tries := s.findByteTries[byteIndex := s.findByteTries[byteIndex] + 1];
    var durations := MeasureDurations(shuffles, timing);
    var average, chosen := Aggregate(durations);
    SelectedIsByte(Medians(durations), chosen);
    s' := Session(s.signature[byteIndex := chosen], s.avgByteDurations[byteIndex := average], tries);
  }

  /** The cursor update that ends a pass of `main`'s loop at position i, once
      the position is measured: a failed trend check steps back so that i - 1
      is measured next; at the last position a rejected signature makes that
      position repeat; the loop index then advances by one. The cursor reaches
      SignatureLength only from the last position, without a rollback, and
      with the oracle accepting. */
  function NextCursor(i: int, avg: seq<int>, accepted: bool): (next: int)
    requires 0 <= i < SignatureLength && |avg| == SignatureLength
    ensures i <= 2 ==> next == i + 1
    ensures RollbackFires(i, avg) ==> next == i - 1 && next >= 2
    ensures !RollbackFires(i, avg) && i < SignatureLength - 1 ==> next == i + 1
    ensures i == SignatureLength - 1 && !RollbackFires(i, avg) && !accepted ==> next == i
    ensures next == SignatureLength <==> i == SignatureLength - 1 && !RollbackFires(i, avg) && accepted
  {
    var j := if RollbackFires(i, avg) then i - 2 else i;
    var j' := if j == SignatureLength - 1 && !accepted then j - 1 else j;
    j' + 1
  }

  /** One pass of `main`'s loop at position i: measure and commit the
      position as `findByte` does, then move the cursor by NextCursor with the
      oracle's verdict on the committed signature. The cursor moves up by at
      most one, and it passes the last position only when the oracle accepts
      the committed signature. */
  method Pass(s: Session, i: int, shuffles: seq<seq<int>>, timing: (int, int) -> int,
              oracle: seq<int> -> bool)
    returns (s': Session, next: int)
    requires Valid(s) && 0 <= i < SignatureLength
    requires |shuffles| == Median.NumberOfTries
    requires forall n :: 0 <= n < |shuffles| ==> IsShuffle(shuffles[n])
    ensures Valid(s')
    ensures Committed(s, s', i, timing)
    ensures next == NextCursor(i, s'.avgByteDurations, oracle(AddPrefix(s'.signature)))
    ensures 1 <= next <= i + 1
    ensures next == SignatureLength ==> oracle(AddPrefix(s'.signature))
  {
    s' := FindByte(s, i, shuffles, timing);
    // the program asks the oracle only at the last position; it is pure here
    var accepted := oracle(AddPrefix(s'.signature));
    next := NextCursor(i, s'.avgByteDurations, accepted);
  }

  /** `main`'s loop, observed for at most maxPasses passes (the program has no
      bound of its own). Pass p at position i draws its round orders from
      shuffle(p, i, _) and its oracle times from timing(p, i, _, _); the
      oracle's verdict on a composed buffer is oracle(buffer). The loop only
      finishes with a signature the oracle accepts, and it needs at least one
      pass per position to get there. Every position below the cursor has been
      measured at least once. */
  method Attack(shuffle: (int, int, int) -> seq<int>, timing: (int, int, int, int) -> int,
                oracle: seq<int> -> bool, maxPasses: nat)
    returns (s: Session, cursor: int, passes: nat)
    requires forall p, i, n :: IsShuffle(shuffle(p, i, n))
    ensures Valid(s)
    ensures 0 <= cursor <= SignatureLength && passes <= maxPasses
    ensures cursor < SignatureLength ==> passes == maxPasses
    ensures cursor == SignatureLength ==> oracle(AddPrefix(s.signature)) && passes >= SignatureLength
    ensures forall k :: 0 <= k < cursor ==> s.findByteTries[k] >= 1
  {
    s := Initial();
    cursor := 0;
    passes := 0;
    while cursor < SignatureLength && passes < maxPasses
      invariant Valid(s)
      invariant 0 <= cursor <= SignatureLength && passes <= maxPasses
      invariant cursor <= passes
      invariant cursor == SignatureLength ==> oracle(AddPrefix(s.signature))
      invariant forall k :: 0 <= k < cursor ==> s.findByteTries[k] >= 1
      decreases maxPasses - passes
    {
      var pass, position := passes, cursor;
      var shuffles := seq(Median.NumberOfTries, n => shuffle(pass, position, n));
      s, cursor := Pass(s, position, shuffles, (n, v) => timing(pass, position, n, v), oracle);
      passes := passes + 1;
    }
  }
}
