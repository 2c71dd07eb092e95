/** The 256 candidate byte values and the mapping between a candidate's slot in
    the duration table (0..255) and its signed Java byte value (-128..127). */
module Candidates {
  import opened JavaArith

  /** Number of candidates tried at every position: all byte values. */
  const CandidateCount: nat := 256

  /** The distance between a slot and its value, `(int) Byte.MIN_VALUE * -1`. */
  const Offset: int := -ByteMinValue

  /** `byteIndexToValue`: shift the slot down by 128 and narrow to a byte. */
  function IndexToValue(index: int): (value: int)
    ensures IsByte(value)
    ensures (index - Offset - value) % 256 == 0
  {
    ToByte(index - Offset)
  }

  /** `byteValueToIndex`: shift the value up by 128; no narrowing takes place. */
  function ValueToIndex(value: int): (index: int)
    ensures IsByte(value) <==> 0 <= index < CandidateCount
  {
    value + Offset
  }

  /** Slots 0..255 and the byte values -128..127 correspond one to one: each
      map undoes the other, so no byte value is missed or hit twice. */
  lemma SlotValueBijection()
    ensures forall i :: 0 <= i < CandidateCount ==> ValueToIndex(IndexToValue(i)) == i
    ensures forall v :: IsByte(v) ==> IndexToValue(ValueToIndex(v)) == v
    ensures forall i, j :: 0 <= i < j < CandidateCount ==> IndexToValue(i) != IndexToValue(j)
    ensures IndexToValue(0) == ByteMinValue && IndexToValue(CandidateCount - 1) == ByteMaxValue
  {
  }

  /** A round's candidate order: the 256 byte values, each exactly once, in
      some order (what shuffling `possibleInputs` yields). */
  predicate IsShuffle(p: seq<int>) {
    && |p| == CandidateCount
    && (forall x :: x in p ==> IsByte(x))
    && (forall v :: ByteMinValue <= v <= ByteMaxValue ==> v in p)
  }

  /** `possibleInputs`: every byte value, slot i holding the value of slot i. */
  function PossibleInputs(): (table: seq<int>)
    ensures |table| == CandidateCount
    ensures forall i :: 0 <= i < CandidateCount ==> ValueToIndex(table[i]) == i
    ensures forall i, j :: 0 <= i < j < CandidateCount ==> table[i] != table[j]
    ensures IsShuffle(table)
  {
    var table := seq(CandidateCount, i => IndexToValue(i));
    SlotValueBijection();
    assert forall v :: ByteMinValue <= v <= ByteMaxValue ==> v in table by {
      forall v | ByteMinValue <= v <= ByteMaxValue
        ensures v in table
      {
        assert table[ValueToIndex(v)] == v;
      }
    }
    table
  }
}
