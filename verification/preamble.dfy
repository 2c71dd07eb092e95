/** The composed buffer handed to the oracle: the constant preamble followed by
    the working signature. */
module Preamble {
  import opened JavaArith

  /** `SIGNATURE_LENGTH` and `PREAMBLE_LENGTH`. */
  const SignatureLength: nat := 20
  const PreambleLength: nat := 5

  /** `GOOD_PREAMBLE`. */
  const GoodPreamble: seq<int> := [0, 92, 17, -97, -123]

  /** `addPrefix`: a new buffer of PreambleLength + SignatureLength bytes, the
      preamble followed by the first SignatureLength bytes of the signature.
      Java's `System.arraycopy` throws on a shorter signature; every caller
      passes a buffer of exactly SignatureLength bytes. The argument is a
      value here, so it cannot be changed. */
  function AddPrefix(signature: seq<int>): (full: seq<int>)
    requires |signature| >= SignatureLength
    ensures |full| == PreambleLength + SignatureLength
    ensures full[..PreambleLength] == GoodPreamble
    ensures forall i :: 0 <= i < SignatureLength ==> full[PreambleLength + i] == signature[i]
  {
    GoodPreamble + signature[..SignatureLength]
  }

  /** The oracle sees the guessed bytes and nothing else: two signatures give
      the same composed buffer exactly when their first SignatureLength bytes
      agree, and a buffer of bytes composes to a buffer of bytes. */
  lemma AddPrefixFaithful(a: seq<int>, b: seq<int>)
    requires |a| >= SignatureLength && |b| >= SignatureLength
    ensures AddPrefix(a) == AddPrefix(b) <==> a[..SignatureLength] == b[..SignatureLength]
    ensures (forall i :: 0 <= i < |a| ==> IsByte(a[i])) ==>
              forall i :: 0 <= i < |AddPrefix(a)| ==> IsByte(AddPrefix(a)[i])
  {
    if AddPrefix(a) == AddPrefix(b) {
      assert a[..SignatureLength] == AddPrefix(a)[PreambleLength..];
      assert b[..SignatureLength] == AddPrefix(b)[PreambleLength..];
    }
  }
}
