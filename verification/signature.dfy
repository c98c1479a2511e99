/**
 The signature check: the first 8 bytes of the stream are compared one by one
 with the PNG signature (section 5.2 of the PNG specification). Every
 mismatching byte is reported and the walk goes on to the chunks regardless.
 */
module Signature {
  import opened Bytes
  import opened Events

  const PngSignature: seq<byte> := [137, 80, 78, 71, 13, 10, 26, 10]

  /**
   Byte `i` of the 8-byte buffer the signature is read into: past the end of a
   shorter stream the buffer keeps its initial 0.
   */
  function SignatureByte(file: seq<byte>, i: nat): byte
  {
    if i < |file| then file[i] else 0
  }

  predicate Mismatch(file: seq<byte>, i: nat)
    requires i < 8
  {
    SignatureByte(file, i) != PngSignature[i]
  }

  /** Reports the mismatching signature bytes from index `i` on, in increasing order. */
  function CheckFrom(file: seq<byte>, i: nat): (r: seq<Event>)
    requires i <= 8
    decreases 8 - i
    ensures forall k | 0 <= k < |r| ::
      && r[k].SignatureMismatch?
      && i <= r[k].index < 8
      && Mismatch(file, r[k].index)
      && r[k].want == PngSignature[r[k].index]
      && r[k].found == SignatureByte(file, r[k].index)
    ensures forall k, l | 0 <= k < l < |r| :: r[k].index < r[l].index
    ensures forall j | i <= j < 8 && Mismatch(file, j) ::
      SignatureMismatch(j, PngSignature[j], SignatureByte(file, j)) in r
  {
    if i == 8 then
      []
    else if Mismatch(file, i) then
      [SignatureMismatch(i, PngSignature[i], SignatureByte(file, i))] + CheckFrom(file, i + 1)
    else
      CheckFrom(file, i + 1)
  }

  /**
   All 8 signature bytes are compared: there is one finding for each index
   whose byte differs from the signature, for no other index, in index order.
   */
  function CheckSignature(file: seq<byte>): (r: seq<Event>)
    ensures forall k | 0 <= k < |r| ::
      && r[k].SignatureMismatch?
      && r[k].index < 8
      && Mismatch(file, r[k].index)
      && r[k].want == PngSignature[r[k].index]
      && r[k].found == SignatureByte(file, r[k].index)
    ensures forall k, l | 0 <= k < l < |r| :: r[k].index < r[l].index
    ensures forall j | 0 <= j < 8 && Mismatch(file, j) ::
      SignatureMismatch(j, PngSignature[j], SignatureByte(file, j)) in r
  {
    CheckFrom(file, 0)
  }

  /** A stream that starts with the signature draws no signature finding. */
  lemma SignatureAccepted(file: seq<byte>)
    requires |file| >= 8 && file[..8] == PngSignature
    ensures CheckSignature(file) == []
  {
    forall i | 0 <= i < 8
      ensures !Mismatch(file, i)
    {
      assert file[..8][i] == file[i];
    }
  }

  /** A stream whose first 8 bytes differ from the signature at `j` only draws exactly one finding, for `j`. */
  lemma OneCorruptByte(file: seq<byte>, j: nat)
    requires |file| >= 8 && j < 8
    requires file[j] != PngSignature[j]
    requires forall i | 0 <= i < 8 && i != j :: file[i] == PngSignature[i]
    ensures CheckSignature(file) == [SignatureMismatch(j, PngSignature[j], file[j])]
  {
    OneCorruptByteFrom(file, j, 0);
  }

  lemma {:induction false} OneCorruptByteFrom(file: seq<byte>, j: nat, i: nat)
    requires |file| >= 8 && i <= j < 8
    requires file[j] != PngSignature[j]
    requires forall m | 0 <= m < 8 && m != j :: file[m] == PngSignature[m]
    ensures CheckFrom(file, i) == [SignatureMismatch(j, PngSignature[j], file[j])]
    decreases j - i
  {
    if i == j {
      CleanFrom(file, j + 1);
    } else {
      OneCorruptByteFrom(file, j, i + 1);
    }
  }

  lemma {:induction false} CleanFrom(file: seq<byte>, i: nat)
    requires |file| >= 8 && i <= 8
    requires forall m | i <= m < 8 :: file[m] == PngSignature[m]
    ensures CheckFrom(file, i) == []
    decreases 8 - i
  {
    if i < 8 {
      CleanFrom(file, i + 1);
    }
  }
}
