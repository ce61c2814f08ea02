/**
  The integrity trailer of xcrypt: the FNV-1a hash of a payload, appended as
  four bytes least-significant first, and the check that splits it off again.
*/
module Checksum {
  import opened Bytes
  import opened Fnv

  /** What the source's `pair<string, bool>` carries: the text before the
      trailer, and whether the trailer matched its hash. */
  datatype Verdict = Verdict(text: seq<Byte>, intact: bool)

  /** The four bytes of `h`, least significant first: shifted back into
      place and ORed together, they give `h` again. */
  function EncodeLE32(h: bv32): (r: seq<Byte>)
    ensures |r| == 4
    ensures (r[0] as bv32) | ((r[1] as bv32) << 8) | ((r[2] as bv32) << 16) | ((r[3] as bv32) << 24) == h
  {
    [ (h & 0xFF) as Byte,
      ((h >> 8) & 0xFF) as Byte,
      ((h >> 16) & 0xFF) as Byte,
      ((h >> 24) & 0xFF) as Byte ]
  }

  /** The 32-bit value whose bytes, least significant first, are `b`:
      masking and shifting it gives each byte back. */
  function DecodeLE32(b: seq<Byte>): (r: bv32)
    requires |b| == 4
    ensures (r & 0xFF) as Byte == b[0]
    ensures ((r >> 8) & 0xFF) as Byte == b[1]
    ensures ((r >> 16) & 0xFF) as Byte == b[2]
    ensures ((r >> 24) & 0xFF) as Byte == b[3]
  {
    (b[0] as bv32)
    | ((b[1] as bv32) << 8)
    | ((b[2] as bv32) << 16)
    | ((b[3] as bv32) << 24)
  }

  /** Decoding undoes encoding: no 32-bit value is lost in the trailer. */
  lemma DecodeEncodeLE32(h: bv32)
    ensures DecodeLE32(EncodeLE32(h)) == h
  {
  }

  /** Encoding undoes decoding: every 4-byte trailer is the encoding of the
      value it decodes to. */
  lemma EncodeDecodeLE32(b: seq<Byte>)
    requires |b| == 4
    ensures EncodeLE32(DecodeLE32(b)) == b
  {
  }

  /** The payload followed by the little-endian bytes of its hash. */
  function AddChecksum(plainText: seq<Byte>): (r: seq<Byte>)
    ensures |r| == |plainText| + 4
    ensures r[..|plainText|] == plainText
    ensures r[|plainText|] as bv32 == FnvHash(plainText) & 0xFF
    ensures r[|plainText| + 1] as bv32 == (FnvHash(plainText) >> 8) & 0xFF
    ensures r[|plainText| + 2] as bv32 == (FnvHash(plainText) >> 16) & 0xFF
    ensures r[|plainText| + 3] as bv32 == (FnvHash(plainText) >> 24) & 0xFF
    ensures DecodeLE32(r[|plainText|..]) == FnvHash(plainText)
  {
    DecodeEncodeLE32(FnvHash(plainText));
    plainText + EncodeLE32(FnvHash(plainText))
  }

  /** Splits off the last four bytes and compares them with the hash of the
      rest. The text before the trailer is returned whatever the verdict; an
      input too short to hold a trailer yields an empty text and `false`.
      The verdict is `true` exactly when the input is what `AddChecksum`
      makes of the returned text. */
  function CheckChecksum(dataWithChecksum: seq<Byte>): (r: Verdict)
    ensures |dataWithChecksum| < 4 ==> r == Verdict([], false)
    ensures |dataWithChecksum| >= 4 ==> r.text == dataWithChecksum[..|dataWithChecksum| - 4]
    ensures r.intact <==> dataWithChecksum == AddChecksum(r.text)
  {
    if |dataWithChecksum| < 4 then Verdict([], false)
    else
      var textLen := |dataWithChecksum| - 4;
      var originalText := dataWithChecksum[..textLen];
      var savedHash := DecodeLE32(dataWithChecksum[textLen..]);
      EncodeDecodeLE32(dataWithChecksum[textLen..]);
      assert dataWithChecksum == originalText + dataWithChecksum[textLen..];
      Verdict(originalText, FnvHash(originalText) == savedHash)
  }

  /** Framing then checking gives back the payload, verified, for every
      payload including the empty one. */
  lemma {:induction false} CheckAddChecksum(plainText: seq<Byte>)
    ensures CheckChecksum(AddChecksum(plainText)) == Verdict(plainText, true)
  {
    var framed := AddChecksum(plainText);
    assert framed[..|framed| - 4] == plainText;
  }

  /** A trailer can only come from one payload. */
  lemma AddChecksumInjective(p: seq<Byte>, q: seq<Byte>)
    ensures AddChecksum(p) == AddChecksum(q) <==> p == q
  {
    if AddChecksum(p) == AddChecksum(q) {
      assert p == AddChecksum(p)[..|p|];
    }
  }

  /** The check accepts exactly the buffers that some payload frames to. */
  lemma CheckChecksumAcceptsFramed(dataWithChecksum: seq<Byte>)
    ensures CheckChecksum(dataWithChecksum).intact
            <==> exists p :: dataWithChecksum == AddChecksum(p)
  {
    if p :| dataWithChecksum == AddChecksum(p) {
      CheckAddChecksum(p);
    }
  }
}
