/**
  The 32-bit FNV-1a hash of xcrypt. The source computes in `unsigned int`,
  taken here to be 32 bits wide as the source's own comment says; its
  arithmetic then wraps modulo 2^32, as `bv32` arithmetic does by definition.
  So the hash is a `bv32` and every `*` below is multiplication mod 2^32.
*/
module Fnv {
  import opened Bytes

  /** The FNV-1a 32-bit offset basis. */
  const OffsetBasis: bv32 := 2166136261
  /** The FNV-1a 32-bit prime. */
  const Prime: bv32 := 16777619

  /** One round: XOR the byte in, then multiply by the prime (wrapping).
      The prime is odd, so the round flips the low bit of the hash exactly
      when the low bit of the byte is set. */
  function Step(h: bv32, b: Byte): (r: bv32)
    ensures r & 1 == (h & 1) ^ ((b as bv32) & 1)
  {
    (h ^ (b as bv32)) * Prime
  }

  /** The rounds applied to `text` from its first byte on, starting from
      hash `h`: the order in which the source's loop visits the bytes. */
  function FoldFrom(h: bv32, text: seq<Byte>): bv32
    decreases |text|
  {
    if |text| == 0 then h else FoldFrom(Step(h, text[0]), text[1..])
  }

  /** Folding from the front over one more byte ends with one more round. */
  lemma {:induction false} FoldFromAppend(h: bv32, text: seq<Byte>, b: Byte)
    ensures FoldFrom(h, text + [b]) == Step(FoldFrom(h, text), b)
    decreases |text|
  {
    if |text| == 0 {
      assert (text + [b])[1..] == [];
    } else {
      assert (text + [b])[1..] == text[1..] + [b];
      FoldFromAppend(Step(h, text[0]), text[1..], b);
    }
  }

  /** The hash of `text`, peeling off the last byte. It agrees with the
      front-to-back fold from the offset basis. */
  function FnvHash(text: seq<Byte>): (h: bv32)
    ensures h == FoldFrom(OffsetBasis, text)
  {
    if |text| == 0 then OffsetBasis
    else
      var prefix := text[..|text| - 1];
      FoldFromAppend(OffsetBasis, prefix, text[|text| - 1]);
      assert prefix + [text[|text| - 1]] == text;
      Step(FnvHash(prefix), text[|text| - 1])
  }

  /** Hashing one more byte performs one FNV-1a round on the previous hash;
      the hash of a concatenation is computed from the hash of its prefix. */
  lemma {:induction false} FnvHashAppend(text: seq<Byte>, b: Byte)
    ensures FnvHash(text + [b]) == Step(FnvHash(text), b)
  {
    assert (text + [b])[..|text|] == text;
  }

  /** The loop of the source, consuming the bytes front to back. */
  method FnvHashLoop(text: seq<Byte>) returns (hashValue: bv32)
    ensures hashValue == FnvHash(text)
  {
    hashValue := OffsetBasis;
    var i := 0;
    while i < |text|
      invariant 0 <= i <= |text|
      invariant hashValue == FnvHash(text[..i])
    {
      FnvHashAppend(text[..i], text[i]);
      assert text[..i + 1] == text[..i] + [text[i]];
      hashValue := Step(hashValue, text[i]);
      i := i + 1;
    }
    assert text[..i] == text;
  }

  /** The bytes of the ASCII string "hello". */
  const Hello: seq<Byte> := [0x68, 0x65, 0x6c, 0x6c, 0x6f]

  /** Known vectors: the empty input hashes to the offset basis, and "hello"
      hashes to 0x4f9f2cab (the intermediate hashes are the standard FNV-1a ones). */
  lemma FnvKnownVectors()
    ensures FnvHash([]) == 2166136261
    ensures FnvHash(Hello) == 0x4f9f2cab
  {
    assert Hello[..1][..0] == [];
    assert Hello[..2][..1] == Hello[..1];
    assert Hello[..3][..2] == Hello[..2];
    assert Hello[..4][..3] == Hello[..3];
    assert Hello[..4] == Hello[..|Hello| - 1];
    assert FnvHash(Hello[..1]) == 0xed0c3757;
    assert FnvHash(Hello[..2]) == 0x5c3ae3b6;
    assert FnvHash(Hello[..3]) == 0x0ab4b02e;
    assert FnvHash(Hello[..4]) == 0x1c7177e6;
  }
}
