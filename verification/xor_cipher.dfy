/**
  The repeating-key XOR transform of xcrypt: byte `i` of the data is combined
  with key byte `i mod |key|`. The same transform encrypts and decrypts.
*/
module XorCipher {
  import opened Bytes

  /** The source only divides by the key length inside the loop, so an empty
      key is harmless exactly when there is no data to transform. */
  predicate KeyUsable(data: seq<Byte>, key: seq<Byte>) {
    |data| == 0 || |key| >= 1
  }

  /** Repeating-key XOR, built one output byte at a time as the source loop does. */
  function XorCrypt(data: seq<Byte>, key: seq<Byte>): (r: seq<Byte>)
    requires KeyUsable(data, key)
    ensures |r| == |data|
    ensures forall i :: 0 <= i < |data| ==> r[i] == data[i] ^ key[i % |key|]
  {
    if |data| == 0 then []
    else
      var last := |data| - 1;
      XorCrypt(data[..last], key) + [data[last] ^ key[last % |key|]]
  }

  /** The loop of the source: copy the data, then overwrite each position. */
  method XorCryptLoop(data: seq<Byte>, key: seq<Byte>) returns (result: seq<Byte>)
    requires KeyUsable(data, key)
    ensures result == XorCrypt(data, key)
  {
    result := data;
    var i := 0;
    while i < |data|
      invariant 0 <= i <= |data|
      invariant |result| == |data|
      invariant forall j :: 0 <= j < i ==> result[j] == data[j] ^ key[j % |key|]
      invariant forall j :: i <= j < |data| ==> result[j] == data[j]
    {
      result := result[i := data[i] ^ key[i % |key|]];
      i := i + 1;
    }
  }

  /** Applying the transform twice with the same key restores the data. */
  lemma XorCryptSelfInverse(data: seq<Byte>, key: seq<Byte>)
    requires KeyUsable(data, key)
    ensures XorCrypt(XorCrypt(data, key), key) == data
  {
    var once := XorCrypt(data, key);
    var twice := XorCrypt(once, key);
    forall i | 0 <= i < |data|
      ensures twice[i] == data[i]
    {
      assert twice[i] == (data[i] ^ key[i % |key|]) ^ key[i % |key|];
    }
  }

  /** The transform is injective for a fixed key: equal outputs mean equal inputs.
      Together with self-inverse this lets either side of an equation be moved. */
  lemma XorCryptMoveAcross(data: seq<Byte>, other: seq<Byte>, key: seq<Byte>)
    requires |key| >= 1
    ensures XorCrypt(data, key) == other <==> data == XorCrypt(other, key)
  {
    XorCryptSelfInverse(data, key);
    XorCryptSelfInverse(other, key);
  }
}
