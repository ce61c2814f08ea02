/**
  The data path of the xcrypt command line tool with its I/O stripped away:
  encryption frames the plaintext and XORs the framed buffer with the key;
  decryption XORs with the key and checks the trailer. Output is written only
  when the password gate opens and, for decryption, the trailer matches.
*/
module XCrypt {
  import opened Bytes
  import opened XorCipher
  import opened Fnv
  import opened Checksum

  datatype Option<T> = None | Some(value: T)

  /** The two transforming modes of the tool, `-e` and `-d`. */
  datatype Mode = EncryptMode | DecryptMode

  /** The hash the password gate expects (that of "hello"). */
  const CorrectHash: bv32 := 0x4f9f2cab

  /** The password gate: the hash of what the user typed must equal the
      stored constant, which "hello" meets. */
  predicate VerifyPassword(userPass: seq<Byte>): (ok: bool)
    ensures userPass == Hello ==> ok
  {
    FnvKnownVectors();
    FnvHash(userPass) == CorrectHash
  }

  /** The encrypt branch: add the trailer, then XOR everything with the key.
      The ciphertext is the buffer that XORs back to the framed plaintext. */
  function Encrypt(fileData: seq<Byte>, keyData: seq<Byte>): (cipher: seq<Byte>)
    requires |keyData| >= 1
    ensures |cipher| == |fileData| + 4
    ensures XorCrypt(cipher, keyData) == AddChecksum(fileData)
  {
    XorCryptSelfInverse(AddChecksum(fileData), keyData);
    XorCrypt(AddChecksum(fileData), keyData)
  }

  /** The decrypt branch: XOR with the key, then check the trailer. The
      verdict is `true` exactly when the input is the encryption of the
      returned text under this key. */
  function Decrypt(fileData: seq<Byte>, keyData: seq<Byte>): (r: Verdict)
    requires KeyUsable(fileData, keyData)
    ensures |fileData| < 4 ==> r == Verdict([], false)
    ensures |fileData| >= 4 ==> r.text == XorCrypt(fileData, keyData)[..|fileData| - 4]
    ensures r.intact <==> |keyData| >= 1 && fileData == Encrypt(r.text, keyData)
  {
    var decryptedData := XorCrypt(fileData, keyData);
    var r := CheckChecksum(decryptedData);
    if |keyData| >= 1 then
      XorCryptMoveAcross(fileData, AddChecksum(r.text), keyData);
      r
    else
      r
  }

  /** Decrypting an encryption under the same key recovers the plaintext and
      reports it intact. */
  lemma DecryptEncrypt(fileData: seq<Byte>, keyData: seq<Byte>)
    requires |keyData| >= 1
    ensures Decrypt(Encrypt(fileData, keyData), keyData) == Verdict(fileData, true)
  {
    CheckAddChecksum(fileData);
  }

  /** What the tool writes to the output file, or `None` when it writes
      nothing: a wrong password, or a decryption whose trailer does not match. */
  function Run(userPass: seq<Byte>, mode: Mode, fileData: seq<Byte>, keyData: seq<Byte>): (out: Option<seq<Byte>>)
    requires VerifyPassword(userPass) && mode == EncryptMode ==> |keyData| >= 1
    requires VerifyPassword(userPass) && mode == DecryptMode ==> KeyUsable(fileData, keyData)
    ensures out.Some? ==> VerifyPassword(userPass)
    ensures mode == EncryptMode ==> (out.Some? <==> VerifyPassword(userPass))
    ensures mode == DecryptMode && out.Some? ==> |keyData| >= 1 && fileData == Encrypt(out.value, keyData)
  {
    if !VerifyPassword(userPass) then None
    else
      match mode
      case EncryptMode => Some(Encrypt(fileData, keyData))
      case DecryptMode =>
        var resultPair := Decrypt(fileData, keyData);
        if !resultPair.intact then None else Some(resultPair.text)
  }

  /** With the right password, running `-d` on the output of `-e` with the
      same key writes back the original file. */
  lemma RunDecryptAfterEncrypt(userPass: seq<Byte>, fileData: seq<Byte>, keyData: seq<Byte>)
    requires VerifyPassword(userPass)
    requires |keyData| >= 1
    ensures Run(userPass, EncryptMode, fileData, keyData).Some?
    ensures Run(userPass, DecryptMode, Run(userPass, EncryptMode, fileData, keyData).value, keyData)
            == Some(fileData)
  {
    DecryptEncrypt(fileData, keyData);
  }

  /** The worked scenario: "hello" under the one-byte key "k" encrypts to these
      nine bytes, and decrypting them gives "hello" back, verified. */
  lemma HelloWithKeyK()
    ensures Encrypt(Hello, [0x6b]) == [0x03, 0x0e, 0x07, 0x07, 0x04, 0xc0, 0x47, 0xf4, 0x24]
    ensures Decrypt(Encrypt(Hello, [0x6b]), [0x6b]) == Verdict(Hello, true)
  {
    FnvKnownVectors();
    var cipher := Encrypt(Hello, [0x6b]);
    assert AddChecksum(Hello) == Hello + [0xab, 0x2c, 0x9f, 0x4f];
    assert forall i :: 0 <= i < 9 ==> cipher[i] == AddChecksum(Hello)[i] ^ 0x6b;
    DecryptEncrypt(Hello, [0x6b]);
  }
}
