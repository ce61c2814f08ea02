# xcrypt data path, modelled in Dafny

xcrypt is a small command line tool that obfuscates a file. It XORs the file
against a repeating key and protects the result with a 32-bit FNV-1a
checksum. This project models the tool's pure core and proves properties of
it. The core is four byte-string functions and the way `main` composes them:

- `xorCrypt` is repeating-key XOR. It is modelled in module `XorCipher`.
- `fnvHash` is the 32-bit FNV-1a hash: offset basis 2166136261, prime 16777619,
  XOR the byte in and then multiply, wrapping modulo 2^32. It is modelled in
  module `Fnv`.
- `addChecksum` appends the hash of the payload as four little-endian bytes.
  `checkChecksum` splits those bytes off again and compares them with the
  hash. Both are modelled in module `Checksum`.
- In `main`, encryption is `xorCrypt(addChecksum(P), K)` and decryption is
  `checkChecksum(xorCrypt(C, K))`. The password gate compares `fnvHash` of the
  typed password with a constant. All of this is modelled in module `XCrypt`.

A byte is `bv8` (module `Bytes`). The C++ `char` is read as unsigned, as the
source's `static_cast<unsigned char>` does. A hash is `bv32`. The model assumes
that `unsigned int` is 32 bits wide, as the comment at xcrypt.cpp:18 does. Under
that assumption the source's `^`, `>>`, `&` and `*` on hashes are the `bv32`
operators, and `*` wraps modulo 2^32.

Two behaviours of the code are worth stating up front:

- **Empty key.** The code has no empty-key error. With an empty key and
  non-empty data, `i % keyLen` divides by zero, which is undefined behaviour.
  With empty data the loop never runs and the result is empty. The model
  therefore requires `|data| == 0 || |key| >= 1` (predicate `KeyUsable`). `Run`
  requires it only once the password has passed, because a wrong password
  ends the tool before the key is used.
- **Checksum result.** `checkChecksum` returns `pair<string, bool>`. It returns
  `("", false)` for inputs shorter than four bytes, and it returns the prefix
  even on a mismatch. It does not report a too-short input and a mismatch as
  different errors. The model's `Verdict(text, intact)` does the same.
  Discarding a mismatched payload is done by `main`, which the model covers in
  `XCrypt.Run`.

## Model

| member | source | states |
|---|---|---|
| XorCipher.XorCrypt | xcrypt.cpp:9-16 | the output has the data's length, and byte `i` is `data[i]` XORed with key byte `i` mod key length; the key may be empty only when the data is |
| XorCipher.XorCryptLoop | xcrypt.cpp:10-15 | the copy-then-overwrite loop computes exactly the repeating-key XOR |
| XorCipher.XorCryptSelfInverse | xcrypt.cpp:9-16 | transforming twice with the same key restores the data |
| XorCipher.XorCryptMoveAcross | xcrypt.cpp:9-16 | for a non-empty key, `xorCrypt(D, K) == E` exactly when `D == xorCrypt(E, K)` |
| Fnv.Step | xcrypt.cpp:25-26 | one round XORs the byte in and multiplies by the odd prime, so it flips the low bit of the hash exactly when the byte's low bit is set |
| Fnv.FoldFromAppend | xcrypt.cpp:24-27 | running the rounds from the first byte on over one more byte ends with exactly one more round on that byte |
| Fnv.FnvHash | xcrypt.cpp:19-29 | the hash peeled from the last byte equals the rounds applied from the first byte on, starting from the offset basis |
| Fnv.FnvHashAppend | xcrypt.cpp:24-27 | the hash of `text + [b]` is one FNV-1a round, XOR-then-multiply by the prime, applied to the hash of `text` |
| Fnv.FnvHashLoop | xcrypt.cpp:19-29 | the front-to-back loop starting from the offset basis computes the hash |
| Fnv.FnvKnownVectors | xcrypt.cpp:19-29 | the empty input hashes to 2166136261 and "hello" hashes to 0x4f9f2cab |
| Checksum.EncodeLE32 | xcrypt.cpp:36-39 | four bytes, least significant first; shifted back into place and ORed together they give the hash |
| Checksum.DecodeLE32 | xcrypt.cpp:50-54 | masking and shifting the decoded value gives back each of the four stored bytes |
| Checksum.DecodeEncodeLE32 | xcrypt.cpp:36-54 | reading the four trailer bytes back little-endian gives the hash that was written |
| Checksum.EncodeDecodeLE32 | xcrypt.cpp:36-54 | every 4-byte trailer is the little-endian encoding of the value it decodes to |
| Checksum.AddChecksum | xcrypt.cpp:33-41 | the payload comes first, unchanged; then follow `h & 0xFF`, `(h>>8) & 0xFF`, `(h>>16) & 0xFF` and `(h>>24) & 0xFF` for `h` the payload's hash; the trailer decodes to `h` |
| Checksum.CheckChecksum | xcrypt.cpp:44-57 | an input under four bytes gives `("", false)`; otherwise the text is everything before the last four bytes, whatever the verdict; the verdict is true exactly when the input equals `addChecksum` of that text |
| Checksum.CheckAddChecksum | xcrypt.cpp:33-57 | checking a framed payload returns that payload and `true`, for every payload including the empty one |
| Checksum.AddChecksumInjective | xcrypt.cpp:33-41 | two payloads frame to the same buffer only when they are equal |
| Checksum.CheckChecksumAcceptsFramed | xcrypt.cpp:44-57 | the check passes exactly for buffers that are the framing of some payload |
| XCrypt.Encrypt | xcrypt.cpp:136-139 | the ciphertext is four bytes longer than the plaintext, and XORing it with the key gives the framed plaintext, payload and trailer alike |
| XCrypt.Decrypt | xcrypt.cpp:141-144 | an input under four bytes gives `("", false)`; otherwise the text is the XOR-decrypted input without its last four bytes, whatever the verdict; the verdict is true exactly when the key is non-empty and the input is the encryption of the recovered text under that key |
| XCrypt.DecryptEncrypt | xcrypt.cpp:136-144 | decrypting an encryption with the same non-empty key returns the plaintext, verified |
| XCrypt.Run | xcrypt.cpp:105-155 | nothing is written without the right password, whatever the key; the key must suit the data only once the password has passed; `-e` always writes once the password is right; whatever `-d` writes re-encrypts to the input file under the same key |
| XCrypt.RunDecryptAfterEncrypt | xcrypt.cpp:136-150 | with the right password, `-d` applied to the output of `-e` under the same key writes the original file |
| XCrypt.VerifyPassword | xcrypt.cpp:75-78 | the gate compares the hash of the typed password with 0x4f9f2cab, and the password "hello" passes it |
| XCrypt.HelloWithKeyK | xcrypt.cpp:136-150 | "hello" under key "k" encrypts to the nine bytes 03 0e 07 07 04 c0 47 f4 24, and decryption returns "hello", verified |

## Left out

- Argument handling, mode names and messages, and `displayHelp` (xcrypt.cpp:60-69, 87-103, 151-155) are console glue. `Run` takes the mode as a two-value datatype, so the invalid-mode branch does not exist in the model.
- Reading the input and key files and writing the output file (xcrypt.cpp:116-132, 158-168) are I/O. `Run` takes the file contents as byte sequences and returns what would be written, or `None`. Failures to open a file are not modelled.
- The password prompt in `verifyPassword` (xcrypt.cpp:76-84) reads a whitespace-delimited token from standard input and prints to the console. Only the comparison `fnvHash(userPass) == 0x4f9f2cab` is modelled, as `VerifyPassword`. The token is a parameter of `Run`.
- An empty key with non-empty data is undefined behaviour in the source. It is excluded by a precondition rather than given a result.
- The decode at xcrypt.cpp:52-54 shifts an `unsigned char` that has been promoted to `int`. Shifting a byte of 0x80 or more left by 24 reaches the sign bit. The model takes the two's-complement reading that C++20 defines, in which the bits land as in an unsigned shift.
- Fnv.FnvHashAppend: states the step in `bv32` arithmetic, whose multiplication is modulo 2^32 by definition. It is not restated as an integer equation with an explicit `% 2^32`.
- Tamper detection is not modelled. FNV-1a has collisions, and the source promises nothing about detecting changes.
