# Apple Pay token decryption: concatenation KDF and key-derivation glue

This project models, in Dafny, the byte-level core of an example Apple Pay
payment-token decryptor written in Java.

- **`KDFConcatGenerator`** is the single-step concatenation key-derivation
  function of NIST SP 800-56A, section 5.8.1. It is modelled as a class
  (`XmldapCrypto.KdfConcatGenerator`) with the generator's fields: the
  digest, OtherInfo, the shared secret once `Init` has stored one, and the
  first counter value. Its `GenerateBytes` method keeps the Java loop: a
  buffer check, a block count by rounded-up division, a 32-bit big-endian
  counter, whole-block copies into the caller's array, and a truncated
  last copy. The method is proved against a pure specification:
  `ConcatKdf.Derive` is the first `len` bytes of
  `H(be32(1) || Z || OtherInfo) || H(be32(2) || Z || OtherInfo) || ...`.
  The proof shows that the region `out[outOff .. outOff + len)` holds
  exactly those bytes, that every other byte of `out` keeps its value, and
  that the return value is the size of the last chunk copied.
- **The block arithmetic and the block stream** live in `BlockStream`. They
  are stated for any function from a counter to fixed-size blocks, and
  `ConcatKdf` plugs in its digest blocks. This module holds the block
  count, the block offsets, the final chunk, the stream and its prefix, and
  `Fill`, which is the block-by-block view the loop follows.
- **`Main`'s byte-level helpers** are in `Base16` and `ApplePay`:
  - the zero IV;
  - the 19-byte OtherInfo prefix `0x0D || "id-aes256-GCM" || "Apple"`;
  - the OtherInfo assembly with `System.arraycopy`;
  - `hexStringToByteArray`, a stride-2 loop proved equal to a Base16
    decoder (section 8 of RFC 4648). That decoder is proved to invert
    Base16 encoding in either case;
  - the slice and decode of the merchant identifier extension;
  - `decrypt` as a composition of ECDH, the KDF over SHA-256 and AES-GCM.
    The key it derives is proved to be exactly one SHA-256 block.

The digest is a `ConcatKdf.Digest`: a function from input bytes to output
bytes, together with its output size. `Valid()` says that every output has
that size and that the size is positive. ECDH and AES-GCM are function
parameters of `ApplePay.Decrypt`.

Section 3.3 of RFC 4648 asks decoders to reject characters outside the
alphabet; `hexStringToByteArray` does not, and the model follows the code.
A character that is not a hex digit is not reported as an error.
`Character.digit` yields -1 for it and the resulting byte is stored anyway.
`Base16.NonHexIsNotRejected` shows that "zz" decodes to the byte 0xEF.

Modules: `Wrappers` (Option, Result, Outcome), `Bytes` (the byte type, the
Java `(byte)` cast, the counter encoding, `System.arraycopy`), `BlockStream`,
`ConcatKdf`, `XmldapCrypto`, `Base16` and `ApplePay`.

## Model

| member | source | states |
|---|---|---|
| Bytes.ByteOf | src/main/java/com/johndbeatty/applepay/Main.java:155-156 | The Java `(byte)` cast keeps a value that already fits in a byte; in general the result is the byte congruent to the value modulo 256, its low eight bits. |
| Bytes.Be32 | src/main/java/org/xmldap/crypto/KDFConcatGenerator.java:129-132 | The counter is fed to the digest as four bytes, most significant first; Be32RoundTrip gives their value. |
| Bytes.Be32RoundTrip | src/main/java/org/xmldap/crypto/KDFConcatGenerator.java:129-132 | The four counter bytes fed to the digest, read back as a big-endian number, give the counter modulo 2^32. |
| Bytes.FromBe32RoundTrip | src/main/java/org/xmldap/crypto/KDFConcatGenerator.java:129-132 | Every 4-byte string is the counter encoding of the number it spells. |
| Bytes.Be32Injective | src/main/java/org/xmldap/crypto/KDFConcatGenerator.java:129-132 | Distinct counters below 2^32 are fed to the digest as distinct byte strings. |
| Bytes.Overwrite | src/main/java/org/xmldap/crypto/KDFConcatGenerator.java:140 | The array after `System.arraycopy` has the same length as before. |
| Bytes.OverwriteAt | src/main/java/org/xmldap/crypto/KDFConcatGenerator.java:140 | After the copy, each position in the copied range holds the copied byte and every other position holds its old byte. |
| Bytes.OverwriteAppend | src/main/java/com/johndbeatty/applepay/Main.java:111-112 | Two copies side by side leave the same array as one copy of the joined bytes. |
| Bytes.ArrayCopy | src/main/java/org/xmldap/crypto/KDFConcatGenerator.java:140 | `System.arraycopy` of in-bounds ranges writes exactly the source range at the destination position and leaves the rest of the destination unchanged. |
| Bytes.ArrayCopyNext | src/main/java/org/xmldap/crypto/KDFConcatGenerator.java:138-147 | Copying the next chunk of a byte string just after its first `w0` bytes leaves its first `w1` bytes in place. |
| BlockStream.Blocks | src/main/java/org/xmldap/crypto/KDFConcatGenerator.java:118 | The block count is 0 exactly when nothing is requested, and never exceeds the length requested. |
| BlockStream.BlocksIsCeiling | src/main/java/org/xmldap/crypto/KDFConcatGenerator.java:118 | The block count is the ceiling of `len / h`: that many blocks cover `len` bytes, and one block fewer does not. |
| BlockStream.BlockCountFormula | src/main/java/org/xmldap/crypto/KDFConcatGenerator.java:118 | The integer formula `(len + outLen - 1) / outLen` computes that block count. |
| BlockStream.Off | src/main/java/org/xmldap/crypto/KDFConcatGenerator.java:141 | The offset of every block after the first is at least one block size. |
| BlockStream.OffIsProduct | src/main/java/org/xmldap/crypto/KDFConcatGenerator.java:140-142 | After k whole blocks the output offset has advanced by k times the digest size. |
| BlockStream.OffMonotone | src/main/java/org/xmldap/crypto/KDFConcatGenerator.java:140-142 | Later blocks start at later offsets. |
| BlockStream.FinalChunk | src/main/java/org/xmldap/crypto/KDFConcatGenerator.java:138-154 | The value returned is 0 for an empty request and otherwise between 1 and the digest size. It equals the requested length exactly when that length is at most one digest size. |
| BlockStream.FinalChunkValue | src/main/java/org/xmldap/crypto/KDFConcatGenerator.java:142-154 | The value returned is `len - (n - 1) * outLen` for n blocks: what is left of the request when the last block is reached. |
| BlockStream.BlockBounds | src/main/java/org/xmldap/crypto/KDFConcatGenerator.java:126-147 | Each block starts inside the request. More than a block remains from its start exactly when it is not the last block, and at the last block what remains is the final chunk. |
| BlockStream.Stream | src/main/java/org/xmldap/crypto/KDFConcatGenerator.java:126-150 | n blocks together are `n * h` bytes long. |
| BlockStream.Prefix | src/main/java/org/xmldap/crypto/KDFConcatGenerator.java:126-150 | The prefix of the stream for a request of `len` bytes is `len` bytes long. |
| BlockStream.StreamBlock | src/main/java/org/xmldap/crypto/KDFConcatGenerator.java:126-150 | Block k + 1 sits at offset `k * h` of the stream. |
| BlockStream.StreamPrefix | src/main/java/org/xmldap/crypto/KDFConcatGenerator.java:126-150 | A stream of fewer blocks is a prefix of a stream of more blocks. |
| BlockStream.PrefixPrefix | src/main/java/org/xmldap/crypto/KDFConcatGenerator.java:118-147 | The bytes produced for a shorter request are a prefix of those produced for a longer one. |
| BlockStream.StreamChunk | src/main/java/org/xmldap/crypto/KDFConcatGenerator.java:138-147 | In a stream cut to `len` bytes, the k bytes at the start of a block are the first k bytes of that block. |
| BlockStream.PrefixChunk | src/main/java/org/xmldap/crypto/KDFConcatGenerator.java:138-147 | Within the request, the chunk starting at block i + 1 is the first part of block i + 1. That part is the whole block, or the truncated last one. |
| BlockStream.Fill | src/main/java/org/xmldap/crypto/KDFConcatGenerator.java:126-150 | Producing block by block from a counter for `rem` bytes yields exactly `rem` bytes. |
| BlockStream.FillFirst | src/main/java/org/xmldap/crypto/KDFConcatGenerator.java:138-143 | With at least a block remaining, the output is that whole block followed by the output from the next counter. |
| BlockStream.FillDrop | src/main/java/org/xmldap/crypto/KDFConcatGenerator.java:140-149 | After k whole blocks, the rest of the output is what the loop produces from counter c + k for the remaining length. |
| BlockStream.FillAt | src/main/java/org/xmldap/crypto/KDFConcatGenerator.java:138-147 | At iteration k the bytes copied are a whole block, or the remaining length, of the block for counter k + 1. They land at offset `k * h`. |
| BlockStream.PrefixIsFill | src/main/java/org/xmldap/crypto/KDFConcatGenerator.java:126-150 | The loop's block-by-block output equals the prefix of the block stream. |
| BlockStream.PrefixSuffixIsFill | src/main/java/org/xmldap/crypto/KDFConcatGenerator.java:126-150 | From block k + 1 on, the prefix of the stream is what the loop produces from counter k + 1. |
| BlockStream.PrefixFillStep | src/main/java/org/xmldap/crypto/KDFConcatGenerator.java:138-143 | A whole-block iteration extends the loop's output by one block. |
| BlockStream.PrefixFillLast | src/main/java/org/xmldap/crypto/KDFConcatGenerator.java:144-147 | The last iteration copies the start of its block, up to the end of the request. |
| ConcatKdf.Block | src/main/java/org/xmldap/crypto/KDFConcatGenerator.java:128-136 | Block i is the digest of counter i, then Z, then OtherInfo; with a valid digest it is the digest's size long. |
| ConcatKdf.KdfBlocks | src/main/java/org/xmldap/crypto/KDFConcatGenerator.java:129-136 | Every digest block is the digest's size long. |
| ConcatKdf.Derive | src/main/java/org/xmldap/crypto/KDFConcatGenerator.java:126-150 | The KDF's output for `len` bytes is `len` bytes long. |
| ConcatKdf.DerivePrefix | src/main/java/org/xmldap/crypto/KDFConcatGenerator.java:118-147 | For the same shared secret and OtherInfo, the output for a shorter length is a prefix of the output for a longer one. |
| ConcatKdf.DeriveBlock | src/main/java/org/xmldap/crypto/KDFConcatGenerator.java:128-136 | Within the request, block i of the output is `H(be32(i) \|\| Z \|\| OtherInfo)`: counter first, then the shared secret, then OtherInfo. |
| ConcatKdf.DeriveSingleBlock | src/main/java/org/xmldap/crypto/KDFConcatGenerator.java:118-126 | A request of at most one digest size makes one hash with counter 00 00 00 01, and an empty request makes none. The output is the first `len` bytes of that hash. |
| ConcatKdf.SecondBlockCounter | src/main/java/org/xmldap/crypto/KDFConcatGenerator.java:124-149 | The second block of a two-block request is hashed with counter bytes 00 00 00 02. |
| ConcatKdf.DeriveIsFill | src/main/java/org/xmldap/crypto/KDFConcatGenerator.java:126-150 | What the loop writes block by block is exactly the KDF's output. |
| XmldapCrypto.CeilingBlocks | src/main/java/org/xmldap/crypto/KDFConcatGenerator.java:118 | The rounded-up division the generator computes is the number of blocks the request needs. |
| XmldapCrypto.CopyBlock | src/main/java/org/xmldap/crypto/KDFConcatGenerator.java:128-149 | One iteration hashes the counter, Z and OtherInfo. Before the last block it copies a whole block and advances the offset and the remaining length by one block. At the last block it copies the final chunk, and the whole output is then in place. |
| XmldapCrypto.KdfConcatGenerator.constructor | src/main/java/org/xmldap/crypto/KDFConcatGenerator.java:57-61 | The constructor keeps the digest and OtherInfo, leaves the shared secret unset, and the counter starts at 1. |
| XmldapCrypto.KdfConcatGenerator.Init | src/main/java/org/xmldap/crypto/KDFConcatGenerator.java:63-76 | Given `KDFParameters`, `init` stores the shared secret. Given anything else, it fails with IllegalArgument and changes nothing. Either way the generator's invariant (counter start 1, valid digest) still holds. |
| XmldapCrypto.KdfConcatGenerator.GenerateBytes | src/main/java/org/xmldap/crypto/KDFConcatGenerator.java:93-155 | The call fails with DataLength exactly when `outOff + len` exceeds the array, and then writes nothing. Otherwise `out[outOff .. outOff + len)` holds the first `len` bytes of the block stream and the rest of `out` is unchanged. The return value is the final chunk size, and the generator's fields are not modified. A successful call with `len` 0 writes nothing and returns 0, even before `init`. |
| Base16.CharacterDigit | src/main/java/com/johndbeatty/applepay/Main.java:155-156 | `Character.digit(c, 16)` is -1 or a value below 16, and it is non-negative exactly for hex digits. |
| Base16.HexPair | src/main/java/com/johndbeatty/applepay/Main.java:155-156 | For two hex digits, `(digit(hi) << 4) + digit(lo)` is the value of the two-digit hex number. |
| Base16.Decode | src/main/java/com/johndbeatty/applepay/Main.java:151-159 | An even-length string decodes to half as many bytes. |
| Base16.DecodeAt | src/main/java/com/johndbeatty/applepay/Main.java:154-157 | Byte k of the result comes from characters 2k and 2k + 1. |
| Base16.HexChar | src/main/java/com/johndbeatty/applepay/Main.java:155-156 | The hex digit chosen for a value below 16 is a hex digit whose `Character.digit` is that value. |
| Base16.Encode | src/main/java/com/johndbeatty/applepay/Main.java:151-159 | Base16 encoding, the inverse the decoder is measured against, writes two characters per byte. |
| Base16.DecodeEncode | src/main/java/com/johndbeatty/applepay/Main.java:151-159 | Decoding the hex of any byte sequence, in either case, returns that sequence. |
| Base16.EncodeDecode | src/main/java/com/johndbeatty/applepay/Main.java:151-159 | For an even-length string of hex digits of one case, encoding the decoded bytes in that case gives the string back. |
| Base16.NonHexIsNotRejected | src/main/java/com/johndbeatty/applepay/Main.java:155-156 | A non-hex character is not refused: "zz" decodes to the byte 0xEF. |
| ApplePay.EncodeAscii | src/main/java/com/johndbeatty/applepay/Main.java:59 | `getBytes("ASCII")` gives one byte per character: the code of an ASCII character, and '?' for any other. |
| ApplePay.DecodeAscii | src/main/java/com/johndbeatty/applepay/Main.java:143 | `new String(b, "ASCII")` gives one character per byte: the ASCII character, or U+FFFD for a byte of 128 or more. |
| ApplePay.AsciiRoundTrip | src/main/java/com/johndbeatty/applepay/Main.java:143 | ASCII text survives encoding to bytes and decoding back. |
| ApplePay.KdfOtherBytesPrefixBytes | src/main/java/com/johndbeatty/applepay/Main.java:59 | The OtherInfo prefix is exactly the 19 bytes 0x0D, ASCII "id-aes256-GCM", ASCII "Apple". |
| ApplePay.NewBytes | src/main/java/com/johndbeatty/applepay/Main.java:110 | A new byte array of length n holds n zero bytes. |
| ApplePay.AssembleOtherInfo | src/main/java/com/johndbeatty/applepay/Main.java:109-112 | `other` is a new array holding the prefix followed by the merchant identifier: `19 + \|partyV\|` bytes. |
| ApplePay.HexStringToByteArray | src/main/java/com/johndbeatty/applepay/Main.java:151-159 | The stride-2 loop fills a new array with exactly the Base16 decoding of the string. |
| ApplePay.MerchantIdentifierOf | src/main/java/com/johndbeatty/applepay/Main.java:138-144 | The identifier taken from a 68-byte extension value is 32 bytes. |
| ApplePay.ExtractMerchantIdentifier | src/main/java/com/johndbeatty/applepay/Main.java:138-144 | The method copies bytes 4 .. 67 of the extension value into a 64-byte buffer, reads them as ASCII and hex-decodes them into a new array. |
| ApplePay.MerchantIdentifierIgnoresHeader | src/main/java/com/johndbeatty/applepay/Main.java:141-142 | Bytes 0 .. 3 of the extension value do not affect the identifier. |
| ApplePay.MerchantIdentifierOfHex | src/main/java/com/johndbeatty/applepay/Main.java:140-143 | A 4-byte header followed by the hex of a 32-byte identifier, in either case, yields that identifier. |
| ApplePay.AesKey | src/main/java/com/johndbeatty/applepay/Main.java:114-118 | The AES key is 32 bytes. |
| ApplePay.AesKeyIsFirstBlock | src/main/java/com/johndbeatty/applepay/Main.java:114-118 | With SHA-256's 32-byte output, the key is exactly `SHA-256(00 00 00 01 \|\| sharedSecret \|\| prefix \|\| merchantIdentifier)`. |
| ApplePay.Decrypt | src/main/java/com/johndbeatty/applepay/Main.java:101-124 | The plaintext is AES-GCM decryption of the ciphertext under the zero IV. The key is the one derived from the ECDH secret and the merchant identifier. |

## Left out

- `main`, `loadPrivateKey` and `readDerEncodedX509Certificate` are left out. They are file and key-store I/O, JSON, Base64 and PEM parsing, and printing.
- `X509Certificate.getExtensionValue` is a library call. Extraction starts from the raw extension bytes.
- ECDH key agreement and AES-GCM decryption are library cryptography. They are function parameters of `Decrypt` and are not modelled. GCM tag checking appears only as the cipher's `None` result.
- SHA-256 internals are not modelled. The digest's running state and `reset` are invisible, so a digest left holding earlier input is not modelled.
- Apple's signature over the token is not verified by the code, and it is not modelled either.
- `getDigest` is left out: it is a one-line accessor.
- The guard that throws IllegalArgumentException for lengths above 2^33 - 1 is not modelled. An `int` length can never exceed that bound, so the guard is dead code.
- The generator keeps references to the caller's `shared` and `otherInfo` arrays. The model keeps copies of their contents, so two cases are not modelled: a caller that changes those arrays later, and an `out` array that is the same Java array as `shared` or `otherInfo`, where the copy at line 140 changes what lines 133-134 hash for the next block. `decrypt` cannot reach the second case, since its key buffer is a new array.
- XmldapCrypto.KdfConcatGenerator.GenerateBytes: a null shared secret inside `KDFParameters`, and a null `otherInfo` given to the constructor, are not modelled; the model's byte sequences cannot be null. In Java either one throws a NullPointerException at lines 133-134, which run only when at least one block is hashed: `len > 0` and the region fits.
- XmldapCrypto.KdfConcatGenerator.GenerateBytes: requires the shared secret to be set whenever a block is hashed, that is unless `len` is 0 or the region does not fit. A call before `init` that hashes a block throws a NullPointerException in Java and is not modelled. Before `init`, a call with `len` 0 returns 0 and a call with too small a buffer fails with DataLength, and the model states both.
- XmldapCrypto.KdfConcatGenerator.GenerateBytes: requires non-negative `outOff` and `len` no larger than `Integer.MAX_VALUE`. Negative values give meaningless Java results and are not modelled.
- ApplePay.HexStringToByteArray: characters outside the Basic Multilingual Plane and lone surrogates are not modelled. Java counts a string in UTF-16 code units, so a character above U+FFFF counts as two there and one here; the only caller in the model passes ASCII text.
- ApplePay.HexStringToByteArray: requires even length. On an odd-length string Java reads past the end and throws StringIndexOutOfBoundsException.
- ApplePay.ExtractMerchantIdentifier: requires a 68-byte extension value, which is what the Java `assert` checks. With assertions disabled, Java accepts longer values and throws on shorter ones; neither case is modelled.
- Base16.CharacterDigit: covers ASCII only. `Character.digit` also accepts other Unicode digits and the full-width Latin letters; those are treated as non-digits here.
- ApplePay.Decrypt: the exceptions of the key agreement, of the provider lookup and of the cipher set-up are not modelled.
- ApplePay.Iv is a constant, not a member with a contract. It is the IV that `Decrypt` passes to AES-GCM (Main.java line 52).
