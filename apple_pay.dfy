/**
 * The byte-level part of decrypting an Apple Pay payment token: the
 * constant IV and OtherInfo prefix, the OtherInfo assembly, the merchant
 * identifier taken from its certificate extension, and the composition
 * ECDH, then the concatenation KDF with SHA-256, then AES-GCM. The
 * elliptic-curve agreement and the cipher are parameters of `Decrypt`.
 */
module ApplePay {
  import opened Wrappers
  import opened Bytes
  import opened Base16
  import opened ConcatKdf
  import opened XmldapCrypto

  /** The AES-GCM IV Apple Pay uses: sixteen zero bytes. */
  const Iv: seq<byte> := seq(16, _ => 0)

  /** `String.getBytes("ASCII")`: a character's code when it is ASCII, '?' for any other. */
  function EncodeAscii(s: string): (b: seq<byte>)
    ensures |b| == |s|
    ensures forall i :: 0 <= i < |s| ==> b[i] == if s[i] as int < 128 then s[i] as int else '?' as int
  {
    seq(|s|, i requires 0 <= i < |s| => if s[i] as int < 128 then s[i] as int else '?' as int)
  }

  /** `new String(b, "ASCII")`: ASCII bytes as their characters, any other as U+FFFD. */
  function DecodeAscii(b: seq<byte>): (s: string)
    ensures |s| == |b|
    ensures forall i :: 0 <= i < |b| ==> s[i] == if b[i] < 128 then b[i] as char else '\U{FFFD}'
  {
    seq(|b|, i requires 0 <= i < |b| => if b[i] < 128 then b[i] as char else '\U{FFFD}')
  }

  /** Text that is all ASCII survives encoding and decoding. */
  lemma AsciiRoundTrip(s: string)
    requires forall i :: 0 <= i < |s| ==> s[i] as int < 128
    ensures DecodeAscii(EncodeAscii(s)) == s
  {
    var t := DecodeAscii(EncodeAscii(s));
    assert forall i :: 0 <= i < |s| ==> t[i] == s[i];
  }

  /** The prefix of the KDF's OtherInfo: 0x0D, "id-aes256-GCM", "Apple", in ASCII. */
  const KdfOtherBytesPrefix: seq<byte> := EncodeAscii([13 as char] + "id-aes256-GCM" + "Apple")

  /**
   * The prefix is 19 bytes: the length byte 0x0D for the 13-character
   * algorithm identifier, the identifier, then the party U name "Apple".
   */
  lemma KdfOtherBytesPrefixBytes()
    ensures |KdfOtherBytesPrefix| == 19
    ensures KdfOtherBytesPrefix == [0x0D,
      0x69, 0x64, 0x2D, 0x61, 0x65, 0x73, 0x32, 0x35, 0x36, 0x2D, 0x47, 0x43, 0x4D,
      0x41, 0x70, 0x70, 0x6C, 0x65]
  {
  }

  /** An array of `n` zero bytes, as `new byte[n]` makes. */
  method NewBytes(n: nat) returns (a: array<byte>)
    ensures fresh(a) && a.Length == n && a[..] == seq(n, _ => 0)
  {
    a := new byte[n](_ => 0);
  }

  /** OtherInfo for the KDF: the fixed prefix, then the merchant identifier (party V). */
  method AssembleOtherInfo(partyV: seq<byte>) returns (other: array<byte>)
    ensures fresh(other)
    ensures other[..] == KdfOtherBytesPrefix + partyV
    ensures other.Length == 19 + |partyV|
  {
    KdfOtherBytesPrefixBytes();
    var p := KdfOtherBytesPrefix;
    other := NewBytes(|p| + |partyV|);
    ghost var zeros := other[..];
    ArrayCopy(p, 0, other, 0, |p|);
    assert p[0..|p|] == p;
    ArrayCopy(partyV, 0, other, |p|, |partyV|);
    assert partyV[0..|partyV|] == partyV;
    OverwriteAppend(zeros, 0, p, partyV);
    OverwriteWhole(zeros, p + partyV);
  }

  /**
   * `hexStringToByteArray`: a loop over the string two characters at a
   * time, storing byte i / 2 at each step. An odd-length string makes
   * Java read past its end, so even length is required.
   */
  method HexStringToByteArray(s: string) returns (data: array<byte>)
    requires |s| % 2 == 0
    ensures fresh(data)
    ensures data[..] == Decode(s)
  {
    var len := |s|;
    data := NewBytes(len / 2);
    var i := 0;
    while i < len
      invariant 0 <= i <= len && i % 2 == 0
      invariant forall k :: 0 <= k < i / 2 ==> data[k] == HexPair(s[2 * k], s[2 * k + 1])
    {
      data[i / 2] := ByteOf(CharacterDigit(s[i]) * 16 + CharacterDigit(s[i + 1]));
      i := i + 2;
    }
    DecodeAt(s);
    assert data[..] == Decode(s);
  }

  /**
   * What `extractMerchantIdentifier` returns for the raw value of the
   * merchant identifier extension: the 64 bytes after the 4-byte header,
   * read as ASCII hex.
   */
  function MerchantIdentifierOf(tlv: seq<byte>): (id: seq<byte>)
    requires |tlv| == 68
    ensures |id| == 32
  {
    Decode(DecodeAscii(tlv[4..68]))
  }

  /**
   * `extractMerchantIdentifier` from the extension value on: copy bytes
   * 4 .. 67 into a 64-byte buffer, read it as ASCII and hex-decode it.
   */
  method ExtractMerchantIdentifier(tlv: seq<byte>) returns (id: array<byte>)
    requires |tlv| == 68
    ensures fresh(id)
    ensures id[..] == MerchantIdentifierOf(tlv)
  {
    var merchantIdentifier := NewBytes(64);
    ghost var zeros := merchantIdentifier[..];
    ArrayCopy(tlv, 4, merchantIdentifier, 0, 64);
    OverwriteWhole(zeros, tlv[4..68]);
    id := HexStringToByteArray(DecodeAscii(merchantIdentifier[..]));
  }

  /** The 4 header bytes of the extension value play no part in the identifier. */
  lemma MerchantIdentifierIgnoresHeader(tlv1: seq<byte>, tlv2: seq<byte>)
    requires |tlv1| == 68 && |tlv2| == 68
    requires tlv1[4..] == tlv2[4..]
    ensures MerchantIdentifierOf(tlv1) == MerchantIdentifierOf(tlv2)
  {
    assert tlv1[4..68] == tlv1[4..] && tlv2[4..68] == tlv2[4..];
  }

  /**
   * An extension value whose last 64 bytes are the hex of a 32-byte
   * identifier, in either case, yields that identifier.
   */
  lemma MerchantIdentifierOfHex(header: seq<byte>, id: seq<byte>, upper: bool)
    requires |header| == 4 && |id| == 32
    ensures |header + EncodeAscii(Encode(id, upper))| == 68
    ensures MerchantIdentifierOf(header + EncodeAscii(Encode(id, upper))) == id
  {
    var hex := Encode(id, upper);
    var tlv := header + EncodeAscii(hex);
    EncodeIsAscii(id, upper);
    AsciiRoundTrip(hex);
    assert tlv[4..68] == EncodeAscii(hex);
    DecodeEncode(id, upper);
  }

  /** Hex digits are ASCII. */
  lemma {:induction false} EncodeIsAscii(b: seq<byte>, upper: bool)
    ensures forall i :: 0 <= i < |Encode(b, upper)| ==> Encode(b, upper)[i] as int < 128
  {
    if b != [] {
      EncodeIsAscii(b[1..], upper);
      var s := Encode(b, upper);
      assert s == [HexChar(b[0] / 16, upper), HexChar(b[0] % 16, upper)] + Encode(b[1..], upper);
    }
  }

  /** The 32-byte AES key `decrypt` derives from the shared secret and the merchant identifier. */
  function AesKey(sha256: Digest, sharedSecret: seq<byte>, merchantIdentifier: seq<byte>): (key: seq<byte>)
    requires sha256.Valid()
    ensures |key| == 32
  {
    Derive(sha256, sharedSecret, KdfOtherBytesPrefix + merchantIdentifier, 32)
  }

  /**
   * With SHA-256's 32-byte output the key is one block: the digest of
   * counter 1, the shared secret and OtherInfo, untruncated.
   */
  lemma AesKeyIsFirstBlock(sha256: Digest, sharedSecret: seq<byte>, merchantIdentifier: seq<byte>)
    requires sha256.Valid() && sha256.size == 32
    ensures AesKey(sha256, sharedSecret, merchantIdentifier)
         == sha256.hash([0, 0, 0, 1] + sharedSecret + KdfOtherBytesPrefix + merchantIdentifier)
  {
    var other := KdfOtherBytesPrefix + merchantIdentifier;
    DeriveSingleBlock(sha256, sharedSecret, other, 32);
    var blk := sha256.hash([0, 0, 0, 1] + sharedSecret + other);
    TakeAll(blk);
    assert [0, 0, 0, 1] + sharedSecret + other == [0, 0, 0, 1] + sharedSecret + KdfOtherBytesPrefix + merchantIdentifier;
  }

  /**
   * `decrypt`: agree on a secret with ECDH, derive the AES key with the
   * concatenation KDF over SHA-256 and Apple's OtherInfo, and open the
   * ciphertext with AES-GCM under the zero IV. `None` from the cipher is
   * the exception it throws when the tag does not match.
   */
  method Decrypt(ciphertext: seq<byte>, merchantPrivateKey: seq<byte>, ephemeralPublicKey: seq<byte>,
                 merchantIdentifier: seq<byte>,
                 ecdh: (seq<byte>, seq<byte>) -> seq<byte>, sha256: Digest,
                 aesGcmDecrypt: (seq<byte>, seq<byte>, seq<byte>) -> Option<seq<byte>>)
    returns (plaintext: Option<seq<byte>>)
    requires sha256.Valid() && sha256.size == 32
    ensures plaintext == aesGcmDecrypt(AesKey(sha256, ecdh(merchantPrivateKey, ephemeralPublicKey), merchantIdentifier), Iv, ciphertext)
  {
    var sharedSecret := ecdh(merchantPrivateKey, ephemeralPublicKey);
    var other := AssembleOtherInfo(merchantIdentifier);
    var kdfConcatGenerator := new KdfConcatGenerator(sha256, other[..]);
    var _ := kdfConcatGenerator.Init(KdfParameters(sharedSecret, None));
    var aesKey := NewBytes(32);
    ghost var zeros := aesKey[..];
    var _ := kdfConcatGenerator.GenerateBytes(aesKey, 0, aesKey.Length);
    OverwriteWhole(zeros, AesKey(sha256, sharedSecret, merchantIdentifier));
    plaintext := aesGcmDecrypt(aesKey[..], Iv, ciphertext);
  }
}
