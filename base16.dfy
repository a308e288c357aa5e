/**
 * Hexadecimal text and bytes (Base16, section 8 of RFC 4648), decoded the
 * way `hexStringToByteArray` decodes: two characters per byte, the value
 * of each from `Character.digit(c, 16)`, combined as `(hi << 4) + lo` and
 * narrowed to a byte. A character that is not a hex digit is not refused:
 * its digit is -1 and the byte is whatever the arithmetic gives.
 */
module Base16 {
  import opened Bytes

  /** The characters `Character.digit(c, 16)` gives a value to, restricted to ASCII. */
  predicate IsHexDigit(c: char) {
    ('0' <= c <= '9') || ('a' <= c <= 'f') || ('A' <= c <= 'F')
  }

  /** `Character.digit(c, 16)` on ASCII: the digit's value, or -1 for any other character. */
  function CharacterDigit(c: char): (d: int)
    ensures -1 <= d < 16
    ensures d >= 0 <==> IsHexDigit(c)
  {
    if '0' <= c <= '9' then c as int - '0' as int
    else if 'a' <= c <= 'f' then c as int - 'a' as int + 10
    else if 'A' <= c <= 'F' then c as int - 'A' as int + 10
    else -1
  }

  /**
   * The byte `(byte) ((Character.digit(hi, 16) << 4) + Character.digit(lo, 16))`.
   * For two hex digits it is their value as a two-digit hex number.
   */
  function HexPair(hi: char, lo: char): (b: byte)
    ensures IsHexDigit(hi) && IsHexDigit(lo) ==> b == CharacterDigit(hi) * 16 + CharacterDigit(lo)
  {
    ByteOf(CharacterDigit(hi) * 16 + CharacterDigit(lo))
  }

  /** The bytes of an even-length string, a pair of characters at a time from the front. */
  function Decode(s: string): (r: seq<byte>)
    requires |s| % 2 == 0
    ensures |r| == |s| / 2
    decreases |s|
  {
    if s == [] then [] else [HexPair(s[0], s[1])] + Decode(s[2..])
  }

  /** Byte k of the decoding comes from characters 2k and 2k + 1. */
  lemma {:induction false} DecodeAt(s: string)
    requires |s| % 2 == 0
    ensures forall k :: 0 <= k < |s| / 2 ==> Decode(s)[k] == HexPair(s[2 * k], s[2 * k + 1])
    decreases |s|
  {
    if s != [] {
      var t := s[2..];
      DecodeAt(t);
      forall k | 1 <= k < |s| / 2
        ensures Decode(s)[k] == HexPair(s[2 * k], s[2 * k + 1])
      {
        assert Decode(s)[k] == Decode(t)[k - 1];
        assert t[2 * (k - 1)] == s[2 * k] && t[2 * (k - 1) + 1] == s[2 * k + 1];
      }
    }
  }

  /** The hex digit for a value below 16, in lower or upper case. */
  function HexChar(v: int, upper: bool): (c: char)
    requires 0 <= v < 16
    ensures IsHexDigit(c) && CharacterDigit(c) == v
  {
    if v < 10 then ('0' as int + v) as char
    else if upper then ('A' as int + v - 10) as char
    else ('a' as int + v - 10) as char
  }

  /** A hex digit of the given case: a decimal digit, or a letter of that case. */
  predicate IsHexDigitOfCase(c: char, upper: bool) {
    ('0' <= c <= '9') || (upper && 'A' <= c <= 'F') || (!upper && 'a' <= c <= 'f')
  }

  /** Base16 encoding: two hex digits per byte, high half first, in the case asked for. */
  function Encode(b: seq<byte>, upper: bool): (s: string)
    ensures |s| == 2 * |b|
  {
    if b == [] then [] else [HexChar(b[0] / 16, upper), HexChar(b[0] % 16, upper)] + Encode(b[1..], upper)
  }

  /** Decoding the hex of any bytes, in either case, gives the bytes back. */
  lemma {:induction false} DecodeEncode(b: seq<byte>, upper: bool)
    ensures Decode(Encode(b, upper)) == b
  {
    if b != [] {
      var s := Encode(b, upper);
      assert s[2..] == Encode(b[1..], upper);
      DecodeEncode(b[1..], upper);
      assert HexPair(s[0], s[1]) == b[0];
      assert b == [b[0]] + b[1..];
    }
  }

  /** The digit of a hex character of either case gives the character back in its own case. */
  lemma HexCharOfDigit(c: char, upper: bool)
    requires IsHexDigitOfCase(c, upper)
    ensures HexChar(CharacterDigit(c), upper) == c
  {
  }

  /**
   * Encoding what a string of hex digits of one case decodes to gives that
   * string back: on such strings decoding loses nothing.
   */
  lemma {:induction false} EncodeDecode(s: string, upper: bool)
    requires |s| % 2 == 0
    requires forall i :: 0 <= i < |s| ==> IsHexDigitOfCase(s[i], upper)
    ensures Encode(Decode(s), upper) == s
    decreases |s|
  {
    if s != [] {
      var t := s[2..];
      EncodeDecode(t, upper);
      var hi, lo := CharacterDigit(s[0]), CharacterDigit(s[1]);
      var v := HexPair(s[0], s[1]);
      assert v == hi * 16 + lo;
      assert v / 16 == hi && v % 16 == lo;
      HexCharOfDigit(s[0], upper);
      HexCharOfDigit(s[1], upper);
      assert Decode(s) == [v] + Decode(t);
      assert s == [s[0], s[1]] + t;
    }
  }

  /**
   * Characters outside the hex alphabet decode without complaint: "zz"
   * gives (-1 << 4) + -1 = -17, stored as the byte 0xEF.
   */
  lemma NonHexIsNotRejected()
    ensures !IsHexDigit('z') && Decode("zz") == [0xEF]
  {
    assert HexPair('z', 'z') == 0xEF;
    assert "zz"[2..] == [];
  }
}
