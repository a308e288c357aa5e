/**
 * Bytes as the Java code sees them: the bit pattern of a `byte`, the
 * big-endian counter encoding fed to the digest, and the effect of
 * `System.arraycopy` on a destination array.
 */
module Bytes {

  /** The bit pattern of a Java `byte`, read as an unsigned value. */
  type byte = b: int | 0 <= b < 256

  /** `Integer.MAX_VALUE`: the largest length or offset a Java `int` holds. */
  const MaxInt: int := 0x7fff_ffff

  const TwoTo32: int := 0x1_0000_0000

  /** The Java narrowing cast `(byte) v`: keep the low eight bits. */
  function ByteOf(v: int): (b: byte)
    ensures 0 <= v < 256 ==> b == v
    ensures (v - b) % 256 == 0
  {
    v % 256
  }

  /**
   * The four bytes `(byte)(c >> 24)`, `(byte)(c >> 16)`, `(byte)(c >> 8)`,
   * `(byte)c` of a Java `int` counter. `>>` is an arithmetic shift, which is
   * floor division by a power of two, and that is what `/` does here for a
   * positive divisor.
   */
  function Be32(c: int): (r: seq<byte>)
    ensures |r| == 4
  {
    [ByteOf(c / 0x100_0000), ByteOf(c / 0x1_0000), ByteOf(c / 0x100), ByteOf(c)]
  }

  /** Reads four bytes back as an unsigned big-endian 32-bit number. */
  function FromBe32(b: seq<byte>): (c: int)
    requires |b| == 4
    ensures 0 <= c < TwoTo32
  {
    (b[0] as int) * 0x100_0000 + (b[1] as int) * 0x1_0000 + (b[2] as int) * 0x100 + b[3] as int
  }

  /** Be32 keeps exactly the low 32 bits of the counter. */
  lemma Be32RoundTrip(c: int)
    ensures FromBe32(Be32(c)) == c % TwoTo32
  {
    var q1 := c / 0x100;
    var q2 := q1 / 0x100;
    var q3 := q2 / 0x100;
    assert q2 == c / 0x1_0000 && q3 == c / 0x100_0000;
    var r0, r1, r2, r3 := c % 0x100, q1 % 0x100, q2 % 0x100, q3 % 0x100;
    assert Be32(c) == [r3 as byte, r2 as byte, r1 as byte, r0 as byte];
    var low := r3 * 0x100_0000 + r2 * 0x1_0000 + r1 * 0x100 + r0;
    assert c == (q3 / 0x100) * TwoTo32 + low;
    ModUnique(c, q3 / 0x100, low);
  }

  /** Euclidean remainder by 2^32 is determined by its quotient-remainder equation. */
  lemma ModUnique(c: int, q: int, r: int)
    requires 0 <= r < TwoTo32 && c == q * TwoTo32 + r
    ensures c % TwoTo32 == r
  {
    var q', r' := c / TwoTo32, c % TwoTo32;
    assert (q - q') * TwoTo32 == r' - r;
    if q != q' {
      assert false;
    }
  }

  lemma FromBe32RoundTrip(b: seq<byte>)
    requires |b| == 4
    ensures Be32(FromBe32(b)) == b
  {
    var c := FromBe32(b);
    assert c / 0x100 == (b[0] as int) * 0x1_0000 + (b[1] as int) * 0x100 + b[2] as int;
    assert c / 0x1_0000 == (b[0] as int) * 0x100 + b[1] as int;
    assert c / 0x100_0000 == b[0];
  }

  /** Distinct counters below 2^32 give distinct encodings. */
  lemma Be32Injective(c1: int, c2: int)
    requires 0 <= c1 < TwoTo32 && 0 <= c2 < TwoTo32
    requires Be32(c1) == Be32(c2)
    ensures c1 == c2
  {
    Be32RoundTrip(c1);
    Be32RoundTrip(c2);
    assert FromBe32(Be32(c1)) == FromBe32(Be32(c2));
    ModUnique(c1, 0, c1);
    ModUnique(c2, 0, c2);
  }

  /*
   * Small facts about slices of sequences, each stated so that a proof can
   * name exactly the slices it needs.
   */

  lemma TakeAll<T>(s: seq<T>)
    ensures s[..|s|] == s
  {
  }

  lemma TakeTake<T>(s: seq<T>, m: nat, n: nat)
    requires n <= m <= |s|
    ensures s[..m][..n] == s[..n]
  {
  }

  lemma TakeSlice<T>(s: seq<T>, m: nat, lo: nat, hi: nat)
    requires lo <= hi <= m <= |s|
    ensures s[..m][lo..hi] == s[lo..hi]
  {
  }

  /** If s holds b at lo, the first k bytes there survive a cut of s at m >= lo + k. */
  lemma TakeOfBlock<T>(s: seq<T>, m: nat, lo: nat, h: nat, k: nat, b: seq<T>)
    requires k <= h && lo + k <= m <= |s| && lo + h <= |s| && s[lo..lo + h] == b
    ensures s[..m][lo..lo + k] == b[..k]
  {
    TakeSlice(s, m, lo, lo + k);
    SliceTake(s, lo, lo + h, k);
  }

  lemma SliceTake<T>(s: seq<T>, lo: nat, hi: nat, k: nat)
    requires lo + k <= hi <= |s|
    ensures s[lo..hi][..k] == s[lo..lo + k]
  {
  }

  lemma DropTake<T>(s: seq<T>, a: nat, b: nat)
    requires a + b <= |s|
    ensures s[a..][..b] == s[a..a + b]
  {
  }

  lemma SplitDrop<T>(s: seq<T>, a: nat, b: nat)
    requires a <= b <= |s|
    ensures s[a..] == s[a..b] + s[b..]
  {
  }

  lemma TakeOfAppendLeft<T>(a: seq<T>, b: seq<T>, n: nat)
    requires n <= |a|
    ensures (a + b)[..n] == a[..n]
  {
  }

  lemma SliceOfAppendLeft<T>(a: seq<T>, b: seq<T>, lo: nat, hi: nat)
    requires lo <= hi <= |a|
    ensures (a + b)[lo..hi] == a[lo..hi]
  {
  }

  lemma SliceOfAppendRight<T>(a: seq<T>, b: seq<T>, lo: nat, hi: nat)
    requires lo == |a| && hi == |a| + |b|
    ensures (a + b)[lo..hi] == b
  {
  }

  /** A suffix split at hi: the slice up to hi, then the rest. */
  lemma DropSplit<T>(s: seq<T>, lo: nat, hi: nat, a: seq<T>, b: seq<T>)
    requires lo <= hi <= |s| && s[lo..hi] == a && s[hi..] == b
    ensures s[lo..] == a + b
  {
    assert s[lo..] == s[lo..hi] + s[hi..];
  }

  lemma AppendDrop<T>(a: seq<T>, b: seq<T>, x: nat, y: nat)
    requires x <= |b| && y == |a| + x
    ensures (a + b)[y..] == b[x..]
  {
  }

  /**
   * The contents of an array after `System.arraycopy` of `src` into it at
   * `pos`: `src` in place of the bytes at `pos ..`, the rest as before.
   */
  function Overwrite(s: seq<byte>, pos: nat, src: seq<byte>): (r: seq<byte>)
    requires pos + |src| <= |s|
    ensures |r| == |s|
  {
    s[..pos] + src + s[pos + |src|..]
  }

  /** After the copy, a position holds the byte of `src` copied there, or its old byte. */
  lemma OverwriteAt(s: seq<byte>, pos: nat, src: seq<byte>)
    requires pos + |src| <= |s|
    ensures forall j :: 0 <= j < |s| ==>
      Overwrite(s, pos, src)[j] == if pos <= j < pos + |src| then src[j - pos] else s[j]
  {
  }

  /** Two copies side by side are one copy of the joined bytes. */
  lemma OverwriteAppend(s: seq<byte>, pos: nat, a: seq<byte>, b: seq<byte>)
    requires pos + |a| + |b| <= |s|
    ensures Overwrite(Overwrite(s, pos, a), pos + |a|, b) == Overwrite(s, pos, a + b)
  {
    var mid := Overwrite(s, pos, a);
    var lhs := Overwrite(mid, pos + |a|, b);
    var rhs := Overwrite(s, pos, a + b);
    OverwriteAt(s, pos, a);
    OverwriteAt(mid, pos + |a|, b);
    OverwriteAt(s, pos, a + b);
    assert forall j :: 0 <= j < |s| ==> lhs[j] == rhs[j];
  }

  /** Copying r[w0 .. w1) right after a copy of r[.. w0) leaves a copy of r[.. w1). */
  lemma OverwriteExtend(s: seq<byte>, before: seq<byte>, after: seq<byte>, pos: nat,
                        r: seq<byte>, w0: nat, w1: nat, chunk: seq<byte>)
    requires w0 <= w1 <= |r| && pos + w1 <= |s|
    requires before == Overwrite(s, pos, r[..w0])
    requires chunk == r[w0..w1] && after == Overwrite(before, pos + w0, chunk)
    ensures after == Overwrite(s, pos, r[..w1])
  {
    assert r[..w0] + r[w0..w1] == r[..w1];
    OverwriteAppend(s, pos, r[..w0], r[w0..w1]);
  }

  /** A copy over the whole array leaves exactly the copied bytes. */
  lemma OverwriteWhole(s: seq<byte>, src: seq<byte>)
    requires |src| == |s|
    ensures Overwrite(s, 0, src) == src
  {
    assert s[..0] == [] && s[|src|..] == [];
  }

  lemma OverwriteEmpty(s: seq<byte>, pos: nat)
    requires pos <= |s|
    ensures Overwrite(s, pos, []) == s
  {
    OverwriteAt(s, pos, []);
    assert forall j :: 0 <= j < |s| ==> Overwrite(s, pos, [])[j] == s[j];
  }

  /**
   * `System.arraycopy(src, srcPos, dest, destPos, length)` for the in-bounds
   * calls this code makes. `src` is taken as a snapshot, which is the
   * semantics Java gives even when source and destination are one array.
   */
  method ArrayCopy(src: seq<byte>, srcPos: nat, dest: array<byte>, destPos: nat, length: nat)
    requires srcPos + length <= |src| && destPos + length <= dest.Length
    modifies dest
    ensures dest[..] == Overwrite(old(dest[..]), destPos, src[srcPos..srcPos + length])
  {
    var k := 0;
    while k < length
      invariant 0 <= k <= length
      invariant forall j :: 0 <= j < dest.Length ==>
        dest[j] == if destPos <= j < destPos + k then src[srcPos + j - destPos] else old(dest[j])
    {
      dest[destPos + k] := src[srcPos + k];
      k := k + 1;
    }
    OverwriteAt(old(dest[..]), destPos, src[srcPos..srcPos + length]);
    assert dest[..] == Overwrite(old(dest[..]), destPos, src[srcPos..srcPos + length]);
  }

  /**
   * `ArrayCopy` of `src[0..length]` to `dest[destPos..]`, seen as the next
   * step of writing `r` to `dest` from `pos` on: if `dest` held `r[..w0]` there
   * and the copied bytes are the next ones of `r`, it now holds `r[..w1]`.
   */
  method ArrayCopyNext(src: seq<byte>, dest: array<byte>, destPos: nat, length: nat,
                       ghost s: seq<byte>, ghost pos: nat, ghost r: seq<byte>, ghost w0: nat, ghost w1: nat)
    requires destPos == pos + w0 && w1 == w0 + length && w1 <= |r| && pos + w1 <= |s| == dest.Length
    requires length <= |src| && src[..length] == r[w0..w0 + length]
    requires dest[..] == Overwrite(s, pos, r[..w0])
    modifies dest
    ensures dest[..] == Overwrite(s, pos, r[..w1])
  {
    ArrayCopy(src, 0, dest, destPos, length);
    assert src[0..length] == src[..length];
    OverwriteExtend(s, old(dest[..]), dest[..], pos, r, w0, w0 + length, src[0..length]);
  }
}
