/**
 * The block arithmetic of a counter-mode key derivation and the stream of
 * fixed-size blocks it cuts its output from: how many blocks a request
 * needs, where each block starts, how long the last piece is, and the
 * block-by-block way of writing the first `len` bytes of the stream. The
 * blocks are any function from a counter to `h` bytes; the concatenation
 * KDF supplies its digest blocks.
 */
module BlockStream {
  import opened Bytes

  /**
   * The number of blocks needed for a request of `len` bytes: one
   * more for every further `h` bytes still to produce.
   */
  function Blocks(len: nat, h: nat): (n: nat)
    requires h > 0
    ensures n == 0 <==> len == 0
    ensures n <= len
    decreases len
  {
    if len == 0 then 0 else if len <= h then 1 else 1 + Blocks(len - h, h)
  }

  /** Where block k + 1 starts in the stream: the total size of the k blocks before it. */
  function Off(k: nat, h: nat): (r: nat)
    ensures k > 0 ==> r >= h
  {
    if k == 0 then 0 else Off(k - 1, h) + h
  }

  /** The offset of block k + 1 is k times the block size. */
  lemma {:induction false} OffIsProduct(k: nat, h: nat)
    ensures Off(k, h) == k * h
  {
    if k > 0 {
      OffIsProduct(k - 1, h);
      MulSucc(k - 1, h);
    }
  }

  /** The offsets can also be summed from the front. */
  lemma {:induction false} OffShift(k: nat, h: nat)
    requires k > 0
    ensures Off(k, h) == h + Off(k - 1, h)
  {
    if k > 1 {
      OffShift(k - 1, h);
    }
  }

  /** Later blocks start later. */
  lemma {:induction false} OffMonotone(a: nat, b: nat, h: nat)
    requires a <= b
    ensures Off(a, h) <= Off(b, h)
    decreases b
  {
    if a < b {
      OffMonotone(a, b - 1, h);
    }
  }

  /**
   * The block count is the ceiling of len / h: that many blocks cover `len`
   * bytes, and one block fewer does not.
   */
  lemma {:induction false} BlocksIsCeiling(len: nat, h: nat)
    requires h > 0
    ensures len <= Off(Blocks(len, h), h)
    ensures Blocks(len, h) == 0 || Off(Blocks(len, h) - 1, h) < len
    decreases len
  {
    if len > h {
      var b := Blocks(len - h, h);
      BlocksIsCeiling(len - h, h);
      OffShift(b + 1, h);
      OffShift(b, h);
    }
  }

  /** The integer formula `(len + h - 1) / h` the generator uses computes the block count. */
  lemma {:induction false} BlockCountFormula(len: nat, h: nat)
    requires h > 0
    ensures (len + h - 1) / h == Blocks(len, h)
    decreases len
  {
    if len > h {
      BlockCountFormula(len - h, h);
      DivShift(len - 1, h);
    } else if len > 0 {
      assert h <= len + h - 1 < 2 * h;
    }
  }

  lemma DivShift(x: nat, h: nat)
    requires h > 0
    ensures (x + h) / h == x / h + 1
  {
    var q, r := x / h, x % h;
    assert x == q * h + r;
    MulSucc(q, h);
    DivUnique(x + h, h, q + 1, r);
  }

  /** Euclidean division is determined by its quotient-remainder equation. */
  lemma DivUnique(a: nat, h: nat, q: int, r: int)
    requires h > 0 && 0 <= r < h && a == q * h + r
    ensures a / h == q
  {
    var q', r' := a / h, a % h;
    assert a == q' * h + r';
    assert (q' - q) * h == r - r' by { MulSub(q', q, h); }
    if q' > q {
      MulAtLeast(q' - q, h);
    } else if q' < q {
      MulAtLeast(q - q', h);
      MulSub(q, q', h);
    }
  }

  lemma MulSub(a: int, b: int, h: int)
    ensures (a - b) * h == a * h - b * h
  {
  }

  lemma MulAtLeast(q: nat, h: nat)
    requires q >= 1
    ensures q * h >= h
  {
    MulMonotone(1, q, h);
  }

  lemma MulMonotone(a: nat, b: nat, h: nat)
    requires a <= b
    ensures a * h <= b * h
  {
    assert b * h == a * h + (b - a) * h;
  }

  lemma MulSucc(a: int, h: int)
    ensures (a + 1) * h == a * h + h
  {
  }

  /**
   * The value `generateBytes` returns: what is left of the request when the
   * last block is reached, which is the size of the last chunk copied.
   */
  function FinalChunk(len: nat, h: nat): (r: nat)
    requires h > 0
    ensures len == 0 ==> r == 0
    ensures len > 0 ==> 0 < r <= h
    ensures r == len <==> len <= h
    decreases len
  {
    if len <= h then len else FinalChunk(len - h, h)
  }

  /** The last chunk is what remains after the n - 1 whole blocks. */
  lemma {:induction false} FinalChunkValue(len: nat, h: nat)
    requires h > 0
    ensures len > 0 ==> FinalChunk(len, h) == len - Off(Blocks(len, h) - 1, h)
    decreases len
  {
    if len > h {
      FinalChunkValue(len - h, h);
      OffShift(Blocks(len - h, h), h);
    }
  }


  /** A source of blocks: every counter gives exactly `h` bytes, and `h` is positive. */
  ghost predicate FixedSize(blk: int -> seq<byte>, h: nat) {
    h > 0 && forall i :: |blk(i)| == h
  }

  /** blk(1) || blk(2) || ... || blk(n). */
  function Stream(blk: int -> seq<byte>, h: nat, n: nat): (r: seq<byte>)
    requires FixedSize(blk, h)
    ensures |r| == Off(n, h)
  {
    if n == 0 then [] else Stream(blk, h, n - 1) + blk(n)
  }

  /** The first `len` bytes of the stream of as many blocks as they need. */
  function Prefix(blk: int -> seq<byte>, h: nat, len: nat): (r: seq<byte>)
    requires FixedSize(blk, h)
    ensures |r| == len
  {
    BlocksIsCeiling(len, h);
    Stream(blk, h, Blocks(len, h))[..len]
  }

  /** Block k + 1 of the stream sits at offset Off(k). */
  lemma {:induction false} StreamBlock(blk: int -> seq<byte>, h: nat, n: nat, k: nat)
    requires FixedSize(blk, h)
    requires k < n
    ensures Off(k, h) + h <= Off(n, h)
    ensures Stream(blk, h, n)[Off(k, h) .. Off(k, h) + h] == blk(k + 1)
    decreases n
  {
    var prev := Stream(blk, h, n - 1);
    assert Stream(blk, h, n) == prev + blk(n);
    if k < n - 1 {
      StreamBlock(blk, h, n - 1, k);
      SliceOfAppendLeft(prev, blk(n), Off(k, h), Off(k, h) + h);
    } else {
      SliceOfAppendRight(prev, blk(n), Off(k, h), Off(k, h) + h);
    }
  }

  /** A shorter stream is a prefix of a longer one. */
  lemma {:induction false} StreamPrefix(blk: int -> seq<byte>, h: nat, m: nat, n: nat)
    requires FixedSize(blk, h)
    requires m <= n
    ensures Off(m, h) <= Off(n, h)
    ensures Stream(blk, h, m) == Stream(blk, h, n)[..Off(m, h)]
    decreases n
  {
    OffMonotone(m, n, h);
    if m < n {
      StreamPrefix(blk, h, m, n - 1);
      var prev := Stream(blk, h, n - 1);
      assert Stream(blk, h, n) == prev + blk(n);
      TakeOfAppendLeft(prev, blk(n), Off(m, h));
    } else {
      TakeAll(Stream(blk, h, n));
    }
  }

  /** Asking for fewer bytes gives a prefix of what asking for more gives. */
  lemma PrefixPrefix(blk: int -> seq<byte>, h: nat, len1: nat, len2: nat)
    requires FixedSize(blk, h)
    requires len1 <= len2
    ensures Prefix(blk, h, len1) == Prefix(blk, h, len2)[..len1]
  {
    var n1 := Blocks(len1, h);
    var n2 := Blocks(len2, h);
    BlocksIsCeiling(len1, h);
    BlocksIsCeiling(len2, h);
    if n2 < n1 {
      OffMonotone(n2, n1 - 1, h);
      assert false;
    }
    StreamPrefix(blk, h, n1, n2);
    var s := Stream(blk, h, n2);
    assert Prefix(blk, h, len2) == s[..len2];
    TakeTake(s, Off(n1, h), len1);
    TakeTake(s, len2, len1);
  }

  /** The chunk of a cut stream that starts a block is the start of that block. */
  lemma StreamChunk(blk: int -> seq<byte>, h: nat, n: nat, len: nat, i: nat, k: nat)
    requires FixedSize(blk, h)
    requires i < n && len <= Off(n, h) && k <= h && Off(i, h) + k <= len
    ensures Stream(blk, h, n)[..len][Off(i, h) .. Off(i, h) + k] == blk(i + 1)[..k]
  {
    StreamBlock(blk, h, n, i);
    TakeOfBlock(Stream(blk, h, n), len, Off(i, h), h, k, blk(i + 1));
  }

  /**
   * Within the requested length, the k bytes at the start of block i + 1
   * are the first k bytes of that block: a whole block, or the truncated
   * last one.
   */
  lemma PrefixChunk(blk: int -> seq<byte>, h: nat, len: nat, i: nat, k: nat)
    requires FixedSize(blk, h)
    requires k <= h && Off(i, h) + k <= len
    ensures Prefix(blk, h, len)[Off(i, h) .. Off(i, h) + k] == blk(i + 1)[..k]
  {
    var n := Blocks(len, h);
    if k == 0 {
      assert Prefix(blk, h, len)[Off(i, h) .. Off(i, h)] == [];
      return;
    }
    BlocksIsCeiling(len, h);
    if n <= i {
      OffMonotone(n, i, h);
      assert false;
    }
    assert Prefix(blk, h, len) == Stream(blk, h, n)[..len];
    StreamChunk(blk, h, n, len, i, k);
  }

  /**
   * The output as a generator's loop produces it: from counter c on, a
   * whole block while more than a block remains, then the first `rem`
   * bytes of one last block.
   */
  function Fill(blk: int -> seq<byte>, h: nat, c: int, rem: nat): (r: seq<byte>)
    requires FixedSize(blk, h)
    ensures |r| == rem
    decreases rem
  {
    if rem == 0 then []
    else if rem > h then blk(c) + Fill(blk, h, c + 1, rem - h)
    else blk(c)[..rem]
  }

  /**
   * Block k + 1 of a request of `len` bytes starts inside the request; it is
   * not the last one exactly when more than a block remains from its start,
   * and when it is the last one, what remains is the final chunk.
   */
  lemma {:induction false} BlockBounds(len: nat, h: nat, k: nat)
    requires 0 < h && k < Blocks(len, h)
    ensures Off(k, h) < len && Off(k + 1, h) == Off(k, h) + h
    ensures k + 1 < Blocks(len, h) <==> len - Off(k, h) > h
    ensures k + 1 == Blocks(len, h) ==> len - Off(k, h) == FinalChunk(len, h)
  {
    if k > 0 {
      BlockBounds(len - h, h, k - 1);
      OffShift(k, h);
    }
  }

  /** At least a block remaining: `Fill` is that whole block followed by the rest. */
  lemma FillFirst(blk: int -> seq<byte>, h: nat, c: int, rem: nat, rem': nat)
    requires FixedSize(blk, h) && rem >= h && rem' == rem - h
    ensures Fill(blk, h, c, rem) == blk(c) + Fill(blk, h, c + 1, rem')
  {
    if rem == h {
      assert Fill(blk, h, c + 1, rem') == [];
      TakeAll(blk(c));
    }
  }

  /** Dropping k whole blocks continues `Fill` k counters later. */
  lemma {:induction false} FillDrop(blk: int -> seq<byte>, h: nat, c: int, rem: nat, k: nat, c': int, rem': nat)
    requires FixedSize(blk, h) && Off(k, h) <= rem
    requires c' == c + k && rem' == rem - Off(k, h)
    ensures Fill(blk, h, c, rem)[Off(k, h)..] == Fill(blk, h, c', rem')
    decreases k
  {
    if k > 0 {
      OffShift(k, h);
      FillFirst(blk, h, c, rem, rem - h);
      FillDrop(blk, h, c + 1, rem - h, k - 1, c', rem');
      AppendDrop(blk(c), Fill(blk, h, c + 1, rem - h), Off(k - 1, h), Off(k, h));
    }
  }

  /**
   * In the output of a request of `len` bytes, the `n` bytes at the start of
   * block k + 1 (a whole block, or what is left of the request) are a prefix
   * of the block for counter k + 1.
   */
  lemma FillAt(blk: int -> seq<byte>, h: nat, len: nat, s: seq<byte>, k: nat, c: int, w: nat, n: nat)
    requires FixedSize(blk, h) && s == Fill(blk, h, 1, len)
    requires c == k + 1 && w == Off(k, h) && w < len
    requires n == if len - w > h then h else len - w
    ensures w + n <= len
    ensures s[w..w + n] == blk(c)[..n]
  {
    FillDrop(blk, h, 1, len, k, c, len - w);
    DropTake(s, w, n);
    if len - w > h {
      FillFirst(blk, h, c, len - w, len - w - h);
      TakeOfAppendLeft(blk(c), Fill(blk, h, c + 1, len - w - h), n);
      TakeAll(blk(c));
    }
  }

  /** Producing block by block, as the loop does, yields exactly the prefix of the stream. */
  lemma PrefixIsFill(blk: int -> seq<byte>, h: nat, len: nat)
    requires FixedSize(blk, h)
    ensures Prefix(blk, h, len) == Fill(blk, h, 1, len)
  {
    PrefixSuffixIsFill(blk, h, len, 0);
  }

  lemma {:induction false} PrefixSuffixIsFill(blk: int -> seq<byte>, h: nat, len: nat, k: nat)
    requires FixedSize(blk, h)
    requires Off(k, h) <= len
    ensures Prefix(blk, h, len)[Off(k, h)..] == Fill(blk, h, k + 1, len - Off(k, h))
    decreases len - Off(k, h)
  {
    if len - Off(k, h) > h {
      PrefixSuffixIsFill(blk, h, len, k + 1);
      PrefixFillStep(blk, h, len, k);
    } else {
      PrefixFillLast(blk, h, len, k);
    }
  }

  /** A whole block at Off(k), then what `Fill` gives from the next counter on. */
  lemma PrefixFillStep(blk: int -> seq<byte>, h: nat, len: nat, k: nat)
    requires FixedSize(blk, h)
    requires Off(k, h) + h < len
    requires Prefix(blk, h, len)[Off(k + 1, h)..] == Fill(blk, h, k + 1 + 1, len - Off(k + 1, h))
    ensures Prefix(blk, h, len)[Off(k, h)..] == Fill(blk, h, k + 1, len - Off(k, h))
  {
    var lo, hi := Off(k, h), Off(k + 1, h);
    var out := Prefix(blk, h, len);
    PrefixChunk(blk, h, len, k, h);
    TakeAll(blk(k + 1));
    DropSplit(out, lo, hi, blk(k + 1), Fill(blk, h, k + 1 + 1, len - hi));
    FillFirst(blk, h, k + 1, len - lo, len - hi);
  }

  /** At most a block left from Off(k): the rest of the prefix is the start of block k + 1. */
  lemma PrefixFillLast(blk: int -> seq<byte>, h: nat, len: nat, k: nat)
    requires FixedSize(blk, h)
    requires Off(k, h) <= len <= Off(k, h) + h
    ensures Prefix(blk, h, len)[Off(k, h)..] == Fill(blk, h, k + 1, len - Off(k, h))
  {
    var lo := Off(k, h);
    var out := Prefix(blk, h, len);
    if len > lo {
      PrefixChunk(blk, h, len, k, len - lo);
      TakeAll(out[lo..]);
    }
  }
}
