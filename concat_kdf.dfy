/**
 * The single-step concatenation key-derivation function of NIST SP 800-56A,
 * section 5.8.1: block i is the digest of the 32-bit big-endian counter i,
 * the shared secret Z and OtherInfo, and the output is the first `len`
 * bytes of block 1 || block 2 || ....
 */
module ConcatKdf {
  import opened Bytes
  import opened BlockStream

  /**
   * A message digest seen from outside: a function from the bytes fed to it
   * to its output, and its output size. Its internal state and `reset` are
   * invisible here.
   */
  datatype Digest = Digest(hash: seq<byte> -> seq<byte>, size: nat) {
    /** Every output has the digest's fixed size, and that size is positive. */
    ghost predicate Valid() {
      size > 0 && forall m :: |hash(m)| == size
    }
  }

  /** Block i (counting from 1): the digest of counter i || Z || OtherInfo. */
  function Block(d: Digest, z: seq<byte>, otherInfo: seq<byte>, i: int): (r: seq<byte>)
    ensures d.Valid() ==> |r| == d.size
  {
    d.hash(Be32(i) + z + otherInfo)
  }

  /** The blocks of the derivation, as a function of the counter. */
  function KdfBlocks(d: Digest, z: seq<byte>, otherInfo: seq<byte>): (blk: int -> seq<byte>)
    ensures d.Valid() ==> FixedSize(blk, d.size)
  {
    i => Block(d, z, otherInfo, i)
  }

  /** The first `len` bytes of the block stream: the KDF's output. */
  function Derive(d: Digest, z: seq<byte>, otherInfo: seq<byte>, len: nat): (r: seq<byte>)
    requires d.Valid()
    ensures |r| == len
  {
    Prefix(KdfBlocks(d, z, otherInfo), d.size, len)
  }

  /** The bytes derived for a shorter length are a prefix of those for a longer one. */
  lemma DerivePrefix(d: Digest, z: seq<byte>, otherInfo: seq<byte>, len1: nat, len2: nat)
    requires d.Valid()
    requires len1 <= len2
    ensures Derive(d, z, otherInfo, len1) == Derive(d, z, otherInfo, len2)[..len1]
  {
    PrefixPrefix(KdfBlocks(d, z, otherInfo), d.size, len1, len2);
  }

  /** Within the requested length, block i of the output is the digest of counter i. */
  lemma DeriveBlock(d: Digest, z: seq<byte>, otherInfo: seq<byte>, len: nat, i: nat)
    requires d.Valid()
    requires 1 <= i && Off(i, d.size) <= len
    ensures Off(i - 1, d.size) + d.size == Off(i, d.size)
    ensures Derive(d, z, otherInfo, len)[Off(i - 1, d.size) .. Off(i, d.size)]
         == d.hash(Be32(i) + z + otherInfo)
  {
    var blk := KdfBlocks(d, z, otherInfo);
    PrefixChunk(blk, d.size, len, i - 1, d.size);
    TakeAll(blk(i));
  }

  /** A request of at most one block hashes once, with counter 1; a request of 0 hashes nothing. */
  lemma DeriveSingleBlock(d: Digest, z: seq<byte>, otherInfo: seq<byte>, len: nat)
    requires d.Valid()
    requires len <= d.size
    ensures Blocks(len, d.size) == if len == 0 then 0 else 1
    ensures Derive(d, z, otherInfo, len) == d.hash([0, 0, 0, 1] + z + otherInfo)[..len]
  {
    var blk := KdfBlocks(d, z, otherInfo);
    assert Be32(1) == [0, 0, 0, 1];
    assert Stream(blk, d.size, 1) == [] + blk(1);
  }

  /** With a two-block request, the second block is hashed with counter bytes 00 00 00 02. */
  lemma SecondBlockCounter(d: Digest, z: seq<byte>, otherInfo: seq<byte>)
    requires d.Valid()
    ensures Derive(d, z, otherInfo, 2 * d.size)[d.size .. 2 * d.size]
         == d.hash([0, 0, 0, 2] + z + otherInfo)
  {
    assert Off(1, d.size) == d.size && Off(2, d.size) == 2 * d.size;
    DeriveBlock(d, z, otherInfo, 2 * d.size, 2);
    assert Be32(2) == [0, 0, 0, 2];
  }

  /** Producing block by block, as the generator's loop does, yields exactly the derived bytes. */
  lemma DeriveIsFill(d: Digest, z: seq<byte>, otherInfo: seq<byte>, len: nat)
    requires d.Valid()
    ensures Derive(d, z, otherInfo, len) == Fill(KdfBlocks(d, z, otherInfo), d.size, 1, len)
  {
    PrefixIsFill(KdfBlocks(d, z, otherInfo), d.size, len);
  }
}
