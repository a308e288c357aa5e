/**
 * The concatenation KDF generator object: it holds a digest, OtherInfo, the
 * shared secret once `Init` has been given one, and the first counter value,
 * and `GenerateBytes` fills part of a caller's array with derived bytes.
 */
module XmldapCrypto {
  import opened Wrappers
  import opened Bytes
  import opened BlockStream
  import opened ConcatKdf

  /**
   * The parameter objects `Init` can be handed: a `KDFParameters` (shared
   * secret and an optional IV, unused here) or any other kind, null included.
   */
  datatype DerivationParameters =
    | KdfParameters(sharedSecret: seq<byte>, iv: Option<seq<byte>>)
    | OtherParameters

  /** The exceptions the generator throws. */
  datatype KdfError =
    | IllegalArgument   // `Init` was not given `KDFParameters`
    | DataLength        // the output region does not fit in the array

  /**
   * The number of digest calls `GenerateBytes` makes, computed as the source
   * does with a rounded-up integer division.
   */
  method CeilingBlocks(len: int, outLen: int) returns (n: int)
    requires 0 <= len && 0 < outLen
    ensures n == Blocks(len, outLen)
  {
    BlockCountFormula(len, outLen);
    n := (len + outLen - 1) / outLen;
  }

  /**
   * The state of `generateBytes` when block i + 1 is next: the output
   * offset and remaining length have moved past i whole blocks, and those
   * blocks' bytes are in place.
   */
  ghost predicate BlockStart(out: array<byte>, off: int, rem: int, d: Digest, len: nat, outOff: nat,
                             s0: seq<byte>, derived: seq<byte>, i: nat)
    reads out
  {
    && Off(i, d.size) <= |derived| && outOff + |derived| <= |s0| == out.Length
    && off == outOff + Off(i, d.size) && rem == len - Off(i, d.size)
    && out[..] == Overwrite(s0, outOff, derived[..Off(i, d.size)])
  }

  /**
   * One pass of the loop of `generateBytes`: Hash_i = H(counter || Z || OtherInfo),
   * then a whole block copied while more than a block remains, or the last
   * `rem` bytes.
   */
  method CopyBlock(d: Digest, z: seq<byte>, o: seq<byte>, out: array<byte>, counter: int, off: int, rem: int,
                   ghost len: nat, ghost outOff: nat, ghost s0: seq<byte>, ghost derived: seq<byte>, ghost i: nat)
    returns (off': int, rem': int)
    requires d.Valid() && derived == Fill(KdfBlocks(d, z, o), d.size, 1, len)
    requires i < Blocks(len, d.size) && counter == i + 1
    requires BlockStart(out, off, rem, d, len, outOff, s0, derived, i)
    modifies out
    ensures i + 1 < Blocks(len, d.size) ==> BlockStart(out, off', rem', d, len, outOff, s0, derived, i + 1)
    ensures i + 1 == Blocks(len, d.size) ==> rem' == FinalChunk(len, d.size) && out[..] == Overwrite(s0, outOff, derived)
  {
    var outLen := d.size;
    var message := Be32(counter) + z + o;
    var dig := d.hash(message);
    assert dig == KdfBlocks(d, z, o)(counter);
    ghost var written := Off(i, outLen);
    BlockBounds(len, outLen, i);
    if rem > outLen {
      FillAt(KdfBlocks(d, z, o), outLen, len, derived, i, counter, written, outLen);
      ArrayCopyNext(dig, out, off, outLen, s0, outOff, derived, written, written + outLen);
      off' := off + outLen;
      rem' := rem - outLen;
    } else {
      FillAt(KdfBlocks(d, z, o), outLen, len, derived, i, counter, written, rem);
      ArrayCopyNext(dig, out, off, rem, s0, outOff, derived, written, len);
      TakeAll(derived);
      off', rem' := off, rem;
    }
  }

  class KdfConcatGenerator {
    var counterStart: int
    var digest: Digest
    var shared: Option<seq<byte>>
    var otherInfo: seq<byte>

    /** The counter starts at 1 and the digest has a fixed positive output size. */
    ghost predicate Valid()
      reads this
    {
      counterStart == 1 && digest.Valid()
    }

    constructor (digest: Digest, otherInfo: seq<byte>)
      requires digest.Valid()
      ensures Valid()
      ensures this.digest == digest && this.otherInfo == otherInfo && shared == None
    {
      counterStart := 1;
      this.digest := digest;
      this.otherInfo := otherInfo;
      shared := None;
    }

    /** Takes the shared secret from `KDFParameters`; anything else is refused and nothing changes. */
    method Init(param: DerivationParameters) returns (r: Outcome<KdfError>)
      requires Valid()
      modifies this
      ensures Valid()
      ensures r == if param.KdfParameters? then Pass else Fail(IllegalArgument)
      ensures shared == if param.KdfParameters? then Some(param.sharedSecret) else old(shared)
      ensures counterStart == old(counterStart) && digest == old(digest) && otherInfo == old(otherInfo)
    {
      if param.KdfParameters? {
        shared := Some(param.sharedSecret);
        r := Pass;
      } else {
        r := Fail(IllegalArgument);
      }
    }

    /**
     * Writes the first `len` bytes of block_1 || block_2 || ... into
     * `out[outOff .. outOff + len)` and returns the size of the last chunk
     * copied. A region that does not fit fails before any byte is written.
     * The shared secret is read only when a block is hashed, so a call
     * before `init` is well defined when it fails or asks for no bytes.
     */
    method GenerateBytes(out: array<byte>, outOff: int, len: int) returns (r: Result<int, KdfError>)
      requires Valid()
      requires shared.Some? || len == 0 || outOff + len > out.Length
      requires 0 <= outOff <= MaxInt && 0 <= len <= MaxInt
      modifies out
      ensures r.Failure? <==> outOff + len > out.Length
      ensures r.Failure? ==> r.error == DataLength && out[..] == old(out[..])
      ensures r.Success? ==> r.value == FinalChunk(len, digest.size)
      ensures r.Success? && len == 0 ==> out[..] == old(out[..])
      ensures r.Success? && shared.Some? ==>
        out[..] == Overwrite(old(out[..]), outOff, Derive(digest, shared.value, otherInfo, len))
    {
      if out.Length - len < outOff {
        return Failure(DataLength);
      }
      // The fields do not change during the call; read them once.
      var d, o := digest, otherInfo;
      ghost var z := if shared.Some? then shared.value else [];
      var outLen := d.size;
      var cThreshold := CeilingBlocks(len, outLen);
      var counter := counterStart;
      var off, rem := outOff, len;
      ghost var derived := Fill(KdfBlocks(d, z, o), outLen, 1, len);
      ghost var s0 := out[..];
      OverwriteEmpty(s0, outOff);
      for i := 0 to cThreshold
        invariant counter == i + 1
        invariant i < cThreshold ==> BlockStart(out, off, rem, d, len, outOff, s0, derived, i)
        invariant i == cThreshold ==> rem == FinalChunk(len, outLen) && out[..] == Overwrite(s0, outOff, derived)
      {
        // A block is hashed, so the request is not empty and `init` has run.
        off, rem := CopyBlock(d, shared.value, o, out, counter, off, rem, len, outOff, s0, derived, i);
        counter := counter + 1;
      }
      DeriveIsFill(d, z, o, len);
      return Success(rem);
    }
  }
}
