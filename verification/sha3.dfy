/**
 * The SHA-3 front end: `HashDigest` collects input block by block into a
 * `HashContext` and finalizes it, and the hash_sha3_* entry points run one
 * digest over a whole buffer. The digest of everything fed to a `HashDigest`
 * is SHA3-d of the concatenated input (FIPS 202 section 6.1), however the
 * input was cut into pieces.
 */
module Sha3 {
  import opened Meta
  import opened Sha3Details

  /** The padding depends on the message length only through its remainder modulo the rate. */
  lemma PadBytesOfRemainder(rate: nat, n: nat, m: nat)
    requires rate > 0 && n % rate == m % rate
    ensures PadBytes(rate, n) == PadBytes(rate, m)
  {
  }

  /** The length of absorbed blocks plus a short tail, modulo the rate, is the tail's length. */
  lemma TailRemainder(p: nat, t: nat, rate: nat)
    requires rate > 0 && p % rate == 0 && t < rate
    ensures (p + t) % rate == t && t % rate == t
  {
    DivModUnique(p + t, rate, p / rate, t);
    DivModUnique(t, rate, 0, t);
  }

  /** Concatenation is associative. */
  lemma Associative<T>(a: seq<T>, b: seq<T>, c: seq<T>)
    ensures (a + b) + c == a + (b + c)
  {
  }

  /** A message of whole blocks and a short tail is padded as the tail alone would be. */
  lemma PadOfTail(rate: nat, p: seq<byte>, t: seq<byte>)
    requires rate > 0 && |p| % rate == 0 && |t| < rate
    ensures PadBytes(rate, |p + t|) == PadBytes(rate, |t|)
  {
    TailRemainder(|p|, |t|, rate);
    PadBytesOfRemainder(rate, |p| + |t|, |t|);
  }

  /** Absorbing whole blocks and then one more block with Keccak-p. */
  lemma AbsorbOneMore(p: seq<byte>, block: seq<byte>, rate: nat)
    requires ValidRate(rate) && |p| % rate == 0 && |block| == rate
    ensures KeepsWidth(KeccakPermutation) && |p + block| % rate == 0
    ensures AbsorbBlocks(KeccakPermutation, ZeroLanes(), p + block, rate) ==
      KeccakPermutation(XorBlock(AbsorbBlocks(KeccakPermutation, ZeroLanes(), p, rate), block))
  {
    PermutationKeepsWidth();
    AbsorbBlocksAppend(KeccakPermutation, ZeroLanes(), p, block, rate);
    AbsorbPermutation(AbsorbBlocks(KeccakPermutation, ZeroLanes(), p, rate), block);
  }

  /** Every block of `blocks` is `rate` bytes long. */
  predicate WholeBlocks(blocks: seq<seq<byte>>, rate: nat) {
    forall i :: 0 <= i < |blocks| ==> |blocks[i]| == rate
  }

  /** The blocks one after another. */
  function Concat(blocks: seq<seq<byte>>): (r: seq<byte>)
  {
    if |blocks| == 0 then [] else Concat(blocks[..|blocks| - 1]) + blocks[|blocks| - 1]
  }

  /**
   * The state a hash digest holds after absorbing `blocks` into the zero
   * state with Keccak-p, one block at a time, the latest block last.
   */
  function Absorbed(blocks: seq<seq<byte>>, rate: nat): (r: seq<bv64>)
    requires ValidRate(rate) && WholeBlocks(blocks, rate)
    ensures |r| == SpongeWords
  {
    if |blocks| == 0 then ZeroLanes()
    else KeccakPermutation(XorBlock(Absorbed(blocks[..|blocks| - 1], rate), blocks[|blocks| - 1]))
  }

  /**
   * The block-by-block state is step 6 of SPONGE over the concatenated blocks
   * (FIPS 202 Algorithm 8), whose length is a multiple of the rate.
   */
  lemma {:induction false} AbsorbedIsAbsorbBlocks(blocks: seq<seq<byte>>, rate: nat)
    requires ValidRate(rate) && WholeBlocks(blocks, rate)
    ensures KeepsWidth(KeccakPermutation) && |Concat(blocks)| % rate == 0
    ensures Absorbed(blocks, rate) == AbsorbBlocks(KeccakPermutation, ZeroLanes(), Concat(blocks), rate)
  {
    PermutationKeepsWidth();
    if |blocks| == 0 {
      DivModUnique(0, rate, 0, 0);
    } else {
      var front, last := blocks[..|blocks| - 1], blocks[|blocks| - 1];
      AbsorbedIsAbsorbBlocks(front, rate);
      AbsorbOneMore(Concat(front), last, rate);
    }
  }

  /**
   * SHA3-d of a message made of whole blocks and a tail t shorter than a block:
   * absorb the blocks, then the last block made of t and the padding, then truncate.
   */
  lemma Sha3OfBlocksAndTail(kind: Sha3Type, blocks: seq<seq<byte>>, t: seq<byte>)
    requires WholeBlocks(blocks, BlockSize(kind)) && |t| < BlockSize(kind)
    ensures Sha3(kind, Concat(blocks) + t) == Trunc(KeccakPermutation(XorBlock(
      Absorbed(blocks, BlockSize(kind)), LastBlock(t, BlockSize(kind)))), FinalHashSize(kind))
  {
    var rate, p := BlockSize(kind), Concat(blocks);
    AbsorbedIsAbsorbBlocks(blocks, rate);
    PadOfTail(rate, p, t);
    var pad, last := PadBytes(rate, |t|), LastBlock(t, rate);
    assert PadBytes(rate, |p + t|) == pad && last == t + pad;
    Associative(p, t, pad);
    AbsorbOneMore(p, last, rate);
  }

  /** Absorbing one more block after `blocks`. */
  lemma AbsorbedAppend(blocks: seq<seq<byte>>, block: seq<byte>, rate: nat)
    requires ValidRate(rate) && WholeBlocks(blocks, rate) && |block| == rate
    ensures WholeBlocks(blocks + [block], rate)
    ensures Absorbed(blocks + [block], rate) == KeccakPermutation(XorBlock(Absorbed(blocks, rate), block))
  {
    var grown := blocks + [block];
    assert grown[..|grown| - 1] == blocks;
  }

  /**
   * The buffering half of a hash digest's invariant: everything consumed is
   * the absorbed blocks followed by the `filled` bytes waiting at the front of
   * `block`, which never fills up completely.
   */
  predicate Buffered(block: seq<byte>, filled: nat, consumed: seq<byte>, blocks: seq<seq<byte>>, rate: nat)
  {
    ValidRate(rate) && filled < rate && filled <= |block| && WholeBlocks(blocks, rate)
    && consumed == Concat(blocks) + block[..filled]
  }

  /** Copying bytes into the block without filling it extends the waiting tail. */
  lemma BufferedAfterCopy(block: seq<byte>, filled: nat, consumed: seq<byte>, blocks: seq<seq<byte>>,
                          source: seq<byte>, size: nat, after: seq<byte>, rate: nat)
    requires Buffered(block, filled, consumed, blocks, rate)
    requires filled + size < rate && size <= |source| && filled + size <= |after|
    requires after[..filled] == block[..filled] && after[filled..filled + size] == source[..size]
    ensures Buffered(after, filled + size, consumed + source[..size], blocks, rate)
  {
    assert after[..filled + size] == after[..filled] + after[filled..filled + size];
  }

  /** Concatenating one more block. */
  lemma ConcatAppend(blocks: seq<seq<byte>>, block: seq<byte>)
    ensures Concat(blocks + [block]) == Concat(blocks) + block
  {
    var grown := blocks + [block];
    assert grown[..|grown| - 1] == blocks;
  }

  /** The tail and the copied bytes together make up the full block. */
  lemma FillJoins(consumed: seq<byte>, front: seq<byte>, block: seq<byte>, filled: nat,
                  source: seq<byte>, size: nat, after: seq<byte>)
    requires filled <= |block| && size <= |source| && |after| == filled + size && consumed == front + block[..filled]
    requires after[..filled] == block[..filled] && after[filled..filled + size] == source[..size]
    ensures consumed + source[..size] == front + after
  {
    assert after == after[..filled] + after[filled..filled + size];
  }

  /** Copying bytes that complete the block turns the block into one more whole block and empties the tail. */
  lemma BufferedAfterFill(block: seq<byte>, filled: nat, consumed: seq<byte>, blocks: seq<seq<byte>>,
                          source: seq<byte>, size: nat, after: seq<byte>, rate: nat)
    requires Buffered(block, filled, consumed, blocks, rate)
    requires filled + size == rate && size <= |source| && |after| == rate
    requires after[..filled] == block[..filled] && after[filled..filled + size] == source[..size]
    ensures Buffered(after, 0, consumed + source[..size], blocks + [after], rate)
  {
    FillJoins(consumed, Concat(blocks), block, filled, source, size, after);
    ConcatAppend(blocks, after);
  }

  /**
   * hash_digest: a hash context plus, as ghost state, everything fed to it
   * since it was created or last finalized and the whole blocks of it that
   * have been absorbed.
   */
  class HashDigest {
    const context: HashContext
    ghost var consumed: seq<byte>
    ghost var blocks: seq<seq<byte>>

    ghost predicate Valid()
      reads this, context, context.state, context.block
    {
      context.Valid()
      && Buffered(context.block[..], context.blockIndex, consumed, blocks, BlockSize(context.kind))
      && context.state[..] == Absorbed(blocks, BlockSize(context.kind))
    }

    /** A digest that has consumed nothing. */
    constructor(kind: Sha3Type)
      ensures Valid() && context.kind == kind && consumed == []
      ensures fresh(context) && fresh(context.state) && fresh(context.intermediate)
      ensures fresh(context.tmp) && fresh(context.block)
    {
      context := new HashContext(kind);
      consumed := [];
      blocks := [];
    }

    /** update: copies the data into the block, absorbing the block each time it fills up. */
    method Update(data: seq<byte>)
      requires Valid()
      modifies this, context, context.state, context.intermediate, context.tmp, context.block
      ensures Valid() && consumed == old(consumed) + data
    {
      var sourceIndex := 0;
      ghost var start := consumed;
      while sourceIndex < |data|
        invariant sourceIndex <= |data|
        invariant Valid() && consumed == start + data[..sourceIndex]
      {
        var realSize := Min(|data| - sourceIndex, context.BlockRemainingSize());
        NextSlice(start, data, sourceIndex, realSize, consumed);
        Consume(data[sourceIndex..], realSize);
        sourceIndex := sourceIndex + realSize;
      }
      assert data[..sourceIndex] == data;
    }

    /** One pass of update's loop: `size` bytes of `source` go into the block, which is absorbed if it fills up. */
    method Consume(source: seq<byte>, size: nat)
      requires Valid() && size <= |source| && size <= context.BlockRemainingSize()
      modifies this, context, context.state, context.intermediate, context.tmp, context.block
      ensures Valid() && consumed == old(consumed) + source[..size]
    {
      ghost var before, filled := context.block[..], context.blockIndex;
      CopyBytes(context.block, context.blockIndex, source, size);
      ghost var after := context.block[..];
      SpliceParts(before, source, filled, size, after);
      context.blockIndex := context.blockIndex + size;
      if context.blockIndex >= BlockSize(context.kind) {
        BufferedAfterFill(before, filled, consumed, blocks, source, size, after, BlockSize(context.kind));
        AbsorbedAppend(blocks, after, BlockSize(context.kind));
        context.SpongeStep6();
        blocks := blocks + [after];
      } else {
        BufferedAfterCopy(before, filled, consumed, blocks, source, size, after, BlockSize(context.kind));
      }
      consumed := consumed + source[..size];
    }

    /** finalize: the digest of everything consumed; the context is reset, so the digest starts over. */
    method Finalize() returns (r: seq<byte>)
      requires Valid()
      modifies this, context, context.state, context.intermediate, context.tmp, context.block
      ensures r == Sha3(context.kind, old(consumed))
      ensures Valid() && consumed == []
    {
      Sha3OfBlocksAndTail(context.kind, blocks, context.block[..context.blockIndex]);
      r := context.SpongeFinalize();
      consumed := [];
      blocks := [];
    }
  }

  /** The smaller of two sizes. */
  function Min(a: nat, b: nat): (r: nat)
    ensures r <= a && r <= b && (r == a || r == b)
  {
    if a < b then a else b
  }

  /** The parts of a block after copy_bytes wrote `size` bytes of `source` at `filled`. */
  lemma SpliceParts(before: seq<byte>, source: seq<byte>, filled: nat, size: nat, after: seq<byte>)
    requires size <= |source| && filled + size <= |before|
    requires after == before[..filled] + source[..size] + before[filled + size..]
    ensures |after| == |before|
    ensures after[..filled] == before[..filled] && after[filled..filled + size] == source[..size]
  {
  }

  /** Taking `size` more bytes of the data extends the prefix taken so far. */
  lemma NextSlice(start: seq<byte>, data: seq<byte>, index: nat, size: nat, consumed: seq<byte>)
    requires index + size <= |data| && consumed == start + data[..index]
    ensures consumed + data[index..][..size] == start + data[..index + size]
  {
    assert data[..index] + data[index..][..size] == data[..index + size];
    Associative(start, data[..index], data[index..][..size]);
  }

  /** hash_sha3_impl: one fresh digest, fed the whole buffer, then finalized. */
  method HashSha3Impl(kind: Sha3Type, data: seq<byte>) returns (r: seq<byte>)
    ensures r == Sha3(kind, data)
  {
    var digest := new HashDigest(kind);
    digest.Update(data);
    assert digest.consumed == data;
    r := digest.Finalize();
  }

  /** hash_sha3_224: the 28-byte SHA3-224 digest. */
  method HashSha3_224(data: seq<byte>) returns (r: seq<byte>)
    ensures r == Sha3(Sha3_224, data) && |r| == 28
  {
    r := HashSha3Impl(Sha3_224, data);
  }

  /** hash_sha3_256: the 32-byte SHA3-256 digest. */
  method HashSha3_256(data: seq<byte>) returns (r: seq<byte>)
    ensures r == Sha3(Sha3_256, data) && |r| == 32
  {
    r := HashSha3Impl(Sha3_256, data);
  }

  /** hash_sha3_384: the 48-byte SHA3-384 digest. */
  method HashSha3_384(data: seq<byte>) returns (r: seq<byte>)
    ensures r == Sha3(Sha3_384, data) && |r| == 48
  {
    r := HashSha3Impl(Sha3_384, data);
  }

  /** hash_sha3_512: the 64-byte SHA3-512 digest. */
  method HashSha3_512(data: seq<byte>) returns (r: seq<byte>)
    ensures r == Sha3(Sha3_512, data) && |r| == 64
  {
    r := HashSha3Impl(Sha3_512, data);
  }
}
