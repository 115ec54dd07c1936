/**
 * pool_allocator: a cache of freed host blocks ("budgets") beside the blocks handed out
 * ("payouts"). An allocation reuses the first budget that is large enough but not too large; a
 * free returns a handed-out block to the budgets. Addresses are numbers: a fresh allocation takes
 * the next unused one.
 */
module PoolAllocators {
  import opened Wrappers
  import opened Meta

  type usize = x: nat | x < SizeMax

  /** The compare ratio in 256ths: 192 by default, 0 to 256 after set_size_compare_ratio. */
  type Ratio = r: nat | r <= 256 witness 192

  const DefaultRatio: Ratio := 192

  /** A block: its size and its address. */
  datatype Block = Block(size: usize, ptr: nat)

  /**
   * A budget of bs bytes serves a request of size bytes when bs >= size and (bs * ratio) >> 8 <= size;
   * the product is a 64-bit size_t and wraps.
   */
  predicate Fits(bs: usize, size: usize, ratio: Ratio)
  {
    bs >= size && ((bs * ratio) % SizeMax) / 256 <= size
  }

  /** The first budget that serves the request, if any. */
  function FirstFit(budgets: seq<Block>, size: usize, ratio: Ratio): (r: Option<nat>)
    ensures r.Some? ==> r.value < |budgets| && Fits(budgets[r.value].size, size, ratio)
    ensures r.Some? ==> forall j :: 0 <= j < r.value ==> !Fits(budgets[j].size, size, ratio)
    ensures r.None? <==> forall j :: 0 <= j < |budgets| ==> !Fits(budgets[j].size, size, ratio)
  {
    if budgets == [] then None
    else if Fits(budgets[0].size, size, ratio) then Some(0)
    else match FirstFit(budgets[1..], size, ratio)
      case None => None
      case Some(i) => Some(i + 1)
  }

  /** The position of the first block with the address, if any. */
  function FindAddress(blocks: seq<Block>, ptr: nat): (r: Option<nat>)
    ensures r.Some? ==> r.value < |blocks| && blocks[r.value].ptr == ptr
    ensures r.Some? ==> forall j :: 0 <= j < r.value ==> blocks[j].ptr != ptr
    ensures r.None? <==> forall j :: 0 <= j < |blocks| ==> blocks[j].ptr != ptr
  {
    if blocks == [] then None
    else if blocks[0].ptr == ptr then Some(0)
    else match FindAddress(blocks[1..], ptr)
      case None => None
      case Some(i) => Some(i + 1)
  }

  /** The list-walking loop of fastMalloc: the first budget that fits. */
  method SearchBudgets(budgets: seq<Block>, size: usize, ratio: Ratio) returns (found: Option<nat>)
    ensures found == FirstFit(budgets, size, ratio)
  {
    var i := 0;
    while i < |budgets|
      invariant 0 <= i <= |budgets|
      invariant forall j :: 0 <= j < i ==> !Fits(budgets[j].size, size, ratio)
    {
      if Fits(budgets[i].size, size, ratio) {
        return Some(i);
      }
      i := i + 1;
    }
    return None;
  }

  /** The list-walking loop of fastFree: the first handed-out block with the address. */
  method SearchPayouts(payouts: seq<Block>, ptr: nat) returns (found: Option<nat>)
    ensures found == FindAddress(payouts, ptr)
  {
    var i := 0;
    while i < |payouts|
      invariant 0 <= i <= |payouts|
      invariant forall j :: 0 <= j < i ==> payouts[j].ptr != ptr
    {
      if payouts[i].ptr == ptr {
        return Some(i);
      }
      i := i + 1;
    }
    return None;
  }

  /** A served block is never smaller than the request, and at most size * 256 / ratio bytes larger when nothing wraps. */
  lemma FitsBounds(bs: usize, size: usize, ratio: Ratio)
    requires Fits(bs, size, ratio)
    ensures bs >= size
    ensures bs * ratio < SizeMax ==> bs * ratio < (size + 1) * 256
  {
  }

  /** The addresses of a list of blocks, in order. */
  function Addresses(blocks: seq<Block>): (r: seq<nat>)
    ensures |r| == |blocks| && forall i :: 0 <= i < |blocks| ==> r[i] == blocks[i].ptr
  {
    seq(|blocks|, i requires 0 <= i < |blocks| => blocks[i].ptr)
  }

  /** The addresses of one more block of a list: those before it, then its own. */
  lemma AddressesStep(blocks: seq<Block>, i: nat)
    requires i < |blocks|
    ensures Addresses(blocks[..i + 1]) == Addresses(blocks[..i]) + [blocks[i].ptr]
  {
  }

  /** Each address held once, all below the next fresh address. */
  ghost predicate PoolInvariant(held: multiset<Block>, nextPtr: nat)
  {
    && (forall b :: b in held ==> held[b] == 1 && b.ptr < nextPtr)
    && (forall b, c :: b in held && c in held && b.ptr == c.ptr ==> b == c)
  }

  /** Moving the block at position i from one list to the end of another keeps the blocks held. */
  lemma MoveKeepsHeld(from: seq<Block>, to: seq<Block>, i: nat)
    requires i < |from|
    ensures multiset(from[..i] + from[i + 1..]) + multiset(to + [from[i]]) == multiset(from) + multiset(to)
    ensures multiset(to + [from[i]]) + multiset(from[..i] + from[i + 1..]) == multiset(to) + multiset(from)
  {
    assert from == from[..i] + [from[i]] + from[i + 1..];
  }

  /** A fresh block at the next address keeps the invariant, with the next address moved on. */
  lemma FreshKeepsInvariant(held: multiset<Block>, nextPtr: nat, size: usize)
    requires PoolInvariant(held, nextPtr)
    ensures forall b :: b in held ==> b.ptr != nextPtr
    ensures PoolInvariant(held + multiset{Block(size, nextPtr)}, nextPtr + 1)
  {
  }

  /** Dropping blocks keeps the invariant. */
  lemma DropKeepsInvariant(held: multiset<Block>, fewer: multiset<Block>, nextPtr: nat)
    requires PoolInvariant(held, nextPtr) && fewer <= held
    ensures PoolInvariant(fewer, nextPtr)
  {
  }

  class PoolAllocator {
    var ratio: Ratio
    var budgets: seq<Block>
    var payouts: seq<Block>
    /** The addresses given back to the heap (by clear, and by a free of an address the pool did not hand out). */
    var heapFreed: seq<nat>
    /** The next address aligned_heap_alloc returns. */
    var nextPtr: nat

    /** Every block the pool knows about, cached or handed out. */
    ghost function Held(): multiset<Block>
      reads this
    {
      multiset(budgets) + multiset(payouts)
    }

    /** Each address is held at most once, and none is at or past the next fresh one. */
    ghost predicate Valid()
      reads this
    {
      PoolInvariant(Held(), nextPtr)
    }

    /** pool_allocator(): the default ratio and no blocks. */
    constructor ()
      ensures Valid() && ratio == DefaultRatio && budgets == [] && payouts == [] && heapFreed == []
    {
      ratio := DefaultRatio;
      budgets := [];
      payouts := [];
      heapFreed := [];
      nextPtr := 0;
    }

    /** set_size_compare_ratio: a ratio outside [0, 1] is fatal; otherwise its 256ths, rounded down, are stored. */
    method SetSizeCompareRatio(scr: real)
      requires 0.0 <= scr <= 1.0
      modifies this
      ensures ratio == (scr * 256.0).Floor
      ensures budgets == old(budgets) && payouts == old(payouts) && heapFreed == old(heapFreed) && nextPtr == old(nextPtr)
    {
      ratio := (scr * 256.0).Floor;
    }

    /** clear: every budget goes back to the heap; the handed-out blocks stay. */
    method Clear()
      requires Valid()
      modifies this
      ensures Valid() && budgets == [] && payouts == old(payouts) && nextPtr == old(nextPtr) && ratio == old(ratio)
      ensures heapFreed == old(heapFreed) + Addresses(old(budgets))
    {
      var cached := budgets;
      var i := 0;
      while i < |cached|
        invariant 0 <= i <= |cached|
        invariant budgets == cached && payouts == old(payouts) && nextPtr == old(nextPtr) && ratio == old(ratio)
        invariant heapFreed == old(heapFreed) + Addresses(cached[..i])
      {
        AddressesStep(cached, i);
        heapFreed := heapFreed + [cached[i].ptr];
        i := i + 1;
      }
      assert cached[..i] == cached;
      DropKeepsInvariant(Held(), multiset(payouts), nextPtr);
      budgets := [];
    }

    /**
     * fastMalloc: the first budget that fits moves to the payouts and its address is returned;
     * with none, a fresh block of the requested size is appended to the payouts.
     */
    method FastMalloc(size: usize) returns (ptr: nat)
      requires Valid()
      modifies this
      ensures Valid() && ratio == old(ratio) && heapFreed == old(heapFreed)
      ensures FirstFit(old(budgets), size, ratio).Some? ==>
        var i := FirstFit(old(budgets), size, ratio).value;
        && ptr == old(budgets)[i].ptr
        && budgets == old(budgets)[..i] + old(budgets)[i + 1..]
        && payouts == old(payouts) + [old(budgets)[i]]
        && Held() == old(Held()) && nextPtr == old(nextPtr)
      ensures FirstFit(old(budgets), size, ratio).None? ==>
        && ptr == old(nextPtr) && (forall b :: b in old(Held()) ==> b.ptr != ptr)
        && budgets == old(budgets) && payouts == old(payouts) + [Block(size, ptr)]
        && Held() == old(Held()) + multiset{Block(size, ptr)}
      ensures payouts[|payouts| - 1].ptr == ptr && payouts[|payouts| - 1].size >= size
    {
      var found := SearchBudgets(budgets, size, ratio);
      if found.Some? {
        ptr := budgets[found.value].ptr;
        TakeBudget(found.value);
      } else {
        ptr := AllocateFresh(size);
      }
    }

    /** The reuse path of fastMalloc: the budget at position i moves to the end of the payouts. */
    method TakeBudget(i: nat)
      requires Valid() && i < |budgets|
      modifies this
      ensures Valid() && ratio == old(ratio) && heapFreed == old(heapFreed) && nextPtr == old(nextPtr)
      ensures budgets == old(budgets)[..i] + old(budgets)[i + 1..] && payouts == old(payouts) + [old(budgets)[i]]
      ensures Held() == old(Held())
    {
      var b := budgets[i];
      MoveKeepsHeld(budgets, payouts, i);
      budgets, payouts := budgets[..i] + budgets[i + 1..], payouts + [b];
      assert Held() == old(Held());
    }

    /** The fresh path of fastMalloc: aligned_heap_alloc gives the next address, recorded in the payouts. */
    method AllocateFresh(size: usize) returns (ptr: nat)
      requires Valid()
      modifies this
      ensures Valid() && ratio == old(ratio) && heapFreed == old(heapFreed) && budgets == old(budgets)
      ensures ptr == old(nextPtr) && (forall b :: b in old(Held()) ==> b.ptr != ptr)
      ensures payouts == old(payouts) + [Block(size, ptr)]
      ensures Held() == old(Held()) + multiset{Block(size, ptr)}
    {
      ptr := nextPtr;
      FreshKeepsInvariant(Held(), nextPtr, size);
      payouts, nextPtr := payouts + [Block(size, ptr)], nextPtr + 1;
      assert Held() == old(Held()) + multiset{Block(size, ptr)};
    }

    /**
     * fastFree: a handed-out block goes back to the end of the budgets; an address the pool did
     * not hand out is logged and given straight back to the heap, and neither list changes.
     */
    method FastFree(ptr: nat)
      requires Valid()
      modifies this
      ensures Valid() && ratio == old(ratio) && nextPtr == old(nextPtr) && Held() == old(Held())
      ensures FindAddress(old(payouts), ptr).Some? ==>
        var j := FindAddress(old(payouts), ptr).value;
        && payouts == old(payouts)[..j] + old(payouts)[j + 1..]
        && budgets == old(budgets) + [old(payouts)[j]]
        && heapFreed == old(heapFreed)
      ensures FindAddress(old(payouts), ptr).None? ==>
        budgets == old(budgets) && payouts == old(payouts) && heapFreed == old(heapFreed) + [ptr]
    {
      var found := SearchPayouts(payouts, ptr);
      if found.Some? {
        var i := found.value;
        var b := payouts[i];
        MoveKeepsHeld(payouts, budgets, i);
        payouts, budgets := payouts[..i] + payouts[i + 1..], budgets + [b];
        assert Held() == old(Held());
      } else {
        heapFreed := heapFreed + [ptr];
      }
    }

    /** ~pool_allocator: clears the budgets; a block still handed out is fatal. */
    method Destroy()
      requires Valid() && payouts == []
      modifies this
      ensures Valid() && budgets == [] && payouts == []
      ensures heapFreed == old(heapFreed) + Addresses(old(budgets))
    {
      Clear();
    }
  }

  /** The ratio scales a size down: (size * ratio) mod 2^64 is at most size * 256. */
  lemma ScaledAtMost(size: usize, ratio: Ratio)
    ensures (size * ratio) % SizeMax <= size * 256
  {
    ScaledByAtMost(size, ratio);
    ModAtMost(size * ratio, SizeMax);
  }

  lemma ScaledByAtMost(size: nat, ratio: nat)
    requires ratio <= 256
    ensures size * ratio <= size * 256
  {
    assert size * 256 - size * ratio == size * (256 - ratio);
  }

  lemma ModAtMost(x: nat, m: nat)
    requires m > 0
    ensures x % m <= x
  {
  }

  lemma DivAtMost(y: nat, size: nat)
    requires y <= size * 256
    ensures y / 256 <= size
  {
  }

  /** A block of exactly the requested size fits, whatever the ratio. */
  lemma ExactSizeFits(size: usize, ratio: Ratio)
    ensures Fits(size, size, ratio)
  {
    ScaledAtMost(size, ratio);
    DivAtMost((size * ratio) % SizeMax, size);
  }

  /** A block freed right after it was handed out is the first budget a request of the same size finds, when none before it fits. */
  lemma FreedBlockServesAgain(budgets: seq<Block>, b: Block, ratio: Ratio)
    requires forall j :: 0 <= j < |budgets| ==> !Fits(budgets[j].size, b.size, ratio)
    ensures FirstFit(budgets + [b], b.size, ratio) == Some(|budgets|)
  {
    ExactSizeFits(b.size, ratio);
    assert (budgets + [b])[|budgets|] == b;
  }
}
