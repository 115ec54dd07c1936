/**
 * array_buffer: a growable buffer of elements with an explicit capacity. emplace_back grows the
 * buffer by the expanding factor when it is full, then constructs the new element at the end.
 */
module ArrayBuffers {
  import opened Wrappers

  const InitialCapacity: nat := 1
  const ExpandingFactor: nat := 2

  /** expand_buffer_core as written: capacity_ *= expanding_factor_, so a zero capacity stays zero. */
  function GrownCapacityAsWritten(capacity: nat): (r: nat)
    ensures r >= capacity
    ensures r > capacity <==> capacity > 0
  {
    capacity * ExpandingFactor
  }

  /**
   * A buffer created with capacity 0 is full at size 0, and growing it as written leaves no slot for
   * the element emplace_back then constructs at index 0.
   */
  lemma ZeroCapacityStaysFull()
    ensures var grown := GrownCapacityAsWritten(0); grown == 0 && !(0 < grown)
  {
  }

  /** The growth, corrected: doubling, and the initial capacity for an empty allocation. */
  function GrownCapacity(capacity: nat): (r: nat)
    ensures r > capacity
    ensures capacity > 0 ==> r == GrownCapacityAsWritten(capacity)
  {
    if capacity == 0 then InitialCapacity else capacity * ExpandingFactor
  }

  /**
   * The elements that survive the memcpy(new_buffer, buffer_, position_) of expand_buffer_core: it
   * copies position_ bytes, which hold only position_ / sizeof(Element) whole elements.
   */
  function CarriedAsWritten(position: nat, elementSize: nat): (r: nat)
    requires elementSize > 0
    ensures r <= position
    ensures r == position <==> position == 0 || elementSize == 1
  {
    DivBelow(position, elementSize);
    position / elementSize
  }

  /** Dividing a positive count by a size of two or more gives less than the count. */
  lemma DivBelow(n: nat, d: nat)
    requires d > 0
    ensures n / d <= n
    ensures n / d == n <==> n == 0 || d == 1
  {
    var q := n / d;
    assert q * d + n % d == n;
    if d > 1 {
      AtLeastDouble(q, d - 2);
      assert 2 * q <= n;
    } else {
      assert q == n;
    }
  }

  lemma AtLeastDouble(q: nat, e: nat)
    ensures q * (e + 2) >= 2 * q
  {
    assert q * (e + 2) == q * e + 2 * q;
  }

  /** Growing a buffer that holds one element of four bytes carries no element over. */
  lemma MemcpyDropsElements()
    ensures CarriedAsWritten(1, 4) == 0
  {
  }

  /** The capacity after an emplace_back into a buffer of the given size and capacity. */
  function CapacityAfterEmplace(size: nat, capacity: nat): (r: nat)
    requires size <= capacity
    ensures r > size
    ensures r >= capacity
  {
    if size >= capacity then GrownCapacity(capacity) else capacity
  }

  /**
   * Starting from the default capacity, the capacity is 1 or less than twice the size: doubling only
   * when full never wastes more than half of the buffer.
   */
  predicate Compact(size: nat, capacity: nat)
  {
    capacity == InitialCapacity || capacity < 2 * size
  }

  /** An emplace_back keeps the buffer compact and the capacity a power of two. */
  lemma EmplaceKeepsCompact(size: nat, capacity: nat)
    requires size <= capacity && Compact(size, capacity)
    ensures Compact(size + 1, CapacityAfterEmplace(size, capacity))
    ensures PowerOfTwo(capacity) ==> PowerOfTwo(CapacityAfterEmplace(size, capacity))
  {
    if size >= capacity && capacity > 0 {
      PowerOfTwoDoubles(capacity);
    }
  }

  /** 1, 2, 4, 8, ... */
  predicate PowerOfTwo(n: nat)
  {
    if n <= 1 then n == 1 else n % 2 == 0 && PowerOfTwo(n / 2)
  }

  lemma PowerOfTwoDoubles(n: nat)
    requires n > 0
    ensures PowerOfTwo(n) ==> PowerOfTwo(n * 2)
  {
    assert (n * 2) / 2 == n;
  }

  /**
   * array_buffer<Element>: buffer_ holds capacity_ slots of which the first position_ are
   * constructed; live is false once the destructor has released buffer_. Growth is modelled
   * corrected: a zero capacity grows, and every constructed element moves to the new buffer.
   */
  class ArrayBuffer<T(0)> {
    var buffer: array<T>
    var position: nat
    var capacity: nat
    var live: bool

    ghost predicate Valid()
      reads this
    {
      live ==> capacity == buffer.Length && position <= capacity
    }

    /** The constructed elements, in order. */
    function Contents(): (r: seq<T>)
      reads this, buffer
      requires Valid() && live
      ensures |r| == position
    {
      buffer[..position]
    }

    /** The default constructor: capacity 1, no elements. */
    constructor Default()
      ensures Valid() && live && fresh(buffer)
      ensures Contents() == [] && Capacity() == InitialCapacity
    {
      buffer := new T[InitialCapacity];
      position := 0;
      capacity := InitialCapacity;
      live := true;
    }

    /** array_buffer(capacity): the given capacity, no elements. */
    constructor (capacity: nat)
      ensures Valid() && live && fresh(buffer)
      ensures Contents() == [] && Capacity() == capacity
    {
      buffer := new T[capacity];
      position := 0;
      this.capacity := capacity;
      live := true;
    }

    /** size(): the number of elements emplaced so far. */
    function Size(): (r: nat)
      reads this, buffer
      requires Valid() && live
      ensures r == |Contents()|
    {
      position
    }

    /** capacity(): the number of slots of the current buffer. */
    function Capacity(): (r: nat)
      reads this
      requires Valid() && live
      ensures r == buffer.Length && r >= position
    {
      capacity
    }

    /** operator[]: the element at an index; an index at or past the size terminates the program. */
    function At(index: nat): (r: T)
      reads this, buffer
      requires Valid() && live && index < position
      ensures r == Contents()[index]
    {
      buffer[index]
    }

    /** A write through the reference operator[] returns. */
    method SetAt(index: nat, value: T)
      requires Valid() && live && index < position
      modifies buffer
      ensures Valid() && live
      ensures Contents() == old(Contents())[index := value]
    {
      buffer[index] := value;
    }

    /** end(): begin() plus the size, as an offset from begin(); null once the buffer is released. */
    function End(): (r: Option<nat>)
      reads this
      ensures r.Some? <==> live
      ensures live ==> r == Some(position)
    {
      if live then Some(position) else None
    }

    /** expand_buffer_core, corrected: a full buffer moves all its elements into a new, larger buffer. */
    method ExpandBufferCore()
      requires Valid() && live
      modifies this
      ensures Valid() && live && position == old(position) && position < capacity
      ensures capacity == CapacityAfterEmplace(old(position), old(capacity))
      ensures buffer[..position] == old(buffer[..position])
      ensures old(position) < old(capacity) ==> buffer == old(buffer)
      ensures old(position) >= old(capacity) ==> fresh(buffer)
    {
      if position >= capacity {
        var grown := GrownCapacity(capacity);
        var grownBuffer := new T[grown];
        forall i | 0 <= i < position {
          grownBuffer[i] := buffer[i];
        }
        assert grownBuffer[..position] == buffer[..position];
        buffer := grownBuffer;
        capacity := grown;
      }
    }

    /** emplace_back: grows the buffer when it is full, then appends the element. */
    method EmplaceBack(x: T)
      requires Valid() && live
      modifies this, buffer
      ensures Valid() && live
      ensures Contents() == old(Contents()) + [x]
      ensures capacity == CapacityAfterEmplace(old(position), old(capacity))
      ensures buffer == old(buffer) || fresh(buffer)
    {
      ExpandBufferCore();
      buffer[position] := x;
      position := position + 1;
    }

    /** ~array_buffer: releases the buffer; the capacity becomes 0 and end() null. */
    method Destroy()
      requires Valid() && live
      modifies this
      ensures Valid() && !live && capacity == 0 && End() == None
      ensures position == old(position)
    {
      live := false;
      capacity := 0;
    }
  }

  /** n emplace_back calls on a default buffer leave n elements in a compact, power-of-two buffer. */
  method FillDefault<T(0)>(xs: seq<T>) returns (b: ArrayBuffer<T>)
    ensures b.Valid() && b.live
    ensures b.Contents() == xs
    ensures Compact(|xs|, b.capacity) && PowerOfTwo(b.capacity)
  {
    b := new ArrayBuffer<T>.Default();
    var i := 0;
    while i < |xs|
      invariant 0 <= i <= |xs|
      invariant b.Valid() && b.live
      invariant b.Contents() == xs[..i]
      invariant Compact(i, b.capacity) && PowerOfTwo(b.capacity)
      invariant fresh(b) && fresh(b.buffer)
      decreases |xs| - i
    {
      EmplaceKeepsCompact(i, b.capacity);
      b.EmplaceBack(xs[i]);
      assert xs[..i + 1] == xs[..i] + [xs[i]];
      i := i + 1;
    }
  }
}
