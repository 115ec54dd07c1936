/**
 * param_span: a non-owning (pointer, size) view over contiguous elements. Memory is a sequence
 * indexed by address, address 0 being the null pointer; a span is sound for a memory when it is
 * empty or its elements lie inside it.
 */
module ParamSpans {
  import opened Meta
  import opened Exceptions

  /** std::size_t: unsigned 64-bit. */
  type usize = x: nat | x < SizeMax

  /** The value of a span: the address of its first element (0 for null) and its length. */
  datatype Span = Span(data: nat, size: usize)

  const NullSpan: Span := Span(0, 0)

  /** The elements of a span lie inside memory (nothing is demanded of an empty span). */
  predicate Sound<T>(mem: seq<T>, s: Span)
  {
    s.size == 0 || (s.data != 0 && s.data + s.size <= |mem|)
  }

  /** The elements a sound span views, in order. */
  function Elements<T>(mem: seq<T>, s: Span): (r: seq<T>)
    requires Sound(mem, s)
    ensures |r| == s.size
  {
    if s.size == 0 then [] else mem[s.data..s.data + s.size]
  }

  /** operator bool: the pointer is not null. */
  predicate IsValid(s: Span)
  {
    s.data != 0
  }

  /** empty: a null pointer or a zero size. */
  predicate Empty(s: Span)
  {
    s.data == 0 || s.size == 0
  }

  /** An empty span views no elements, and a null sound span is empty. */
  lemma EmptyViewsNothing<T>(mem: seq<T>, s: Span)
    requires Sound(mem, s)
    ensures Empty(s) ==> Elements(mem, s) == []
    ensures !IsValid(s) ==> Empty(s)
    ensures !Empty(s) <==> IsValid(s) && |Elements(mem, s)| > 0
  {
  }

  /** operator[]: the element at the index, or abi_out_of_bounds when the index is not below the size. */
  function At<T>(mem: seq<T>, s: Span, index: usize): (r: Raising<T>)
    requires Sound(mem, s)
    ensures r.Returned? <==> index < s.size
    ensures r.Returned? ==> r.value == Elements(mem, s)[index]
    ensures r.Raised? ==> r.error == OutOfBounds
  {
    if index < s.size then Returned(mem[s.data + index]) else Raised(OutOfBounds)
  }

  /**
   * sub_span as written: the check index + size <= size_ is computed in std::size_t, so a huge
   * size wraps the sum past zero and passes.
   */
  function SubSpanAsWritten(s: Span, index: usize, size: usize): Raising<Span>
  {
    if index < s.size && (index + size) % SizeMax <= s.size then Returned(Span(s.data + index, size))
    else Raised(OutOfBounds)
  }

  /** The wrap-around: a sound four-element span yields a sub-span of 2^64 - 1 elements from index 1. */
  lemma SubSpanAsWrittenOverruns()
    ensures Sound([0, 10, 11, 12, 13], Span(1, 4))
    ensures SubSpanAsWritten(Span(1, 4), 1, SizeMax - 1) == Returned(Span(2, SizeMax - 1))
    ensures !Sound([0, 10, 11, 12, 13], Span(2, SizeMax - 1))
  {
  }

  /** sub_span, corrected: the bound is checked without overflow, as size <= size_ - index. */
  function SubSpan(s: Span, index: usize, size: usize): (r: Raising<Span>)
    ensures r.Returned? <==> index < s.size && index + size <= s.size
    ensures r.Raised? ==> r.error == OutOfBounds
  {
    if index < s.size && size <= s.size - index then Returned(Span(s.data + index, size))
    else Raised(OutOfBounds)
  }

  /**
   * A sub-span of a sound span is sound and views exactly elements [index, index + size) of it.
   * An empty span has no sub-span, and no sub-span starts at the size, not even an empty one.
   */
  lemma SubSpanViews<T>(mem: seq<T>, s: Span, index: usize, size: usize)
    requires Sound(mem, s)
    ensures SubSpan(s, index, size).Returned? ==>
      Sound(mem, SubSpan(s, index, size).value) &&
      Elements(mem, SubSpan(s, index, size).value) == Elements(mem, s)[index..index + size]
    ensures s.size == 0 ==> SubSpan(s, index, size).Raised?
    ensures SubSpan(s, s.size, 0).Raised?
  {
    if SubSpan(s, index, size).Returned? && size > 0 {
      var e := Elements(mem, s);
      var sub, part := mem[s.data + index..s.data + index + size], e[index..index + size];
      assert e == mem[s.data..s.data + s.size];
      assert forall j :: 0 <= j < size ==> sub[j] == mem[s.data + index + j] == part[j];
      assert sub == part;
    }
  }

  /** Where the as-written check and the corrected one agree: whenever the sum does not wrap. */
  lemma SubSpanAgrees(s: Span, index: usize, size: usize)
    requires index + size < SizeMax
    ensures SubSpanAsWritten(s, index, size) == SubSpan(s, index, size)
  {
  }

  /** A param_span variable: its two fields. */
  class ParamSpan {
    var data: nat
    var size: usize

    /** The current value. */
    function Value(): Span
      reads this
    {
      Span(data, size)
    }

    /** param_span(data, size) and the container constructor: both fields stored. */
    constructor (data: nat, size: usize)
      ensures Value() == Span(data, size)
    {
      this.data := data;
      this.size := size;
    }

    /** param_span(nullptr): (null, 0). */
    constructor Null()
      ensures Value() == NullSpan
    {
      data := 0;
      size := 0;
    }

    /** The copy constructor and take_over: both fields copied. */
    constructor Copy(other: ParamSpan)
      ensures Value() == other.Value()
    {
      data := other.data;
      size := other.size;
    }

    /** The move constructor: both fields taken; the source becomes (null, 0). */
    constructor Move(other: ParamSpan)
      modifies other
      ensures Value() == old(other.Value()) && other.Value() == NullSpan
    {
      data := other.data;
      size := other.size;
      new;
      other.data, other.size := 0, 0;
    }

    /** Copy assignment: both fields copied. */
    method AssignCopy(right: ParamSpan)
      modifies this
      ensures Value() == old(right.Value())
    {
      data, size := right.data, right.size;
    }

    /** Move assignment: both fields taken and the right span reset; a self-move keeps the span. */
    method AssignMove(right: ParamSpan)
      modifies this, right
      ensures this != right ==> Value() == old(right.Value()) && right.Value() == NullSpan
      ensures this == right ==> Value() == old(Value())
    {
      var d, s := right.data, right.size;
      right.data, right.size := 0, 0;
      data, size := d, s;
    }

    /** put_abi followed by a store through the returned address: reset to (null, 0), then overwritten. */
    method PutAbi(written: Span)
      modifies this
      ensures Value() == written
    {
      data, size := 0, 0;
      data, size := written.data, written.size;
    }

    /** detach_abi: a copy of the span; the span itself is left as it is. */
    method Detach() returns (r: Span)
      ensures r == Value()
    {
      r := Value();
    }
  }
}
