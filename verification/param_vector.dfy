/**
 * param_vector_impl: the growable vector behind param_vector, and the iterator it hands out.
 * The std::vector buffer is a sequence the operations replace; a span written by copy_to is an
 * array.
 */
module ParamVectors {
  import opened Wrappers
  import opened Exceptions

  /** The sequence with x inserted before position i. */
  function Inserted<T>(s: seq<T>, i: nat, x: T): (r: seq<T>)
    requires i <= |s|
    ensures |r| == |s| + 1 && r[i] == x
    ensures forall j :: 0 <= j < i ==> r[j] == s[j]
    ensures forall j :: i < j < |r| ==> r[j] == s[j - 1]
  {
    s[..i] + [x] + s[i..]
  }

  /** The sequence with position i erased. */
  function Removed<T>(s: seq<T>, i: nat): (r: seq<T>)
    requires i < |s|
    ensures |r| == |s| - 1
    ensures forall j :: 0 <= j < i ==> r[j] == s[j]
    ensures forall j :: i <= j < |r| ==> r[j] == s[j + 1]
  {
    s[..i] + s[i + 1..]
  }

  /** Erasing what was just inserted gives the sequence back; re-inserting what was erased does too. */
  lemma InsertRemoveInverse<T>(s: seq<T>, i: nat, x: T)
    requires i <= |s|
    ensures Removed(Inserted(s, i, x), i) == s
    ensures i < |s| ==> Inserted(Removed(s, i), i, s[i]) == s
  {
    assert Removed(Inserted(s, i, x), i) == s;
    if i < |s| {
      assert Inserted(Removed(s, i), i, s[i]) == s;
    }
  }

  /** The sequence after resize(n): the first min(n, |s|) elements kept, then value-initialised ones. */
  function Resized<T>(s: seq<T>, n: nat, fill: T): (r: seq<T>)
    ensures |r| == n
    ensures forall j :: 0 <= j < n && j < |s| ==> r[j] == s[j]
    ensures forall j :: |s| <= j < n ==> r[j] == fill
  {
    if n <= |s| then s[..n] else s + seq(n - |s|, _ => fill)
  }

  /** The bounds rule of copy_from and copy_to: the data fits inside the buffer from the index on. */
  predicate CopyFits(size: nat, count: nat, index: nat)
  {
    !(count > size || index > size - count)
  }

  /** The buffer after copy_from: positions [index, index + |data|) replaced by the data. */
  function Overwritten<T>(s: seq<T>, data: seq<T>, index: nat): (r: seq<T>)
    requires CopyFits(|s|, |data|, index)
    ensures |r| == |s|
  {
    s[..index] + data + s[index + |data|..]
  }

  /**
   * copy_from changes exactly [index, index + |data|), which then holds the data; reading that
   * range back, as copy_to does, gives the data.
   */
  lemma OverwrittenSpec<T>(s: seq<T>, data: seq<T>, index: nat)
    requires CopyFits(|s|, |data|, index)
    ensures forall j :: 0 <= j < |s| && !(index <= j < index + |data|) ==> Overwritten(s, data, index)[j] == s[j]
    ensures forall j :: 0 <= j < |data| ==> Overwritten(s, data, index)[index + j] == data[j]
    ensures Overwritten(s, data, index)[index..index + |data|] == data
  {
    var r := Overwritten(s, data, index);
    assert forall j :: 0 <= j < |data| ==> r[index + j] == data[j];
    assert r[index..index + |data|] == data;
  }

  /** param_vector_impl: its buffer. */
  class ParamVector<T(==)> {
    var buffer: seq<T>

    /** The default constructor: no elements. */
    constructor ()
      ensures buffer == []
    {
      buffer := [];
    }

    /** The span and list constructors: the elements in order. */
    constructor FromElements(data: seq<T>)
      ensures buffer == data
    {
      buffer := data;
    }

    /** empty: no elements. */
    predicate Empty()
      reads this
      ensures Empty() <==> |buffer| == 0
    {
      |buffer| == 0
    }

    /** size: the number of elements. */
    function Size(): nat
      reads this
    {
      |buffer|
    }

    /** at: the element at the index; the index is not checked, so it must be in range. */
    function At(index: nat): T
      requires index < |buffer|
      reads this
    {
      buffer[index]
    }

    /** contains: some element equals the item. */
    predicate Contains(item: T)
      reads this
      ensures Contains(item) <==> exists j :: 0 <= j < |buffer| && buffer[j] == item
    {
      item in buffer
    }

    /** set_at: replaces the element at an index in range; nothing else changes. */
    method SetAt(index: nat, item: T)
      requires index < |buffer|
      modifies this
      ensures buffer == old(buffer)[index := item]
    {
      buffer := buffer[index := item];
    }

    /** push_back: the item appended. */
    method PushBack(item: T)
      modifies this
      ensures buffer == old(buffer) + [item]
    {
      buffer := buffer + [item];
    }

    /** remove_at: the element at an index in range erased. */
    method RemoveAt(index: nat)
      requires index < |buffer|
      modifies this
      ensures buffer == Removed(old(buffer), index)
    {
      buffer := buffer[..index] + buffer[index + 1..];
    }

    /** insert_at: the item inserted before an index in range (or at the end). */
    method InsertAt(index: nat, item: T)
      requires index <= |buffer|
      modifies this
      ensures buffer == Inserted(old(buffer), index, item)
    {
      buffer := buffer[..index] + [item] + buffer[index..];
    }

    /** clear: no elements. */
    method Clear()
      modifies this
      ensures buffer == []
    {
      buffer := [];
    }

    /** resize: the new size, with value-initialised elements (fill) after the kept ones. */
    method Resize(size: nat, fill: T)
      modifies this
      ensures buffer == Resized(old(buffer), size, fill)
    {
      if size <= |buffer| {
        buffer := buffer[..size];
      } else {
        buffer := buffer + seq(size - |buffer|, _ => fill);
      }
    }

    /** reserve: capacity only; the elements do not change. */
    method Reserve(capacity: nat)
      modifies this
      ensures buffer == old(buffer)
    {
    }

    /**
     * copy_from: abi_out_of_bounds unless the data fits from the index on; otherwise the data is
     * copied element by element over [index, index + |data|).
     */
    method CopyFrom(data: seq<T>, index: nat) returns (error: Option<ErrorKind>)
      modifies this
      ensures error.Some? <==> !CopyFits(|old(buffer)|, |data|, index)
      ensures error.Some? ==> error.value == OutOfBounds && buffer == old(buffer)
      ensures error.None? ==> buffer == Overwritten(old(buffer), data, index)
    {
      if |data| > |buffer| || index > |buffer| - |data| {
        return Some(OutOfBounds);
      }
      ghost var original := buffer;
      var k := 0;
      while k < |data|
        invariant 0 <= k <= |data| && |buffer| == |original|
        invariant buffer == original[..index] + data[..k] + original[index + k..]
      {
        buffer := buffer[index + k := data[k]];
        k := k + 1;
      }
      error := None;
    }

    /**
     * copy_to: abi_out_of_bounds unless the span fits from the index on; otherwise buffer
     * [index, index + length) is copied element by element into the span and the vector is unchanged.
     */
    method CopyTo(index: nat, data: array<T>) returns (error: Option<ErrorKind>)
      modifies data
      ensures error.Some? <==> !CopyFits(|buffer|, data.Length, index)
      ensures error.Some? ==> error.value == OutOfBounds && data[..] == old(data[..])
      ensures error.None? ==> data[..] == buffer[index..index + data.Length]
    {
      if data.Length > |buffer| || index > |buffer| - data.Length {
        return Some(OutOfBounds);
      }
      var k := 0;
      while k < data.Length
        invariant 0 <= k <= data.Length
        invariant data[..k] == buffer[index..index + k]
      {
        data[k] := buffer[index + k];
        k := k + 1;
      }
      error := None;
    }
  }

  /** object_iterator_impl: a position in a vector it reads. */
  class VectorIterator<T(==)> {
    const vector: ParamVector<T>
    var index: nat

    /** A new iterator starts at index 0. */
    constructor (vector: ParamVector<T>)
      ensures this.vector == vector && index == 0
    {
      this.vector := vector;
      index := 0;
    }

    /** valid: the position is inside the vector. */
    predicate IsValid()
      reads this, vector
    {
      index < |vector.buffer|
    }

    /** current: the element at the position, which must be inside the vector. */
    function Current(): T
      requires IsValid()
      reads this, vector
    {
      vector.buffer[index]
    }

    /** move_to_next: advances, and reports whether the new position is inside the vector. */
    method MoveToNext() returns (more: bool)
      modifies this
      ensures index == old(index) + 1
      ensures more <==> index < |vector.buffer|
    {
      index := index + 1;
      more := index < |vector.buffer|;
    }
  }
}
