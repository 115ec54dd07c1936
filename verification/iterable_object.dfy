/**
 * object_iterator and iterable_object as a caller sees them: an iterator implementation that walks
 * a fixed order of items, the client-side iterator whose null value is the end iterator, begin and
 * end, and the range-for loop built from them.
 */
module IterableObjects {
  import opened Wrappers

  /**
   * An object_iterator implementation seen through its ABI: the items it produces, in order, and
   * its position among them.
   */
  class Cursor<T> {
    const items: seq<T>
    var index: nat

    /** A new iterator stands at the first item. */
    constructor (items: seq<T>)
      ensures this.items == items && index == 0
    {
      this.items := items;
      index := 0;
    }

    /** valid: not past the last item. */
    predicate IsValid()
      reads this
    {
      index < |items|
    }

    /** current: the item at the position. */
    function Current(): T
      requires IsValid()
      reads this
    {
      items[index]
    }

    /** move_to_next: advances, and reports whether an item is still there. */
    method MoveToNext() returns (more: bool)
      requires IsValid()
      modifies this
      ensures index == old(index) + 1
      ensures more <==> IsValid()
    {
      index := index + 1;
      more := index < |items|;
    }
  }

  /** The client-side object_iterator: a reference to an implementation, or null, which is the end iterator. */
  type Iterator<T> = Option<Cursor<T>>

  /** end(obj): a default-constructed, null, iterator. */
  function End<T>(): (r: Iterator<T>)
    ensures r.None?
  {
    None
  }

  /** begin(obj): the object's iterator when it is valid, otherwise the end iterator. */
  function Begin<T>(c: Cursor<T>): (r: Iterator<T>)
    reads c
    ensures r.Some? <==> c.IsValid()
    ensures r.Some? ==> r.value == c
  {
    if c.IsValid() then Some(c) else End()
  }

  /** operator++: moves the implementation on, and turns into the end iterator when move_to_next reports false. */
  method Increment<T>(it: Iterator<T>) returns (next: Iterator<T>)
    requires it.Some? && it.value.IsValid()
    modifies it.value
    ensures it.value.index == old(it.value.index) + 1
    ensures next == if it.value.IsValid() then it else End()
  {
    var more := it.value.MoveToNext();
    if !more {
      next := End();
    } else {
      next := it;
    }
  }

  /**
   * for (auto x : obj): begin, then dereference and increment until the iterator compares equal to
   * end. The loop produces every item of the object's iterator once, in its order.
   */
  method ForEach<T>(c: Cursor<T>) returns (produced: seq<T>)
    requires c.index == 0
    modifies c
    ensures produced == c.items
    ensures c.index == |c.items|
  {
    produced := [];
    var it := Begin(c);
    while it != End()
      invariant it.Some? ==> it.value == c && c.IsValid()
      invariant it.None? ==> c.index == |c.items|
      invariant c.index <= |c.items|
      invariant produced == c.items[..c.index]
      decreases |c.items| - c.index
    {
      produced := produced + [it.value.Current()];
      it := Increment(it);
    }
  }
}
