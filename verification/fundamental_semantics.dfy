/**
 * Fundamental semantics shared by every object: the 32-bit reference counter (which wraps on
 * increment and refuses to go below zero), the pointer wrapper that marks an ABI pointer as taken
 * over, and the enum_ref helper that writes an enumeration back when it goes out of scope.
 */
module FundamentalSemantics {
  const CountModulus: nat := 0x1_0000_0000

  type u32 = x: int | 0 <= x < 0x1_0000_0000

  /** The counter after fetch_add(1): unsigned 32-bit arithmetic wraps to 0 after 2^32 - 1. */
  function Incremented(count: u32): (r: u32)
  {
    (count + 1) % CountModulus
  }

  /** The counter after a decrement that did not terminate: one less, never below zero. */
  function Decremented(count: u32): (r: u32)
    requires count > 0
  {
    count - 1
  }

  /** A decrement undoes an increment that did not wrap, and an increment undoes any allowed decrement. */
  lemma IncrementDecrement(count: u32)
    ensures count < CountModulus - 1 ==> Incremented(count) > 0 && Decremented(Incremented(count)) == count
    ensures count > 0 ==> Incremented(Decremented(count)) == count
    ensures count == CountModulus - 1 ==> Incremented(count) == 0
  {
  }

  /** atomic_ref_count, read and written one operation at a time (memory orders are not modelled). */
  class AtomicRefCount {
    var count: u32

    /** The default counter starts at zero. */
    constructor Default()
      ensures count == 0
    {
      count := 0;
    }

    /** A counter with a given start value. */
    constructor (initial: u32)
      ensures count == initial
    {
      count := initial;
    }

    /** operator=: stores the value. */
    method Assign(value: u32)
      modifies this
      ensures count == value
    {
      count := value;
    }

    /** operator++: returns the incremented value. */
    method Increment() returns (r: u32)
      modifies this
      ensures count == Incremented(old(count)) && r == count
    {
      count := (count + 1) % CountModulus;
      r := count;
    }

    /** operator--: returns old - 1; a decrement from zero terminates the program, so it is excluded. */
    method Decrement() returns (r: u32)
      requires count > 0
      modifies this
      ensures count == Decremented(old(count)) && r == count
      ensures r == 0 <==> old(count) == 1
    {
      var oldCount := count;
      r := oldCount - 1;
      count := r;
    }

    /** The conversion to uint32_t: the current value. */
    function Load(): u32
      reads this
    {
      count
    }
  }

  /** take_over_abi_from_void_ptr: a pointer handed over together with its reference. */
  class TakeOverPointer<P(==)> {
    var abi: P

    constructor (abi: P)
      ensures this.abi == abi
    {
      this.abi := abi;
    }

    /** operator=: replaces the pointer. */
    method Assign(abi: P)
      modifies this
      ensures this.abi == abi
    {
      this.abi := abi;
    }

    /** to<P>() and the conversion to void*: the stored pointer itself. */
    function To(): P
      reads this
    {
      abi
    }

    /** The comparisons compare the stored pointers. */
    predicate SamePointer(other: TakeOverPointer<P>)
      reads this, other
    {
      abi == other.abi
    }
  }

  /** A variable of enumeration type, seen through its underlying integer value. */
  class EnumVariable {
    var value: int

    constructor (value: int)
      ensures this.value == value
    {
      this.value := value;
    }
  }

  /**
   * enum_ref: a copy of the referenced enumeration's underlying value that callers may write
   * through a pointer, written back into the enumeration when the helper is destroyed.
   */
  class EnumRef {
    const target: EnumVariable
    var value: int

    /** Captures the current underlying value. */
    constructor (target: EnumVariable)
      ensures this.target == target && value == target.value
    {
      this.target := target;
      value := target.value;
    }

    /** A write through the underlying_type* conversion: only the copy changes. */
    method WriteThrough(v: int)
      modifies this
      ensures value == v
    {
      value := v;
    }

    /** ~enum_ref: stores the copy back into the enumeration. */
    method Destroy()
      modifies target
      ensures target.value == value
    {
      target.value := value;
    }
  }
}
