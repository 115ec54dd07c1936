/**
 * Interface identities at the ABI: the root interface GUID, the fixed GUID of param_string, and
 * the GUIDs of generic interfaces, derived by hashing the generic base id followed by the
 * signatures of the type arguments.
 */
module BaseAbi {
  import opened Meta
  import opened Guids
  import opened Base

  /** The root interface (unknown_object): 00000000-0000-0000-C000-000000000046, the IUnknown IID of COM. */
  const RootIid: Guid := Guid(0, 0, 0, [0xC0, 0x00, 0x00, 0x00, 0x00, 0x00, 0x00, 0x46])

  /** The ABI GUID of param_string: 47534958-7061-7261-0605-737472696E67. */
  const ParamStringId: Guid := Guid(Prefix, 0x7061, 0x7261, [0x06, 0x05, 0x73, 0x74, 0x72, 0x69, 0x6E, 0x67])

  /** param_string declares the primitive identity with its own GUID. */
  const ParamStringType: TypeDesc := AbiPrimitiveType(ParamStringId)

  /** The signatures of the type arguments, in order. */
  function SignatureList(args: seq<TypeDesc>): (r: seq<seq<byte>>)
    ensures |r| == |args| && forall i :: 0 <= i < |args| ==> r[i] == Signature(args[i])
  {
    seq(|args|, i requires 0 <= i < |args| => Signature(args[i]))
  }

  /** The argument signatures one after another: concat_arrays of type_signature_v<Args>... */
  function Signatures(args: seq<TypeDesc>): seq<byte>
  {
    ConcatArrays(SignatureList(args))
  }

  /** Concatenations of equally long non-empty blocks are equal only when the block lists are. */
  lemma {:induction false} ConcatBlocksInjective(a: seq<seq<byte>>, b: seq<seq<byte>>, n: nat)
    requires n > 0
    requires forall i :: 0 <= i < |a| ==> |a[i]| == n
    requires forall i :: 0 <= i < |b| ==> |b[i]| == n
    requires ConcatArrays(a) == ConcatArrays(b)
    ensures a == b
  {
    if a != [] && b != [] {
      var s := ConcatArrays(a);
      assert s == a[0] + ConcatArrays(a[1..]) && s == b[0] + ConcatArrays(b[1..]);
      assert a[0] == s[..n] == b[0];
      assert ConcatArrays(a[1..]) == s[n..] == ConcatArrays(b[1..]);
      ConcatBlocksInjective(a[1..], b[1..], n);
      assert a == [a[0]] + a[1..] && b == [b[0]] + b[1..];
    }
  }

  /** The bytes a generic interface GUID is derived from: to_array(base id) followed by the argument signatures. */
  function GenericInput(baseId: Guid, args: seq<TypeDesc>): seq<byte>
  {
    GuidBytes(baseId, true) + Signatures(args)
  }

  /** guid_storage of a generic interface T<Args...>: create_guid_from_bytes of the generic input. */
  function GenericGuid(baseId: Guid, args: seq<TypeDesc>): Guid
  {
    CreateGuidFromBytes(GenericInput(baseId, args))
  }

  /**
   * The hashed input determines the generic base id and, argument by argument, the kind and GUID
   * of every type argument: generic GUIDs can only coincide through a digest collision.
   */
  lemma GenericInputInjective(baseId1: Guid, args1: seq<TypeDesc>, baseId2: Guid, args2: seq<TypeDesc>)
    requires GenericInput(baseId1, args1) == GenericInput(baseId2, args2)
    ensures baseId1 == baseId2 && |args1| == |args2|
    ensures forall i :: 0 <= i < |args1| ==> IdentityOf(args1[i]) == IdentityOf(args2[i]) && SignatureGuid(args1[i]) == SignatureGuid(args2[i])
  {
    var s, t := GenericInput(baseId1, args1), GenericInput(baseId2, args2);
    assert s[..16] == GuidBytes(baseId1, true) && t[..16] == GuidBytes(baseId2, true);
    assert s[16..] == Signatures(args1) && t[16..] == Signatures(args2);
    GuidOfGuidBytes(baseId1);
    GuidOfGuidBytes(baseId2);
    var list1, list2 := SignatureList(args1), SignatureList(args2);
    ConcatBlocksInjective(list1, list2, 32);
    forall i | 0 <= i < |args1|
      ensures IdentityOf(args1[i]) == IdentityOf(args2[i]) && SignatureGuid(args1[i]) == SignatureGuid(args2[i])
    {
      assert list1[i] == list2[i];
      SignatureInjective(args1[i], args2[i]);
    }
  }

  /** param_string's signature is a primitive signature, yet differs from that of every fixed primitive. */
  lemma ParamStringSignatureDistinct(p: Primitive)
    ensures IdentityOf(ParamStringType) == PrimitiveIdentity
    ensures Signature(ParamStringType) != Signature(PrimitiveType(p))
  {
    assert PrimitiveGuid(p).data2 == 0;
    SignatureInjective(ParamStringType, PrimitiveType(p));
  }
}

/**
 * unknown_object: the owning handle every interface wrapper derives from. It holds one ABI
 * pointer (or null) and one reference to the object behind it; copying adds a reference, moving
 * hands the pointer over, and dropping the pointer releases it.
 */
module UnknownObjects {
  import opened Wrappers
  import opened Guids
  import opened Exceptions
  import opened Implements

  class UnknownObject {
    const heap: ObjectHeap
    var abi: Option<AbiPtr>

    /** The heap is consistent and a non-null pointer points into a live object. */
    ghost predicate Valid()
      reads this, heap
    {
      heap.Valid() && (abi.Some? ==> heap.Live(abi.value))
    }

    /** unknown_object() and unknown_object(nullptr): a null handle. */
    constructor Null(heap: ObjectHeap)
      ensures this.heap == heap && abi.None?
    {
      this.heap := heap;
      abi := None;
    }

    /** unknown_object(take_over_abi_from_void_ptr): adopts the pointer and the reference it carries. */
    constructor TakeOver(heap: ObjectHeap, p: Option<AbiPtr>)
      ensures this.heap == heap && abi == p
    {
      this.heap := heap;
      abi := p;
    }

    /** create_from_abi: adds a reference for a non-null pointer and adopts it. */
    constructor FromAbi(heap: ObjectHeap, p: Option<AbiPtr>)
      requires heap.Valid() && (p.Some? ==> heap.Live(p.value))
      modifies heap
      ensures this.heap == heap && abi == p && Valid()
      ensures heap.Effect(None, OwnerOf(p))
    {
      if p.Some? {
        var _ := heap.AddRef(p.value.owner);
      }
      this.heap := heap;
      abi := p;
    }

    /**
     * make<T, Interface>: a new object whose count 1 is owned by the handle, which points at the
     * vtable of the requested interface in the object's searchable list.
     */
    constructor Make(heap: ObjectHeap, declared: seq<Interface>, uniqueRelease: bool, requested: Interface)
      requires heap.Valid() && declared != [] && requested in Searchable(declared)
      modifies heap
      ensures this.heap == heap && Valid() && abi.Some?
      ensures abi.value.owner !in old(heap.objects)
      ensures heap.objects == old(heap.objects)[abi.value.owner := ObjectRecord(1, Searchable(declared), uniqueRelease)]
      ensures abi.value.slot == IndexOf(Searchable(declared), requested)
      ensures Searchable(declared)[abi.value.slot] == requested
      ensures heap.moduleCount == old(heap.moduleCount) + 1
    {
      var o := heap.Create(declared, uniqueRelease);
      this.heap := heap;
      abi := Some(AbiPtr(o, IndexOf(Searchable(declared), requested)));
    }

    /** make_as_first<T>: make with the first declared interface, whose vtable is the first one. */
    constructor MakeAsFirst(heap: ObjectHeap, declared: seq<Interface>, uniqueRelease: bool)
      requires heap.Valid() && declared != []
      modifies heap
      ensures this.heap == heap && Valid() && abi.Some? && abi.value.slot == 0
      ensures abi.value.owner !in old(heap.objects)
      ensures heap.objects == old(heap.objects)[abi.value.owner := ObjectRecord(1, Searchable(declared), uniqueRelease)]
      ensures heap.objects[abi.value.owner].interfaces[0] == FirstInterface(declared)
      ensures heap.moduleCount == old(heap.moduleCount) + 1
    {
      SearchableIsUniqueOfLevels(declared);
      var o := heap.Create(declared, uniqueRelease);
      this.heap := heap;
      abi := Some(AbiPtr(o, IndexOf(Searchable(declared), declared[0])));
    }

    /** The copy constructor: shares the pointer and adds a reference. */
    constructor Copy(other: UnknownObject)
      requires other.Valid()
      modifies other.heap
      ensures heap == other.heap && abi == other.abi && Valid() && other.Valid()
      ensures heap.Effect(None, OwnerOf(abi))
    {
      if other.abi.Some? {
        var _ := other.heap.AddRef(other.abi.value.owner);
      }
      heap := other.heap;
      abi := other.abi;
    }

    /** The move constructor: takes the pointer and leaves the source null; no count changes. */
    constructor Move(other: UnknownObject)
      modifies other
      ensures heap == other.heap && abi == old(other.abi) && other.abi.None?
    {
      heap := other.heap;
      abi := other.abi;
      new;
      other.abi := None;
    }

    /** The private release: a non-null pointer is cleared and then released. */
    method ReleaseAbi()
      requires Valid()
      modifies this, heap
      ensures abi.None? && Valid()
      ensures heap.Effect(OwnerOf(old(abi)), None)
    {
      if abi.Some? {
        var owner := abi.value.owner;
        abi := None;
        var _ := heap.Release(owner);
      }
    }

    /** ~unknown_object: releases the pointer it holds. */
    method Destroy()
      requires Valid()
      modifies this, heap
      ensures abi.None? && Valid()
      ensures heap.Effect(OwnerOf(old(abi)), None)
    {
      ReleaseAbi();
    }

    /** operator=(nullptr): releases the pointer it holds. */
    method AssignNull()
      requires Valid()
      modifies this, heap
      ensures abi.None? && Valid()
      ensures heap.Effect(OwnerOf(old(abi)), None)
    {
      ReleaseAbi();
    }

    /**
     * Two distinct handles on one object each own a reference to it, so it is held at least twice:
     * releasing one of them cannot destroy what the other still points at.
     */
    ghost predicate OwnsSeparately(right: UnknownObject)
      reads this, right, heap
    {
      this != right && abi.Some? && right.abi.Some? && abi.value.owner == right.abi.value.owner ==>
        abi.value.owner in heap.objects && heap.objects[abi.value.owner].count >= 2
    }

    /** Copy assignment: unless assigned to itself, releases its pointer, then shares the right one and adds a reference. */
    method AssignCopy(right: UnknownObject)
      requires Valid() && right.Valid() && right.heap == heap && OwnsSeparately(right)
      modifies this, heap
      ensures Valid() && right.Valid()
      ensures this == right ==> abi == old(abi) && unchanged(heap)
      ensures this != right ==> abi == old(right.abi) && heap.Effect(OwnerOf(old(abi)), OwnerOf(abi))
    {
      if this != right {
        ReleaseAbi();
        abi := right.abi;
        if abi.Some? {
          var _ := heap.AddRef(abi.value.owner);
        }
      }
    }

    /** Move assignment: unless assigned to itself, releases its pointer and takes the right one, leaving it null. */
    method AssignMove(right: UnknownObject)
      requires Valid() && right.Valid() && right.heap == heap && OwnsSeparately(right)
      modifies this, right, heap
      ensures Valid() && right.Valid()
      ensures this == right ==> abi == old(abi) && unchanged(heap)
      ensures this != right ==> abi == old(right.abi) && right.abi.None? && heap.Effect(OwnerOf(old(abi)), None)
    {
      if this != right {
        ReleaseAbi();
        abi := right.abi;
        right.abi := None;
      }
    }

    /** get_abi: the pointer held, without any reference change. */
    function GetAbi(): Option<AbiPtr>
      reads this
    {
      abi
    }

    /** operator==: two handles are equal when they hold the same pointer. */
    predicate Equals(other: UnknownObject)
      reads this, other
    {
      abi == other.abi
    }

    /** operator bool: the pointer is not null. */
    predicate IsValid()
      reads this
    {
      abi.Some?
    }

    /** A store through put_abi_dangerous: the pointer written replaces the old one, which is not released. */
    method StoreDangerous(p: Option<AbiPtr>)
      modifies this
      ensures abi == p
    {
      abi := p;
    }

    /** put_abi followed by a store: the old pointer is released first, then the written one is adopted. */
    method PutAbi(p: Option<AbiPtr>)
      requires Valid()
      modifies this, heap
      ensures abi == p
      ensures heap.Effect(OwnerOf(old(abi)), None)
    {
      ReleaseAbi();
      StoreDangerous(p);
    }

    /** detach_abi: hands out the pointer with its reference and leaves the handle null. */
    method Detach() returns (p: Option<AbiPtr>)
      modifies this
      ensures p == old(abi) && abi.None?
    {
      p := abi;
      abi := None;
    }

    /**
     * as_impl: the interface To with GUID id. A null source gives a null result, raising
     * abi_null_pointer when raising; otherwise query_interface fills the result, and a failed query
     * leaves it null, raising abi_no_interface when raising.
     */
    method Query(id: Guid, raising: bool) returns (result: UnknownObject, error: Option<ErrorKind>)
      requires Valid()
      modifies heap
      ensures Valid() && fresh(result) && result.heap == heap && result.Valid()
      ensures abi.None? ==> result.abi.None? && error == (if raising then Some(NullPointer) else None)
      ensures abi.Some? ==> result.abi == SlotOf(abi.value.owner, QuerySlot(old(heap.objects[abi.value.owner].interfaces), id))
      ensures abi.Some? ==> error == (if raising && result.abi.None? then Some(NoInterface) else None)
      ensures result.abi.Some? ==> heap.Effect(None, OwnerOf(abi))
      ensures result.abi.None? ==> unchanged(heap)
    {
      result := new UnknownObject.Null(heap);
      if abi.None? {
        error := if raising then Some(NullPointer) else None;
        return;
      }
      var code, out := heap.QueryInterface(abi.value.owner, id, true);
      result.abi := out;
      error := if raising && !NoError(code) then Some(NoInterface) else None;
    }

    /** as<To>(): the converted handle or the error raised. */
    method As(id: Guid) returns (result: UnknownObject, error: Option<ErrorKind>)
      requires Valid()
      modifies heap
      ensures Valid() && fresh(result) && result.heap == heap && result.Valid()
      ensures abi.None? ==> result.abi.None? && error == Some(NullPointer)
      ensures abi.Some? ==> result.abi == SlotOf(abi.value.owner, QuerySlot(old(heap.objects[abi.value.owner].interfaces), id))
      ensures abi.Some? ==> (error.Some? <==> result.abi.None?) && (error.Some? ==> error.value == NoInterface)
      ensures result.abi.Some? ==> heap.Effect(None, OwnerOf(abi))
      ensures result.abi.None? ==> unchanged(heap)
    {
      result, error := Query(id, true);
    }

    /** try_as<To>(): the converted handle, null when the source is null or does not implement To. */
    method TryAs(id: Guid) returns (result: UnknownObject)
      requires Valid()
      modifies heap
      ensures Valid() && fresh(result) && result.heap == heap && result.Valid()
      ensures abi.None? ==> result.abi.None?
      ensures abi.Some? ==> result.abi == SlotOf(abi.value.owner, QuerySlot(old(heap.objects[abi.value.owner].interfaces), id))
      ensures result.abi.Some? ==> heap.Effect(None, OwnerOf(abi))
      ensures result.abi.None? ==> unchanged(heap)
    {
      var error;
      result, error := Query(id, false);
    }
  }

  /** swap: exchanges the pointers of two handles; no count changes. */
  method Swap(left: UnknownObject, right: UnknownObject)
    modifies left, right
    ensures left != right ==> left.abi == old(right.abi) && right.abi == old(left.abi)
    ensures left == right ==> left.abi == old(left.abi)
  {
    left.abi, right.abi := right.abi, left.abi;
  }

  /** The pointer to a slot of an object, if a slot was found. */
  function SlotOf(o: ObjId, slot: Option<nat>): (r: Option<AbiPtr>)
    ensures r.Some? <==> slot.Some?
  {
    match slot
    case Some(s) => Some(AbiPtr(o, s))
    case None => None
  }
}
