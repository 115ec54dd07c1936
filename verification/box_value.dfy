/**
 * box_value: an object holding one primitive, string or span value that may not have been set,
 * box (which makes such an object around a value) and unbox (which asks an object for the
 * box_value interface of the requested type and reads its value).
 */
module BoxValues {
  import opened Wrappers
  import opened Meta
  import opened Guids
  import opened Base
  import opened BaseAbi
  import opened Exceptions
  import opened Implements
  import opened ParamStrings

  /** The GUID of the generic box_value interface, CEAEA735-BA42-4B48-96B3-C2F9BAA4F5E2. */
  const BoxValueId: Guid := Guid(0xCEAEA735, 0xBA42, 0x4B48, [0x96, 0xB3, 0xC2, 0xF9, 0xBA, 0xA4, 0xF5, 0xE2])

  /** box_value<T>: a generic interface whose GUID is derived from the generic GUID and T's signature. */
  function BoxInterface(t: TypeDesc): Interface
  {
    Interface(GenericGuid(BoxValueId, [t]), [])
  }

  /** box_value_impl<T>: its value, which is absent until it is set. */
  class BoxValue<T> {
    var content: Option<T>

    /** The default constructor: nothing stored yet. */
    constructor Empty()
      ensures content.None?
    {
      content := None;
    }

    /** The value constructor: stores the value. */
    constructor (value: T)
      ensures content == Some(value)
    {
      content := Some(value);
    }

    /** has_value: a value has been stored. */
    predicate HasValue()
      reads this
    {
      content.Some?
    }

    /** get: the stored value, or abi_not_initialized when none has been set. */
    function Get(): (r: Raising<T>)
      reads this
      ensures r.Returned? <==> HasValue()
      ensures r.Returned? ==> r.value == content.value
      ensures r.Raised? ==> r.error == NotInitialized
    {
      if content.Some? then Returned(content.value) else Raised(NotInitialized)
    }

    /** set: stores the value; a get that follows returns it. */
    method Set(value: T)
      modifies this
      ensures content == Some(value) && HasValue() && Get() == Returned(value)
    {
      content := Some(value);
    }
  }

  /**
   * unbox<U>: as<box_value<U>> (abi_null_pointer when the object is null, abi_no_interface when it
   * does not implement box_value<U>), then get (abi_not_initialized when the box is empty). A
   * non-null object is given by its searchable interface list.
   */
  function Unbox<T>(obj: Option<seq<Interface>>, requested: TypeDesc, content: Option<T>): (r: Raising<T>)
    ensures obj.None? ==> r == Raised(NullPointer)
    ensures obj.Some? && QuerySlot(obj.value, GenericGuid(BoxValueId, [requested])).None? ==> r == Raised(NoInterface)
    ensures obj.Some? && QuerySlot(obj.value, GenericGuid(BoxValueId, [requested])).Some? ==>
      r == if content.Some? then Returned(content.value) else Raised(NotInitialized)
    ensures r.Returned? <==> obj.Some? && QuerySlot(obj.value, GenericGuid(BoxValueId, [requested])).Some? && content.Some?
  {
    match obj
    case None => Raised(NullPointer)
    case Some(interfaces) =>
      if QuerySlot(interfaces, GenericGuid(BoxValueId, [requested])).None? then Raised(NoInterface)
      else if content.Some? then Returned(content.value)
      else Raised(NotInitialized)
  }

  /**
   * box(value) makes a box_value_impl of the value's type as the first interface; unboxing it as
   * the same type gives the value back, and as a type whose interface GUID differs (and is not the
   * root GUID) raises abi_no_interface.
   */
  lemma UnboxBox<T>(boxed: TypeDesc, requested: TypeDesc, value: T)
    ensures boxed == requested ==> Unbox(Some(Searchable([BoxInterface(boxed)])), requested, Some(value)) == Returned(value)
    ensures GenericGuid(BoxValueId, [requested]) != GenericGuid(BoxValueId, [boxed]) && GenericGuid(BoxValueId, [requested]) != RootIid
      ==> Unbox(Some(Searchable([BoxInterface(boxed)])), requested, Some(value)) == Raised(NoInterface)
  {
    LeafSearchable(BoxInterface(boxed));
    QuerySlotSpec([BoxInterface(boxed)], GenericGuid(BoxValueId, [requested]));
  }

  /**
   * box_value_impl<param_string>: a flag and raw storage for one param_string, which holds a
   * reference in the string store once it has been constructed there.
   */
  class StringBox {
    const store: StringStore
    var initialized: bool
    var value: ParamString

    ghost predicate Valid()
      reads this, store, value
    {
      store.Valid() && value.store == store && (initialized ==> value.Valid())
    }

    /** The reference the box owns: the stored string's handle, once there is one. */
    function Owned(): Option<Handle>
      reads this, value
    {
      if initialized then value.handle else None
    }

    /** The default constructor: no string constructed yet. */
    constructor Empty(store: StringStore)
      requires store.Valid()
      ensures this.store == store && Valid() && !initialized
    {
      this.store := store;
      initialized := false;
      value := new ParamString.Null(store);
    }

    /**
     * set as written: a copy of the string is constructed over the storage without the old one
     * being destroyed, so the reference the old copy held is never freed.
     */
    method SetAsWritten(h: Option<Handle>)
      requires Valid() && (h.Some? ==> h.value in store.strings)
      modifies this, store
      ensures Valid() && initialized && Owned() == h && store.Effect(None, h)
    {
      value := new ParamString.Copy(store, h);
      initialized := true;
    }

    /**
     * set, corrected: the old string is destroyed before the copy is constructed, so the box keeps
     * exactly one reference. The caller's string holds its own reference to h.
     */
    method Set(h: Option<Handle>)
      requires Valid() && (h.Some? ==> h.value in store.strings)
      requires Owned().Some? && Owned() == h ==> store.strings[h.value].refs >= 2
      modifies this, store, value
      ensures Valid() && initialized && Owned() == h && store.Effect(old(Owned()), h)
    {
      if initialized {
        value.Clear();
      }
      value := new ParamString.Copy(store, h);
      initialized := true;
    }

    /** ~box_value_impl: destroys the string if one was constructed, freeing its reference. */
    method Destroy()
      requires Valid()
      modifies this, store, value
      ensures Valid() && Owned().None? && store.Effect(old(Owned()), None)
    {
      if initialized {
        value.Clear();
        initialized := false;
      }
    }
  }

  /**
   * A box set twice to a string and then destroyed, as written: the store ends with one reference
   * too many, so the string is never freed.
   */
  lemma SetTwiceAsWrittenLeaks(m: Strings, h: Handle)
    requires h in m && m[h].refs >= 1
    ensures Freed(RefAdded(RefAdded(m, Some(h)), Some(h)), Some(h)) == m[h := m[h].(refs := m[h].refs + 1)]
    ensures Freed(RefAdded(RefAdded(m, Some(h)), Some(h)), Some(h)) != m
  {
    var once := RefAdded(m, Some(h));
    FreedSpec(once, h);
    assert m[h := m[h].(refs := m[h].refs + 1)] != m by {
      assert m[h := m[h].(refs := m[h].refs + 1)][h].refs != m[h].refs;
    }
  }

  /** With the corrected set, setting twice and destroying leaves the store exactly as it was. */
  lemma SetTwiceRestores(m: Strings, h: Handle)
    requires h in m && m[h].refs >= 1
    ensures Freed(RefAdded(Freed(RefAdded(m, Some(h)), Some(h)), Some(h)), Some(h)) == m
  {
    FreedSpec(m, h);
  }
}
