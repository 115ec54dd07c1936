/**
 * Ref-counted immutable strings passed across module boundaries. The storage behind a handle is
 * owned by the string library (create_param_string, create_param_string_ref, free_param_string,
 * get_param_string_data/size), seen here as a store of reference-counted texts. A param_string
 * (and basic_param_string, which shares its ownership code) holds one handle, or null.
 */
module ParamStrings {
  import opened Wrappers
  import opened Meta
  import opened Guids
  import opened Exceptions
  import opened HashUtils

  type Handle = nat

  /** A stored text and the number of references to it. */
  datatype StoredString = StoredString(text: seq<char>, refs: nat)

  type Strings = map<Handle, StoredString>

  /** create_param_string_ref: one more reference to a non-null handle; a null handle stays null. */
  function RefAdded(m: Strings, h: Option<Handle>): Strings
  {
    if h.Some? && h.value in m then m[h.value := m[h.value].(refs := m[h.value].refs + 1)] else m
  }

  /** free_param_string: one reference less; the storage goes when the last reference does. */
  function Freed(m: Strings, h: Option<Handle>): Strings
  {
    if h.Some? && h.value in m then
      (if m[h.value].refs <= 1 then m - {h.value} else m[h.value := m[h.value].(refs := m[h.value].refs - 1)])
    else m
  }

  /** The handle whose storage a free releases, if any. */
  function ReleasedBy(m: Strings, h: Option<Handle>): (r: seq<Handle>)
    ensures |r| <= 1
  {
    if h.Some? && h.value in m && m[h.value].refs <= 1 then [h.value] else []
  }

  /**
   * A free of a handle keeps every other string and its text; a free right after taking a
   * reference restores the store exactly.
   */
  lemma FreedSpec(m: Strings, h: Handle)
    requires h in m && m[h].refs >= 1
    ensures forall g :: g != h ==> (g in Freed(m, Some(h)) <==> g in m)
    ensures forall g :: g != h && g in m ==> Freed(m, Some(h))[g] == m[g]
    ensures h in Freed(m, Some(h)) <==> m[h].refs >= 2
    ensures h in Freed(m, Some(h)) ==> Freed(m, Some(h))[h] == m[h].(refs := m[h].refs - 1)
    ensures Freed(RefAdded(m, Some(h)), Some(h)) == m
  {
    assert RefAdded(m, Some(h))[h := m[h]] == m;
  }

  /** The store of string storage behind the handles. */
  class StringStore {
    var strings: Strings
    var released: seq<Handle>
    var nextHandle: Handle

    /** Every stored string is referenced; released storage is gone and released once. */
    ghost predicate Valid()
      reads this
    {
      && (forall h :: h in strings ==> strings[h].refs >= 1 && h < nextHandle)
      && (forall k :: 0 <= k < |released| ==> released[k] !in strings && released[k] < nextHandle)
      && NoDuplicates(released)
    }

    /** get_param_string_data and get_param_string_size: the stored text; the empty text for a null handle. */
    function TextOf(h: Option<Handle>): seq<char>
      reads this
    {
      if h.Some? && h.value in strings then strings[h.value].text else []
    }

    /** A free of one optional handle followed by a new reference to another; nothing else changes. */
    twostate predicate Effect(freed: Option<Handle>, added: Option<Handle>)
      reads this
    {
      && strings == RefAdded(Freed(old(strings), freed), added)
      && released == old(released) + ReleasedBy(old(strings), freed)
      && nextHandle == old(nextHandle)
    }

    constructor ()
      ensures Valid() && strings == map[] && released == []
    {
      strings := map[];
      released := [];
      nextHandle := 0;
    }

    /** create_param_string: new storage holding the text, with one reference. */
    method Create(text: seq<char>) returns (h: Handle)
      requires Valid()
      modifies this
      ensures Valid() && h !in old(strings)
      ensures strings == old(strings)[h := StoredString(text, 1)] && released == old(released)
    {
      h := nextHandle;
      strings := strings[h := StoredString(text, 1)];
      nextHandle := nextHandle + 1;
    }

    /** create_param_string_ref: the same handle back, with one more reference (null stays null). */
    method AddRef(h: Option<Handle>) returns (r: Option<Handle>)
      requires Valid() && (h.Some? ==> h.value in strings)
      modifies this
      ensures Valid() && r == h && Effect(None, h)
    {
      strings := RefAdded(strings, h);
      r := h;
    }

    /** free_param_string: one reference less; the storage is released with its last reference. */
    method Free(h: Handle)
      requires Valid() && h in strings
      modifies this
      ensures Valid() && Effect(Some(h), None)
    {
      FreedSpec(strings, h);
      released := released + ReleasedBy(strings, Some(h));
      strings := Freed(strings, Some(h));
    }
  }

  /** param_string: a handle to stored text, or null. */
  class ParamString {
    const store: StringStore
    var handle: Option<Handle>

    /** The store is consistent and a non-null handle refers to stored text. */
    ghost predicate Valid()
      reads this, store
    {
      store.Valid() && (handle.Some? ==> handle.value in store.strings)
    }

    /** data() and size() as one text; the conversion to a string view. */
    function Text(): seq<char>
      reads this, store
    {
      store.TextOf(handle)
    }

    /** param_string(): a new, non-null, empty string. */
    constructor Default(store: StringStore)
      requires store.Valid()
      modifies store
      ensures this.store == store && Valid() && handle.Some? && handle.value !in old(store.strings)
      ensures Text() == [] && store.strings == old(store.strings)[handle.value := StoredString([], 1)]
    {
      var h := store.Create([]);
      this.store := store;
      handle := Some(h);
    }

    /** param_string(nullptr): a null handle. */
    constructor Null(store: StringStore)
      ensures this.store == store && handle.None?
    {
      this.store := store;
      handle := None;
    }

    /** param_string(take_over_abi_from_void_ptr): adopts the handle and its reference. */
    constructor TakeOver(store: StringStore, h: Option<Handle>)
      ensures this.store == store && handle == h
    {
      this.store := store;
      handle := h;
    }

    /** param_string(str, size) and the view constructors: new storage holding the text. */
    constructor FromText(store: StringStore, text: seq<char>)
      requires store.Valid()
      modifies store
      ensures this.store == store && Valid() && handle.Some? && handle.value !in old(store.strings)
      ensures Text() == text && store.strings == old(store.strings)[handle.value := StoredString(text, 1)]
    {
      var h := store.Create(text);
      this.store := store;
      handle := Some(h);
    }

    /** The copy constructor and create_from_abi: the same handle with one more reference. */
    constructor Copy(store: StringStore, h: Option<Handle>)
      requires store.Valid() && (h.Some? ==> h.value in store.strings)
      modifies store
      ensures this.store == store && handle == h && Valid() && store.Effect(None, h)
      ensures Text() == old(store.TextOf(h))
    {
      var r := store.AddRef(h);
      this.store := store;
      handle := r;
    }

    /** The move constructor: takes the handle and leaves the source null. */
    constructor Move(other: ParamString)
      modifies other
      ensures store == other.store && handle == old(other.handle) && other.handle.None?
    {
      store := other.store;
      handle := other.handle;
      new;
      other.handle := None;
    }

    /** clear and the destructor: a non-null handle is freed once and nulled; on a null handle nothing happens. */
    method Clear()
      requires Valid()
      modifies this, store
      ensures Valid() && handle.None? && store.Effect(old(handle), None)
    {
      if handle.Some? {
        store.Free(handle.value);
        handle := None;
      }
    }

    /**
     * Copy assignment as written: clear, then a new reference to the right handle. Assigning a
     * string to itself frees its reference and leaves it null.
     */
    method AssignCopyAsWritten(right: ParamString)
      requires Valid() && right.Valid() && right.store == store
      requires this != right && handle.Some? && right.handle == handle ==> store.strings[handle.value].refs >= 2
      modifies this, store
      ensures Valid()
      ensures this != right ==> handle == old(right.handle) && store.Effect(old(handle), handle)
      ensures this == right ==> handle.None? && store.Effect(old(handle), None)
    {
      Clear();
      handle := store.AddRef(right.handle);
    }

    /**
     * Copy assignment, corrected with the self-assignment check unknown_object has: assigning a
     * string to itself changes nothing.
     */
    method AssignCopy(right: ParamString)
      requires Valid() && right.Valid() && right.store == store
      requires this != right && handle.Some? && right.handle == handle ==> store.strings[handle.value].refs >= 2
      modifies this, store
      ensures Valid()
      ensures this != right ==> handle == old(right.handle) && store.Effect(old(handle), handle)
      ensures this == right ==> handle == old(handle) && unchanged(store)
    {
      if this != right {
        Clear();
        handle := store.AddRef(right.handle);
      }
    }

    /** Move assignment: clear, then take the right handle and null it (a self-move leaves the string null). */
    method AssignMove(right: ParamString)
      requires Valid() && right.Valid() && right.store == store
      requires this != right && handle.Some? && right.handle == handle ==> store.strings[handle.value].refs >= 2
      modifies this, right, store
      ensures Valid() && right.handle.None? && store.Effect(old(handle), None)
      ensures this != right ==> handle == old(right.handle)
      ensures this == right ==> handle.None?
    {
      Clear();
      handle := right.handle;
      right.handle := None;
    }

    /** get_add_ref: the handle with one more reference, for the caller to own. */
    method GetAddRef() returns (h: Option<Handle>)
      requires Valid()
      modifies store
      ensures Valid() && h == handle && store.Effect(None, handle)
    {
      h := store.AddRef(handle);
    }

    /** operator bool: the handle is not null. */
    predicate IsValid()
      reads this
    {
      handle.Some?
    }

    /** operator[]: the character at the index, or abi_out_of_bounds past the end. */
    function At(index: nat): (r: Raising<char>)
      reads this, store
      ensures r.Returned? <==> index < |Text()|
      ensures r.Returned? ==> r.value == Text()[index]
      ensures r.Raised? ==> r.error == OutOfBounds
    {
      if index < |Text()| then Returned(Text()[index]) else Raised(OutOfBounds)
    }

    /** empty: the size is 0; a null string is empty too. */
    predicate Empty()
      reads this, store
      ensures Empty() <==> |Text()| == 0
      ensures handle.None? ==> Empty()
    {
      |Text()| == 0
    }

    /** put_abi and a store through the slot: the old handle is cleared, then the written one adopted. */
    method PutAbi(h: Option<Handle>)
      requires Valid()
      modifies this, store
      ensures handle == h && store.Effect(old(handle), None)
    {
      Clear();
      handle := h;
    }

    /** detach_abi: hands out the handle with its reference and leaves the string null; nothing is freed. */
    method Detach() returns (h: Option<Handle>)
      modifies this
      ensures h == old(handle) && handle.None?
    {
      h := handle;
      handle := None;
    }
  }

  /** to_param_string(guid): a new string holding the 36-character text form, which parses back to the GUID. */
  method GuidToParamString(store: StringStore, id: Guid) returns (s: ParamString)
    requires store.Valid()
    modifies store
    ensures fresh(s) && s.store == store && s.Valid() && s.handle.Some?
    ensures s.Text() == GuidText(id) && |s.Text()| == 36 && Parsed(s.Text()) == id
    ensures store.strings == old(store.strings)[s.handle.value := StoredString(GuidText(id), 1)]
  {
    ParsedGuidText(id);
    s := new ParamString.FromText(store, GuidText(id));
  }

  /** The character hashes std::hash<param_string> combines, given the hash h of one character. */
  function CharHashes(text: seq<char>, h: int -> bv64): (r: seq<bv64>)
    ensures |r| == |text|
  {
    seq(|text|, i requires 0 <= i < |text| => h(text[i] as int))
  }

  /** std::hash<param_string>: hash_combine of every character in order, starting from 0. */
  method StringHash(text: seq<char>, h: int -> bv64) returns (result: bv64)
    ensures result == HashAll(CharHashes(text, h))
  {
    result := 0;
    var i := 0;
    while i < |text|
      invariant 0 <= i <= |text|
      invariant result == HashAll(CharHashes(text, h)[..i])
    {
      HashAllPrefixStep(CharHashes(text, h), i);
      result := Combine64(result, h(text[i] as int));
      i := i + 1;
    }
    assert CharHashes(text, h)[..i] == CharHashes(text, h);
  }

  /**
   * A string without upper-case letters hashes as the case-insensitive hash does; strings the
   * case-insensitive comparer tells apart only by case hash differently in general.
   */
  lemma StringHashOfLowered(text: seq<char>, h: int -> bv64)
    requires Lowered(text) == text
    ensures HashAll(CharHashes(text, h)) == HashAll(LoweredHashes(text, h))
  {
    forall i | 0 <= i < |text|
      ensures CharHashes(text, h)[i] == LoweredHashes(text, h)[i]
    {
      assert ToLower(text[i]) == Lowered(text)[i];
    }
    assert CharHashes(text, h) == LoweredHashes(text, h);
  }
}
