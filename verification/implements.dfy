/**
 * Objects implemented in this module: the searchable interface list of an implementation (its
 * declared interfaces followed by everything they inherit, level by level, first occurrence
 * kept), the interface lookup by GUID, and the reference-counted lifetime of every object —
 * construction, query_interface, add_ref and release — over a heap of live objects.
 */
module Implements {
  import opened Wrappers
  import opened Meta
  import opened Guids
  import opened BaseAbi
  import opened Exceptions

  /** An interface: its GUID and the interfaces its inherits<...> base names directly. */
  datatype Interface = Interface(id: Guid, bases: seq<Interface>)

  // ------------------------------------------------------------ interface lists

  /** The height of an interface's inheritance tree. */
  function Depth(i: Interface): nat
    decreases i, 1
  {
    1 + MaxDepth(i.bases)
  }

  /** The greatest height among a list of interfaces (0 for none). */
  function MaxDepth(xs: seq<Interface>): nat
    decreases xs, 0
  {
    if xs == [] then 0 else
      var d := Depth(xs[0]);
      var rest := MaxDepth(xs[1..]);
      if d < rest then rest else d
  }

  /** The direct bases of every interface of the list, in order (the packed_type of one level). */
  function Level(xs: seq<Interface>): seq<Interface>
  {
    if xs == [] then [] else xs[0].bases + Level(xs[1..])
  }

  lemma {:induction false} MaxDepthBound(xs: seq<Interface>, k: nat)
    requires forall x :: x in xs ==> Depth(x) <= k
    ensures MaxDepth(xs) <= k
  {
    if xs != [] {
      MaxDepthBound(xs[1..], k);
    }
  }

  lemma {:induction false} MaxDepthAtLeast(xs: seq<Interface>, x: Interface)
    requires x in xs
    ensures Depth(x) <= MaxDepth(xs)
  {
    if xs[0] != x {
      MaxDepthAtLeast(xs[1..], x);
    }
  }

  lemma {:induction false} LevelMember(xs: seq<Interface>, x: Interface)
    requires x in Level(xs)
    ensures exists y :: y in xs && x in y.bases
  {
    if x !in xs[0].bases {
      LevelMember(xs[1..], x);
      var y :| y in xs[1..] && x in y.bases;
      assert y in xs;
    }
  }

  /** One level up the inheritance trees is strictly lower. */
  lemma LevelDepth(xs: seq<Interface>)
    requires xs != []
    ensures MaxDepth(Level(xs)) < MaxDepth(xs)
  {
    MaxDepthAtLeast(xs, xs[0]);
    forall x | x in Level(xs)
      ensures Depth(x) <= MaxDepth(xs) - 1
    {
      LevelMember(xs, x);
      var y :| y in xs && x in y.bases;
      MaxDepthAtLeast(y.bases, x);
      MaxDepthAtLeast(xs, y);
    }
    MaxDepthBound(Level(xs), MaxDepth(xs) - 1);
  }

  /** get_interfaces_recursively_impl: the bases of the list, then their inherited ones, deduplicated. */
  function Inherited(xs: seq<Interface>): seq<Interface>
    decreases MaxDepth(xs)
  {
    if xs == [] then []
    else
      LevelDepth(xs);
      Unique(Level(xs) + Inherited(Level(xs)))
  }

  /**
   * get_interfaces_recursively: the declared interfaces followed by everything they inherit,
   * deduplicated; for an implementation this is the list query_interface searches.
   */
  function Searchable(declared: seq<Interface>): seq<Interface>
  {
    Unique(declared + Inherited(declared))
  }

  /** Every level of the inheritance trees one after another: the list itself, its bases, theirs, ... */
  function AllLevels(xs: seq<Interface>): seq<Interface>
    decreases MaxDepth(xs)
  {
    if xs == [] then []
    else
      LevelDepth(xs);
      xs + AllLevels(Level(xs))
  }

  /** Deduplicating a concatenation in two steps equals deduplicating it in one. */
  lemma {:induction false} UniqueFromAppend<T>(kept: seq<T>, s: seq<T>, t: seq<T>)
    ensures UniqueFrom(kept, s + t) == UniqueFrom(UniqueFrom(kept, s), t)
    decreases |s|
  {
    if s != [] {
      assert (s + t)[0] == s[0] && (s + t)[1..] == s[1..] + t;
      if s[0] in kept {
        UniqueFromAppend(kept, s[1..], t);
      } else {
        UniqueFromAppend(kept + [s[0]], s[1..], t);
      }
    } else {
      assert s + t == t;
    }
  }

  /** The elements UniqueFrom keeps are those already kept and those of the rest. */
  lemma {:induction false} UniqueFromMembers<T>(kept: seq<T>, rest: seq<T>, x: T)
    ensures x in UniqueFrom(kept, rest) <==> x in kept || x in rest
    decreases |rest|
  {
    if rest != [] {
      assert x in rest <==> x == rest[0] || x in rest[1..];
      if rest[0] in kept {
        UniqueFromMembers(kept, rest[1..], x);
      } else {
        UniqueFromMembers(kept + [rest[0]], rest[1..], x);
      }
    }
  }

  /** Deduplicating a list first changes nothing about what UniqueFrom keeps from it. */
  lemma {:induction false} UniqueFromUnique<T>(kept: seq<T>, b: seq<T>)
    ensures UniqueFrom(kept, Unique(b)) == UniqueFrom(kept, b)
    decreases |b|
  {
    if b != [] {
      var front, x := b[..|b| - 1], b[|b| - 1];
      assert b == front + [x];
      UniqueFromUnique(kept, front);
      UniqueFromAppend([], front, [x]);
      UniqueFromAppend(kept, front, [x]);
      var u := Unique(front);
      UniqueFromMembers([], front, x);
      UniqueFromMembers(kept, front, x);
      if x in front {
        assert Unique(b) == u;
      } else {
        assert Unique(b) == u + [x];
        UniqueFromAppend(kept, u, [x]);
      }
    }
  }

  /** Unique(a + Unique(b)) is Unique(a + b). */
  lemma UniqueConcatUnique<T>(a: seq<T>, b: seq<T>)
    ensures Unique(a + Unique(b)) == Unique(a + b)
  {
    UniqueFromAppend([], a, Unique(b));
    UniqueFromAppend([], a, b);
    UniqueFromUnique(UniqueFrom([], a), b);
  }

  /** The nested deduplication of get_interfaces_recursively_impl is one deduplication of all levels above the list. */
  lemma {:induction false} InheritedIsUniqueOfLevels(xs: seq<Interface>)
    ensures Inherited(xs) == Unique(AllLevels(Level(xs)))
    decreases MaxDepth(xs)
  {
    if xs != [] {
      LevelDepth(xs);
      var level := Level(xs);
      InheritedIsUniqueOfLevels(level);
      UniqueConcatUnique(level, AllLevels(Level(level)));
      if level == [] {
        assert Inherited(xs) == Unique([] + Inherited([]));
      }
    }
  }

  /**
   * The searchable list is the level-order walk of the inheritance trees (declared interfaces
   * first) with every repeat dropped: it has no duplicates, holds exactly the declared interfaces
   * and everything they inherit, and starts with the first declared interface (first_interface).
   */
  lemma SearchableIsUniqueOfLevels(declared: seq<Interface>)
    ensures Searchable(declared) == Unique(AllLevels(declared))
    ensures NoDuplicates(Searchable(declared))
    ensures forall x :: x in Searchable(declared) <==> x in AllLevels(declared)
    ensures declared != [] ==> Searchable(declared) != [] && Searchable(declared)[0] == declared[0]
  {
    InheritedIsUniqueOfLevels(declared);
    if declared != [] {
      LevelDepth(declared);
      UniqueConcatUnique(declared, AllLevels(Level(declared)));
      assert AllLevels(declared) == declared + AllLevels(Level(declared));
      assert AllLevels(declared)[0] == declared[0];
    } else {
      assert Searchable(declared) == Unique([] + []);
    }
    UniqueProperties(AllLevels(declared));
  }

  /** An interface without bases inherits nothing. */
  lemma LeafInheritsNothing(i: Interface)
    requires i.bases == []
    ensures Inherited([i]) == []
  {
    assert Level([i]) == i.bases + Level([i][1..]);
    assert Level([i]) == [];
    assert Inherited([]) == [];
    assert UniqueFrom<Interface>([], []) == [];
  }

  /** The searchable list of an implementation of one interface without bases is that interface. */
  lemma LeafSearchable(i: Interface)
    requires i.bases == []
    ensures Searchable([i]) == [i]
  {
    LeafInheritsNothing(i);
    assert [i] + Inherited([i]) == [i];
    assert [i][1..] == [];
    assert UniqueFrom([], [i]) == UniqueFrom([i], []);
  }

  /** first_interface: the head of the searchable list, which is the first declared interface. */
  function FirstInterface(declared: seq<Interface>): (r: Interface)
    requires declared != []
    ensures r == declared[0]
  {
    SearchableIsUniqueOfLevels(declared);
    Searchable(declared)[0]
  }

  /**
   * find_interface_by_guid: the fold tries every entry in order and keeps the last one whose GUID
   * matches, or none.
   */
  function LastMatch(interfaces: seq<Interface>, id: Guid): (r: Option<nat>)
    ensures r.Some? ==> r.value < |interfaces| && interfaces[r.value].id == id
    ensures r.Some? ==> forall j :: r.value < j < |interfaces| ==> interfaces[j].id != id
    ensures r.None? <==> forall j :: 0 <= j < |interfaces| ==> interfaces[j].id != id
  {
    if interfaces == [] then None
    else if interfaces[|interfaces| - 1].id == id then Some(|interfaces| - 1)
    else LastMatch(interfaces[..|interfaces| - 1], id)
  }

  /**
   * The interface query_interface hands out: the matching entry, or for the root GUID the first
   * interface, or none.
   */
  function QuerySlot(interfaces: seq<Interface>, id: Guid): Option<nat>
  {
    match LastMatch(interfaces, id)
    case Some(i) => Some(i)
    case None => if id == RootIid && interfaces != [] then Some(0) else None
  }

  /** A slot is handed out exactly for an implemented GUID or the root GUID, and it implements the GUID asked for. */
  lemma QuerySlotSpec(interfaces: seq<Interface>, id: Guid)
    requires interfaces != []
    ensures QuerySlot(interfaces, id).None? <==> id != RootIid && forall j :: 0 <= j < |interfaces| ==> interfaces[j].id != id
    ensures QuerySlot(interfaces, id).Some? ==> QuerySlot(interfaces, id).value < |interfaces|
    ensures QuerySlot(interfaces, id).Some? ==> interfaces[QuerySlot(interfaces, id).value].id == id || (id == RootIid && QuerySlot(interfaces, id).value == 0)
  {
  }

  /** The first position of an element in a list: to_abi's vtable for an interface of the searchable list. */
  function IndexOf(list: seq<Interface>, x: Interface): (r: nat)
    requires x in list
    ensures r < |list| && list[r] == x
    ensures forall j :: 0 <= j < r ==> list[j] != x
  {
    if list[0] == x then 0 else 1 + IndexOf(list[1..], x)
  }

  // ------------------------------------------------------------ the object heap

  type ObjId = nat

  /** An ABI pointer: the vtable of one entry of an object's searchable interface list. */
  datatype AbiPtr = AbiPtr(owner: ObjId, slot: nat)

  /** The object an optional ABI pointer belongs to. */
  function OwnerOf(p: Option<AbiPtr>): (r: Option<ObjId>)
    ensures r.Some? <==> p.Some?
  {
    match p
    case Some(q) => Some(q.owner)
    case None => None
  }

  /** A live object: its reference count, searchable interfaces, and whether it defines unique_release. */
  datatype ObjectRecord = ObjectRecord(count: nat, interfaces: seq<Interface>, uniqueRelease: bool)

  type Objects = map<ObjId, ObjectRecord>

  /** Every live object is held at least once. */
  predicate Held(m: Objects)
  {
    forall o :: o in m ==> m[o].count >= 1
  }

  /** add_ref on an object: its count grows by one. */
  function AddedRef(m: Objects, o: ObjId): Objects
    requires o in m
  {
    m[o := m[o].(count := m[o].count + 1)]
  }

  /** release drops the last reference of an object without unique_release: the object is destroyed. */
  predicate Destroys(m: Objects, o: ObjId)
    requires o in m
  {
    m[o].count == 1 && !m[o].uniqueRelease
  }

  /** release drops the last reference of an object with unique_release: the object is handed over. */
  predicate Defers(m: Objects, o: ObjId)
    requires o in m
  {
    m[o].count == 1 && m[o].uniqueRelease
  }

  /** release on an object: one count less, removal at zero, or the count set back to 1 for unique_release. */
  function Released(m: Objects, o: ObjId): Objects
    requires o in m && m[o].count >= 1
  {
    if Destroys(m, o) then m - {o}
    else if Defers(m, o) then m
    else m[o := m[o].(count := m[o].count - 1)]
  }

  /**
   * What release does to the live objects: nothing but the released one changes; that one is
   * removed exactly when it held its last reference and has no unique_release, and otherwise
   * keeps one count less (1 when handed to unique_release). Every live object stays held.
   */
  lemma ReleasedSpec(m: Objects, o: ObjId)
    requires o in m && Held(m)
    ensures Held(Released(m, o))
    ensures forall p :: p != o ==> (p in Released(m, o) <==> p in m)
    ensures forall p :: p != o && p in m ==> Released(m, o)[p] == m[p]
    ensures o !in Released(m, o) <==> Destroys(m, o)
    ensures o in Released(m, o) ==> Released(m, o)[o] == m[o].(count := if Defers(m, o) then 1 else m[o].count - 1)
    ensures |Released(m, o)| == if Destroys(m, o) then |m| - 1 else |m|
  {
    if Destroys(m, o) {
      assert m.Keys - {o} == (m - {o}).Keys;
    }
  }

  /** A release right after an add_ref restores the objects exactly and destroys nothing. */
  lemma ReleaseUndoesAddRef(m: Objects, o: ObjId)
    requires o in m && m[o].count >= 1
    ensures o in AddedRef(m, o) && !Destroys(AddedRef(m, o), o) && !Defers(AddedRef(m, o), o)
    ensures Released(AddedRef(m, o), o) == m
  {
    assert AddedRef(m, o)[o := m[o]] == m;
  }

  /** release on an optional object (nothing for none or for an object that is gone). */
  function ReleasedOpt(m: Objects, o: Option<ObjId>): Objects
  {
    if o.Some? && o.value in m && m[o.value].count >= 1 then Released(m, o.value) else m
  }

  /** add_ref on an optional object. */
  function AddedRefOpt(m: Objects, o: Option<ObjId>): Objects
  {
    if o.Some? && o.value in m then AddedRef(m, o.value) else m
  }

  /** The object a release destroys, if any. */
  function DestroyedBy(m: Objects, o: Option<ObjId>): (r: seq<ObjId>)
    ensures |r| <= 1
  {
    if o.Some? && o.value in m && Destroys(m, o.value) then [o.value] else []
  }

  /** The object a release hands to unique_release, if any. */
  function DeferredBy(m: Objects, o: Option<ObjId>): (r: seq<ObjId>)
    ensures |r| <= 1
  {
    if o.Some? && o.value in m && Defers(m, o.value) then [o.value] else []
  }

  /**
   * Every live object is held at least once, has an identity below the next one to be handed out
   * and a duplicate-free, non-empty interface list; destroyed objects are gone and destroyed once;
   * the module counter counts the live objects.
   */
  ghost predicate HeapInvariant(objects: Objects, destroyed: seq<ObjId>, nextId: ObjId, moduleCount: nat)
  {
    && Held(objects)
    && (forall o :: o in objects ==> o < nextId)
    && (forall o :: o in objects ==> objects[o].interfaces != [] && NoDuplicates(objects[o].interfaces))
    && (forall k :: 0 <= k < |destroyed| ==> destroyed[k] < nextId && destroyed[k] !in objects)
    && NoDuplicates(destroyed)
    && moduleCount == |objects|
  }

  /** A release keeps the invariant. */
  lemma ReleaseKeepsInvariant(objects: Objects, destroyed: seq<ObjId>, nextId: ObjId, moduleCount: nat, o: ObjId)
    requires HeapInvariant(objects, destroyed, nextId, moduleCount) && o in objects
    ensures moduleCount >= |DestroyedBy(objects, Some(o))|
    ensures HeapInvariant(Released(objects, o), destroyed + DestroyedBy(objects, Some(o)), nextId, moduleCount - |DestroyedBy(objects, Some(o))|)
  {
    ReleasedSpec(objects, o);
  }

  /** An add_ref keeps the invariant. */
  lemma AddRefKeepsInvariant(objects: Objects, destroyed: seq<ObjId>, nextId: ObjId, moduleCount: nat, o: ObjId)
    requires HeapInvariant(objects, destroyed, nextId, moduleCount) && o in objects
    ensures HeapInvariant(AddedRef(objects, o), destroyed, nextId, moduleCount)
  {
  }

  /** Adding a fresh object with a duplicate-free, non-empty interface list keeps the invariant. */
  lemma CreateKeepsInvariant(objects: Objects, destroyed: seq<ObjId>, nextId: ObjId, moduleCount: nat, r: ObjectRecord)
    requires HeapInvariant(objects, destroyed, nextId, moduleCount)
    requires r.count == 1 && r.interfaces != [] && NoDuplicates(r.interfaces)
    ensures nextId !in objects
    ensures HeapInvariant(objects[nextId := r], destroyed, nextId + 1, moduleCount + 1)
  {
  }

  /**
   * The objects of a module, with the module-wide live counter (get_module_ref_count), the order in
   * which objects were destroyed, and the objects handed to their unique_release routine.
   */
  class ObjectHeap {
    var objects: Objects
    var moduleCount: nat
    var destroyed: seq<ObjId>
    var deferred: seq<ObjId>
    var nextId: ObjId

    /**
     * Every live object is held at least once and has a duplicate-free, non-empty interface list;
     * destroyed objects are gone and destroyed once; the module counter counts the live objects.
     */
    ghost predicate Valid()
      reads this
    {
      HeapInvariant(objects, destroyed, nextId, moduleCount)
    }

    /** A pointer to a vtable of a live object. */
    predicate Live(p: AbiPtr)
      reads this
    {
      p.owner in objects && p.slot < |objects[p.owner].interfaces|
    }

    /**
     * A release of one optional object followed by an add_ref of another: the objects, the destroyed
     * and handed-over lists, and the module counter all change accordingly and nothing else does.
     */
    twostate predicate Effect(released: Option<ObjId>, added: Option<ObjId>)
      reads this
    {
      && objects == AddedRefOpt(ReleasedOpt(old(objects), released), added)
      && destroyed == old(destroyed) + DestroyedBy(old(objects), released)
      && deferred == old(deferred) + DeferredBy(old(objects), released)
      && moduleCount == old(moduleCount) - |DestroyedBy(old(objects), released)|
      && nextId == old(nextId)
    }

    /** A module starts with no objects and its counter at zero. */
    constructor ()
      ensures Valid()
      ensures objects == map[] && moduleCount == 0 && destroyed == [] && deferred == []
    {
      objects := map[];
      moduleCount := 0;
      destroyed := [];
      deferred := [];
      nextId := 0;
    }

    /** unknown_object_impl(): a new object with count 1 and its searchable list; the module counter grows by one. */
    method Create(declared: seq<Interface>, uniqueRelease: bool) returns (o: ObjId)
      requires Valid() && declared != []
      modifies this
      ensures Valid()
      ensures o !in old(objects) && o !in destroyed
      ensures objects == old(objects)[o := ObjectRecord(1, Searchable(declared), uniqueRelease)]
      ensures moduleCount == old(moduleCount) + 1
      ensures destroyed == old(destroyed) && deferred == old(deferred)
    {
      SearchableIsUniqueOfLevels(declared);
      CreateKeepsInvariant(objects, destroyed, nextId, moduleCount, ObjectRecord(1, Searchable(declared), uniqueRelease));
      o := nextId;
      objects := objects[o := ObjectRecord(1, Searchable(declared), uniqueRelease)];
      moduleCount := moduleCount + 1;
      nextId := nextId + 1;
    }

    /** add_ref: one more reference; returns the new count. */
    method AddRef(o: ObjId) returns (r: nat)
      requires Valid() && o in objects
      modifies this
      ensures Valid() && Effect(None, Some(o))
      ensures r == objects[o].count == old(objects[o].count) + 1
    {
      AddRefKeepsInvariant(objects, destroyed, nextId, moduleCount, o);
      r := objects[o].count + 1;
      objects := AddedRef(objects, o);
    }

    /**
     * release: one reference less; returns the new count. At zero the object is destroyed (its
     * destructor drops the module counter), or, when it defines unique_release, its count is set
     * back to 1 and it is handed to that routine.
     */
    method Release(o: ObjId) returns (r: nat)
      requires Valid() && o in objects
      modifies this
      ensures Valid() && Effect(Some(o), None)
      ensures r == old(objects[o].count) - 1
    {
      ReleaseKeepsInvariant(objects, destroyed, nextId, moduleCount, o);
      r := objects[o].count - 1;
      var gone, handed := DestroyedBy(objects, Some(o)), DeferredBy(objects, Some(o));
      objects, destroyed, deferred := Released(objects, o), destroyed + gone, deferred + handed;
      moduleCount := moduleCount - |gone|;
    }

    /**
     * query_interface: a null out-pointer gives error_null_pointer; otherwise the slot QuerySlot
     * picks is written with one more reference and error_success, or nothing is written, the count
     * is kept and the result is error_no_interface.
     */
    method QueryInterface(o: ObjId, id: Guid, hasOut: bool) returns (code: int32, out: Option<AbiPtr>)
      requires Valid() && o in objects
      modifies this
      ensures Valid()
      ensures !hasOut ==> code == Code(NullPointer) && out.None?
      ensures hasOut && QuerySlot(old(objects[o].interfaces), id).Some? ==>
        code == Success && out == Some(AbiPtr(o, QuerySlot(old(objects[o].interfaces), id).value))
      ensures hasOut && QuerySlot(old(objects[o].interfaces), id).None? ==> code == Code(NoInterface) && out.None?
      ensures out.Some? ==> Effect(None, Some(o)) && Live(out.value)
      ensures out.None? ==> unchanged(this)
    {
      if !hasOut {
        return Code(NullPointer), None;
      }
      var slot := QuerySlot(objects[o].interfaces, id);
      QuerySlotSpec(objects[o].interfaces, id);
      if slot.Some? {
        var _ := AddRef(o);
        code, out := Success, Some(AbiPtr(o, slot.value));
      } else {
        code, out := Code(NoInterface), None;
      }
    }
  }
}
