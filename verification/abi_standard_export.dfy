/**
 * The standard exports of a module: the class factory, whose tables map each component's
 * qualified name and first-interface GUID to a constructor, dll_create_factory, which hands out a
 * new factory, and dll_can_unload_now, which holds once no object of the module is alive.
 */
module StandardExports {
  import opened Wrappers
  import opened Guids
  import opened Exceptions
  import opened Implements
  import opened UnknownObjects

  /** The GUID of the class_factory interface, DCE95478-E317-43C2-B5E2-42DB0ECD4BD5. */
  const ClassFactoryId: Guid := Guid(0xDCE95478, 0xE317, 0x43C2, [0xB5, 0xE2, 0x42, 0xDB, 0x0E, 0xCD, 0x4B, 0xD5])

  /** class_factory_impl implements class_factory, which has no bases. */
  const ClassFactoryInterface: Interface := Interface(ClassFactoryId, [])

  /** A component the module exports: its external qualified name and what make_as_first needs to build it. */
  datatype Component = Component(name: seq<char>, declared: seq<Interface>, uniqueRelease: bool)

  /**
   * The table a left-to-right fold of insert_or_assign builds: every key maps to the position of
   * the last entry that carries it.
   */
  function LastIndexTable<K>(keys: seq<K>): map<K, nat>
  {
    if keys == [] then map[]
    else LastIndexTable(keys[..|keys| - 1])[keys[|keys| - 1] := |keys| - 1]
  }

  /** A key is in the table exactly when some entry carries it, and it maps to the last such entry. */
  lemma {:induction false} LastIndexTableSpec<K>(keys: seq<K>, k: K)
    ensures k in LastIndexTable(keys) <==> k in keys
    ensures k in LastIndexTable(keys) ==>
      var i := LastIndexTable(keys)[k];
      i < |keys| && keys[i] == k && forall j :: i < j < |keys| ==> keys[j] != k
  {
    if keys != [] {
      var front := keys[..|keys| - 1];
      LastIndexTableSpec(front, k);
      assert keys == front + [keys[|keys| - 1]];
    }
  }

  /** The qualified names of the components, in declaration order, duplicates included. */
  function Names(components: seq<Component>): (r: seq<seq<char>>)
    ensures |r| == |components| && forall i :: 0 <= i < |components| ==> r[i] == components[i].name
  {
    seq(|components|, i requires 0 <= i < |components| => components[i].name)
  }

  /** The GUIDs of the components' first interfaces, in declaration order, duplicates included. */
  function FirstIds(components: seq<Component>): (r: seq<Guid>)
    requires forall i :: 0 <= i < |components| ==> components[i].declared != []
    ensures |r| == |components|
    ensures forall i :: 0 <= i < |components| ==> r[i] == FirstInterface(components[i].declared).id
  {
    seq(|components|, i requires 0 <= i < |components| => FirstInterface(components[i].declared).id)
  }

  /** The statics of make_standard_export_functions for one module: its name, components and factory tables. */
  class ModuleExports {
    const libraryName: seq<char>
    const components: seq<Component>
    var filled: bool
    var nameMap: map<seq<char>, nat>
    var guidMap: map<Guid, nat>

    /** Every component implements something; the tables are empty until filled, then hold the folds. */
    ghost predicate Valid()
      reads this
    {
      && (forall i :: 0 <= i < |components| ==> components[i].declared != [])
      && (!filled ==> nameMap == map[] && guidMap == map[])
      && (filled ==> nameMap == LastIndexTable(Names(components)) && guidMap == LastIndexTable(FirstIds(components)))
    }

    /** Before the first factory is made the tables are empty. */
    constructor (libraryName: seq<char>, components: seq<Component>)
      requires forall i :: 0 <= i < |components| ==> components[i].declared != []
      ensures this.libraryName == libraryName && this.components == components
      ensures Valid() && !filled
    {
      this.libraryName := libraryName;
      this.components := components;
      filled := false;
      nameMap := map[];
      guidMap := map[];
    }

    /**
     * The call_once in class_factory_impl(): the first call fills both tables, each by
     * insert_or_assign in declaration order; every later call changes nothing.
     */
    method FillOnce()
      requires Valid()
      modifies this
      ensures Valid() && filled
      ensures old(filled) ==> nameMap == old(nameMap) && guidMap == old(guidMap)
    {
      if !filled {
        var names := map[];
        var ids := map[];
        var i := 0;
        while i < |components|
          invariant 0 <= i <= |components|
          invariant names == LastIndexTable(Names(components)[..i])
          invariant ids == LastIndexTable(FirstIds(components)[..i])
        {
          assert Names(components)[..i + 1][..i] == Names(components)[..i];
          assert FirstIds(components)[..i + 1][..i] == FirstIds(components)[..i];
          names := names[components[i].name := i];
          ids := ids[FirstInterface(components[i].declared).id := i];
          i := i + 1;
        }
        assert Names(components)[..i] == Names(components);
        assert FirstIds(components)[..i] == FirstIds(components);
        nameMap, guidMap, filled := names, ids, true;
      }
    }

    /**
     * Makes the component at a table position with make_as_first, or returns a null object when
     * the key was not found.
     */
    method MakeFound(heap: ObjectHeap, found: Option<nat>) returns (obj: UnknownObject)
      requires Valid() && heap.Valid() && (found.Some? ==> found.value < |components|)
      modifies heap
      ensures fresh(obj) && obj.heap == heap && obj.Valid()
      ensures found.None? ==> obj.abi.None? && unchanged(heap)
      ensures found.Some? ==> obj.abi.Some? && obj.abi.value.slot == 0 && obj.abi.value.owner !in old(heap.objects)
      ensures found.Some? ==> heap.objects == old(heap.objects)[obj.abi.value.owner :=
        ObjectRecord(1, Searchable(components[found.value].declared), components[found.value].uniqueRelease)]
    {
      if found.Some? {
        var c := components[found.value];
        obj := new UnknownObject.MakeAsFirst(heap, c.declared, c.uniqueRelease);
      } else {
        obj := new UnknownObject.Null(heap);
      }
    }

    /**
     * create_by_name: a new instance of the last component registered under the name, or a null
     * object (not an error) when no component has that name.
     */
    method CreateByName(heap: ObjectHeap, name: seq<char>) returns (obj: UnknownObject)
      requires Valid() && filled && heap.Valid()
      modifies heap
      ensures fresh(obj) && obj.heap == heap && obj.Valid()
      ensures obj.abi.None? <==> name !in Names(components)
      ensures obj.abi.None? ==> unchanged(heap)
      ensures obj.abi.Some? ==> exists i :: (
        && 0 <= i < |components| && components[i].name == name
        && (forall j :: i < j < |components| ==> components[j].name != name)
        && heap.objects == old(heap.objects)[obj.abi.value.owner :=
             ObjectRecord(1, Searchable(components[i].declared), components[i].uniqueRelease)])
    {
      LastIndexTableSpec(Names(components), name);
      var found := if name in nameMap then Some(nameMap[name]) else None;
      obj := MakeFound(heap, found);
    }

    /**
     * create_by_interface_id: a new instance of the last component whose first interface has the
     * GUID, or a null object when there is none.
     */
    method CreateByInterfaceId(heap: ObjectHeap, id: Guid) returns (obj: UnknownObject)
      requires Valid() && filled && heap.Valid()
      modifies heap
      ensures fresh(obj) && obj.heap == heap && obj.Valid()
      ensures obj.abi.None? <==> id !in FirstIds(components)
      ensures obj.abi.None? ==> unchanged(heap)
      ensures obj.abi.Some? ==> heap.objects[obj.abi.value.owner].interfaces[0].id == id
      ensures obj.abi.Some? ==> exists i :: (
        && 0 <= i < |components| && FirstInterface(components[i].declared).id == id
        && (forall j :: i < j < |components| ==> FirstInterface(components[j].declared).id != id)
        && heap.objects == old(heap.objects)[obj.abi.value.owner :=
             ObjectRecord(1, Searchable(components[i].declared), components[i].uniqueRelease)])
    {
      LastIndexTableSpec(FirstIds(components), id);
      var found := if id in guidMap then Some(guidMap[id]) else None;
      if found.Some? {
        SearchableIsUniqueOfLevels(components[found.value].declared);
      }
      obj := MakeFound(heap, found);
    }

    /** interface_ids: the first-interface GUIDs; each one is found by create_by_interface_id. */
    function InterfaceIds(): (r: seq<Guid>)
      requires Valid()
      reads this
      ensures r == FirstIds(components)
      ensures filled ==> forall id :: id in r <==> id in guidMap
    {
      if filled then LastIndexTableMembers(FirstIds(components)); FirstIds(components)
      else FirstIds(components)
    }

    /** qualified_names: the names; each one is found by create_by_name. */
    function QualifiedNames(): (r: seq<seq<char>>)
      requires Valid()
      reads this
      ensures r == Names(components)
      ensures filled ==> forall name :: name in r <==> name in nameMap
    {
      if filled then LastIndexTableMembers(Names(components)); Names(components)
      else Names(components)
    }

    /** library_name: the name given to MAKE_ABI_STANDARD_EXPORT_FUNCTIONS. */
    function LibraryName(): seq<char>
    {
      libraryName
    }

    /**
     * dll_create_factory: error_null_pointer and no change for a null out-pointer; otherwise the
     * tables are filled (once), and a new factory object is made whose reference goes to the caller.
     */
    method DllCreateFactory(heap: ObjectHeap, hasOut: bool) returns (code: int32, factory: Option<AbiPtr>)
      requires Valid() && heap.Valid()
      modifies this, heap
      ensures Valid() && heap.Valid()
      ensures !hasOut ==> code == Code(NullPointer) && factory.None? && unchanged(this) && unchanged(heap)
      ensures hasOut ==> code == Success && filled && factory.Some? && heap.Live(factory.value)
      ensures hasOut ==> factory.value.owner !in old(heap.objects)
      ensures hasOut ==> heap.objects == old(heap.objects)[factory.value.owner := ObjectRecord(1, [ClassFactoryInterface], false)]
      ensures hasOut ==> heap.moduleCount == old(heap.moduleCount) + 1 && !CanUnloadNow(heap)
    {
      if !hasOut {
        return Code(NullPointer), None;
      }
      FillOnce();
      LeafSearchable(ClassFactoryInterface);
      var obj := new UnknownObject.MakeAsFirst(heap, [ClassFactoryInterface], false);
      factory := obj.Detach();
      code := Success;
    }
  }

  /** Every key of the list is in its table and nothing else is. */
  lemma LastIndexTableMembers<K>(keys: seq<K>)
    ensures forall k :: k in keys <==> k in LastIndexTable(keys)
  {
    forall k
      ensures k in keys <==> k in LastIndexTable(keys)
    {
      LastIndexTableSpec(keys, k);
    }
  }

  /** dll_can_unload_now: no object of the module is alive. */
  predicate CanUnloadNow(heap: ObjectHeap)
    reads heap
    ensures CanUnloadNow(heap) <==> heap.moduleCount == 0
  {
    heap.moduleCount == 0
  }
}
