/**
 * The bookkeeping of a dynamic backend switch (`convert_from_source_backend_to_numpy`
 * and `convert_from_numpy_to_target_backend` in `ivy/utils/backend/handler.py`):
 * which tracked arrays and containers are converted, how a standalone array that
 * shares its payload with a container leaf is dropped, and how variable-ness is
 * recorded by object identity on export and re-applied on import. The conversions
 * themselves (`to_numpy`, the new backend's `asarray`) are parameters.
 */
module Dynamic {
  import opened Common

  /** A backend-native array: its identity, the module of its class (`lib`), and whether the
    * framework regards it as a differentiable variable. */
  datatype Payload = Payload(ident: nat, lib: string, variable: bool)

  /** An `ivy.Array`: its identity, whether its `__dict__` is populated, its payload and its
    * `dynamic_backend` flag. */
  class IvyArray {
    const ident: nat
    const initialized: bool
    var data: Payload
    var dynamicBackend: bool

    constructor(ident: nat, initialized: bool, data: Payload, dynamicBackend: bool)
      ensures this.ident == ident && this.initialized == initialized
      ensures this.data == data && this.dynamicBackend == dynamicBackend
    {
      this.ident := ident;
      this.initialized := initialized;
      this.data := data;
      this.dynamicBackend := dynamicBackend;
    }
  }

  /** An `ivy.Container`, seen through its flattened leaves (an `ivy.Array` leaf is represented
    * by its payload, which is what the identity checks look at). */
  class IvyContainer {
    const ident: nat
    var leaves: seq<Payload>
    var dynamicBackend: bool

    constructor(ident: nat, leaves: seq<Payload>, dynamicBackend: bool)
      ensures this.ident == ident && this.leaves == leaves && this.dynamicBackend == dynamicBackend
    {
      this.ident := ident;
      this.leaves := leaves;
      this.dynamicBackend := dynamicBackend;
    }
  }

  /** An element of `new_objs`: an array or a container. */
  datatype Tracked = Arr(arr: IvyArray) | Cont(cont: IvyContainer)

  /** `id(obj)`. */
  function Id(t: Tracked): nat
  {
    if t.Arr? then t.arr.ident else t.cont.ident
  }

  /** The object behind a tracked entry. */
  function Obj(t: Tracked): object
  {
    if t.Arr? then t.arr else t.cont
  }

  /** The objects behind a list of tracked entries. */
  function Objects(ts: seq<Tracked>): set<object>
  {
    set t | t in ts :: Obj(t)
  }

  // ---------------------------------------------------------------------
  // _remove_intermediate_arrays

  /** `arr_ids`: the payload identity of each array. */
  function PayloadIds(arrs: seq<IvyArray>): (r: seq<nat>)
    reads set a | a in arrs
    ensures |r| == |arrs| && forall i :: 0 <= i < |arrs| ==> r[i] == arrs[i].data.ident
  {
    seq(|arrs|, i reads set a | a in arrs requires 0 <= i < |arrs| => arrs[i].data.ident)
  }

  /** `cont_ids`: the identities of all leaves of all containers. */
  function LeafIds(conts: seq<IvyContainer>): (r: set<nat>)
    reads set c | c in conts
    ensures forall k :: k in r <==> exists c, p :: c in conts && p in c.leaves && p.ident == k
  {
    set c, p | c in conts && p in c.leaves :: p.ident
  }

  /** The keys of the dictionary built from `ids`, in insertion order: each identity not in
    * `excluded`, once, at the position of its first occurrence. */
  function FirstOrder(ids: seq<nat>, excluded: set<nat>): seq<nat>
    decreases |ids|
  {
    if ids == [] then []
    else
      var prior := FirstOrder(ids[..|ids| - 1], excluded);
      var k := ids[|ids| - 1];
      if k in excluded || k in prior then prior else prior + [k]
  }

  /** The index of the last occurrence of `k` in `ids`, or -1. */
  function LastIndex(ids: seq<nat>, k: nat): (j: int)
    ensures -1 <= j < |ids|
    ensures j >= 0 ==> ids[j] == k
    decreases |ids|
  {
    if ids == [] then -1
    else if ids[|ids| - 1] == k then |ids| - 1
    else LastIndex(ids[..|ids| - 1], k)
  }

  /** The de-duplicated identities are pairwise distinct, and they are exactly the identities
    * that occur and are not container leaves. */
  lemma {:induction false} FirstOrderSpec(ids: seq<nat>, excluded: set<nat>)
    ensures Distinct(FirstOrder(ids, excluded))
    ensures forall k :: k in FirstOrder(ids, excluded) <==> k in ids && k !in excluded
    decreases |ids|
  {
    if ids != [] {
      var prefix := ids[..|ids| - 1];
      FirstOrderSpec(prefix, excluded);
      assert ids == prefix + [ids[|ids| - 1]];
    }
  }

  /** The last occurrence is the last one: no later index holds `k`, and it exists when `k`
    * occurs at all. */
  lemma {:induction false} LastIndexSpec(ids: seq<nat>, k: nat)
    ensures LastIndex(ids, k) >= 0 <==> k in ids
    ensures forall j :: LastIndex(ids, k) < j < |ids| ==> ids[j] != k
    decreases |ids|
  {
    if ids != [] && ids[|ids| - 1] != k {
      var prefix := ids[..|ids| - 1];
      LastIndexSpec(prefix, k);
      assert ids == prefix + [ids[|ids| - 1]];
    }
  }

  /** `_remove_intermediate_arrays(arr_list, cont_list)`: one array per payload identity that
    * is no container leaf, in order of the identity's first occurrence, the later array
    * winning (the dictionary comprehension keeps the first key position and the last value). */
  function RemoveIntermediateArrays(arrs: seq<IvyArray>, conts: seq<IvyContainer>): (r: seq<IvyArray>)
    reads set a | a in arrs, set c | c in conts
    ensures var order := FirstOrder(PayloadIds(arrs), LeafIds(conts));
      |r| == |order| && forall j :: 0 <= j < |r| ==> r[j].data.ident == order[j]
  {
    var ids := PayloadIds(arrs);
    var order := FirstOrder(ids, LeafIds(conts));
    FirstOrderSpec(ids, LeafIds(conts));
    PickLast(arrs, ids, order)
  }

  /** For each identity of `order`, the array at its last occurrence in `ids`. */
  function PickLast(arrs: seq<IvyArray>, ids: seq<nat>, order: seq<nat>): (r: seq<IvyArray>)
    requires |ids| == |arrs| && forall j :: 0 <= j < |order| ==> order[j] in ids
    ensures |r| == |order|
    ensures forall j :: 0 <= j < |order| ==>
      0 <= LastIndex(ids, order[j]) && r[j] == arrs[LastIndex(ids, order[j])]
    decreases |order|
  {
    if order == [] then []
    else
      var k := order[|order| - 1];
      LastIndexSpec(ids, k);
      PickLast(arrs, ids, order[..|order| - 1]) + [arrs[LastIndex(ids, k)]]
  }

  /** The kept arrays carry pairwise distinct payload identities, none of them a container leaf. */
  lemma KeptDistinct(arrs: seq<IvyArray>, conts: seq<IvyContainer>)
    ensures var r := RemoveIntermediateArrays(arrs, conts);
      && (forall i, j :: 0 <= i < j < |r| ==> r[i].data.ident != r[j].data.ident)
      && (forall j :: 0 <= j < |r| ==> r[j].data.ident !in LeafIds(conts))
  {
    FirstOrderSpec(PayloadIds(arrs), LeafIds(conts));
  }

  /** Every payload identity that is no container leaf is represented among the kept arrays. */
  lemma KeptComplete(arrs: seq<IvyArray>, conts: seq<IvyContainer>, i: nat)
    requires i < |arrs| && arrs[i].data.ident !in LeafIds(conts)
    ensures exists j :: 0 <= j < |RemoveIntermediateArrays(arrs, conts)| && RemoveIntermediateArrays(arrs, conts)[j].data.ident == arrs[i].data.ident
  {
    var ids := PayloadIds(arrs);
    var order := FirstOrder(ids, LeafIds(conts));
    FirstOrderSpec(ids, LeafIds(conts));
    assert ids[i] in order;
    var j :| 0 <= j < |order| && order[j] == ids[i];
    assert RemoveIntermediateArrays(arrs, conts)[j].data.ident == order[j];
  }

  /** The kept array for an identity is its last carrier: no later array carries it. */
  lemma KeptIsLast(arrs: seq<IvyArray>, conts: seq<IvyContainer>, j: nat)
    requires j < |RemoveIntermediateArrays(arrs, conts)|
    ensures exists m :: 0 <= m < |arrs| && RemoveIntermediateArrays(arrs, conts)[j] == arrs[m]
                        && forall n :: m < n < |arrs| ==> arrs[n].data.ident != arrs[m].data.ident
  {
    var ids := PayloadIds(arrs);
    var order := FirstOrder(ids, LeafIds(conts));
    LastIndexSpec(ids, order[j]);
    var m := LastIndex(ids, order[j]);
    assert RemoveIntermediateArrays(arrs, conts)[j] == arrs[m];
  }

  // ---------------------------------------------------------------------
  // Export: convert_from_source_backend_to_numpy

  /** The class modules whose objects are never variables. */
  const NumpyModules: set<string> := {"numpy", "jax.interpreters.xla", "jaxlib.xla_extension"}

  /** `_map_fn` / the array case of `_is_var`: not a NumPy or XLA array, and a variable. */
  predicate IsVariable(p: Payload)
  {
    p.lib !in NumpyModules && p.variable
  }

  /** `_is_var(obj)`: for a container, every leaf is a variable (`cont_all_true`). */
  predicate IsVar(t: Tracked)
    reads Obj(t)
  {
    if t.Arr? then IsVariable(t.arr.data)
    else forall i :: 0 <= i < |t.cont.leaves| ==> IsVariable(t.cont.leaves[i])
  }

  function DynamicFlag(t: Tracked): bool
    reads Obj(t)
  {
    if t.Arr? then t.arr.dynamicBackend else t.cont.dynamicBackend
  }

  /** The neutral form of a payload: its data (`_variable_data`) when the object is a
    * variable, converted by `to_numpy`. */
  function Exported(p: Payload, isVar: bool, toNumpy: Payload -> Payload): Payload
  {
    toNumpy(if isVar then p.(variable := false) else p)
  }

  /** The imported form: converted by the new backend's `asarray`, and made a variable
    * (`_variable`) exactly when the object's identity was recorded. */
  function Imported(p: Payload, isVar: bool, asarray: Payload -> Payload): Payload
  {
    var q := asarray(p);
    if isVar then q.(variable := true) else q
  }

  /** The arrays `gc.get_objects()` found whose `__dict__` is populated. */
  function Initialized(arrs: seq<IvyArray>): (r: seq<IvyArray>)
    ensures forall i :: 0 <= i < |r| ==> r[i] in arrs && r[i].initialized
    ensures forall i :: 0 <= i < |arrs| && arrs[i].initialized ==> arrs[i] in r
    ensures |r| <= |arrs|
  {
    if arrs == [] then []
    else (if arrs[0].initialized then [arrs[0]] else []) + Initialized(arrs[1..])
  }

  /** `new_objs`: the kept arrays followed by all containers. */
  function NewObjs(arrays: seq<IvyArray>, containers: seq<IvyContainer>): seq<Tracked>
    reads set a | a in arrays, set c | c in containers
  {
    Entries(RemoveIntermediateArrays(Initialized(arrays), containers), containers)
  }

  /** The arrays, then the containers, as entries of one list. */
  function Entries(arrs: seq<IvyArray>, conts: seq<IvyContainer>): (r: seq<Tracked>)
    ensures |r| == |arrs| + |conts|
    ensures forall j :: 0 <= j < |arrs| ==> r[j] == Arr(arrs[j])
    ensures forall j :: 0 <= j < |conts| ==> r[|arrs| + j] == Cont(conts[j])
  {
    seq(|arrs|, j requires 0 <= j < |arrs| => Arr(arrs[j]))
    + seq(|conts|, j requires 0 <= j < |conts| => Cont(conts[j]))
  }

  /** `new_objs` lists each object once (the kept arrays carry distinct payloads, and the
    * containers are distinct objects), all of them among the scanned ones. */
  lemma NewObjsDistinct(arrays: seq<IvyArray>, containers: seq<IvyContainer>)
    requires forall i, j :: 0 <= i < j < |containers| ==> containers[i] != containers[j]
    ensures DistinctObjects(NewObjs(arrays, containers))
    ensures Objects(NewObjs(arrays, containers)) <= (set a | a in arrays) + (set c | c in containers)
  {
    var live := Initialized(arrays);
    var kept := RemoveIntermediateArrays(live, containers);
    KeptDistinct(live, containers);
    EntriesDistinct(kept, containers);
    forall t | t in NewObjs(arrays, containers)
      ensures Obj(t) in (set a | a in arrays) + (set c | c in containers)
    {
      if t.Arr? {
        var j :| 0 <= j < |kept| && t == Arr(kept[j]);
        KeptIsLast(live, containers, j);
      }
    }
  }

  /** Arrays with distinct payloads and distinct containers make distinct entries. */
  lemma EntriesDistinct(arrs: seq<IvyArray>, conts: seq<IvyContainer>)
    requires forall i, j :: 0 <= i < j < |arrs| ==> arrs[i].data.ident != arrs[j].data.ident
    requires forall i, j :: 0 <= i < j < |conts| ==> conts[i] != conts[j]
    ensures DistinctObjects(Entries(arrs, conts))
  {
    var r := Entries(arrs, conts);
    forall i, j | 0 <= i < j < |r| ensures Obj(r[i]) != Obj(r[j]) {
      if j < |arrs| {
        assert r[i] == Arr(arrs[i]) && r[j] == Arr(arrs[j]);
      } else if i >= |arrs| {
        assert r[i] == Cont(conts[i - |arrs|]) && r[j] == Cont(conts[j - |arrs|]);
      } else {
        assert r[i] == Arr(arrs[i]) && r[j] == Cont(conts[j - |arrs|]);
      }
    }
  }

  function ExportedLeaves(leaves: seq<Payload>, isVar: bool, toNumpy: Payload -> Payload): (r: seq<Payload>)
    ensures |r| == |leaves| && forall i :: 0 <= i < |leaves| ==> r[i] == Exported(leaves[i], isVar, toNumpy)
  {
    seq(|leaves|, i requires 0 <= i < |leaves| => Exported(leaves[i], isVar, toNumpy))
  }

  function ImportedLeaves(leaves: seq<Payload>, isVar: bool, asarray: Payload -> Payload): (r: seq<Payload>)
    ensures |r| == |leaves| && forall i :: 0 <= i < |leaves| ==> r[i] == Imported(leaves[i], isVar, asarray)
  {
    seq(|leaves|, i requires 0 <= i < |leaves| => Imported(leaves[i], isVar, asarray))
  }

  /** The state the export loop leaves a tracked object in, given its state before: a selected
    * object's payload replaced by its neutral form. */
  twostate predicate ExportedObject(t: Tracked, new toNumpy: Payload -> Payload)
    reads Obj(t)
  {
    if t.Arr? then
      t.arr.dynamicBackend == old(t.arr.dynamicBackend)
      && t.arr.data == (if old(t.arr.dynamicBackend) then Exported(old(t.arr.data), old(IsVar(t)), toNumpy)
                        else old(t.arr.data))
    else
      t.cont.dynamicBackend == old(t.cont.dynamicBackend)
      && t.cont.leaves == (if old(t.cont.dynamicBackend)
                           then ExportedLeaves(old(t.cont.leaves), old(IsVar(t)), toNumpy)
                           else old(t.cont.leaves))
  }

  /** The state the import loop leaves an object in: its payload converted by `asarray`, and a
    * variable again when its identity was recorded. */
  twostate predicate ImportedObject(t: Tracked, variableIds: set<nat>, new asarray: Payload -> Payload)
    reads Obj(t)
  {
    if t.Arr? then
      t.arr.dynamicBackend == old(t.arr.dynamicBackend)
      && t.arr.data == Imported(old(t.arr.data), Id(t) in variableIds, asarray)
    else
      t.cont.dynamicBackend == old(t.cont.dynamicBackend)
      && t.cont.leaves == ImportedLeaves(old(t.cont.leaves), Id(t) in variableIds, asarray)
  }

  /** An object the loop has not reached yet. */
  twostate predicate Untouched(t: Tracked)
    reads Obj(t)
  {
    if t.Arr? then t.arr.data == old(t.arr.data) && t.arr.dynamicBackend == old(t.arr.dynamicBackend)
    else t.cont.leaves == old(t.cont.leaves) && t.cont.dynamicBackend == old(t.cont.dynamicBackend)
  }

  /** The entries of `objs` whose `dynamic_backend` flag is set, in order. */
  function Selected(objs: seq<Tracked>): seq<Tracked>
    reads Objects(objs)
    decreases |objs|
  {
    if objs == [] then []
    else
      var prefix := objs[..|objs| - 1];
      var last := objs[|objs| - 1];
      Selected(prefix) + if DynamicFlag(last) then [last] else []
  }

  /** The identities `variable_ids` gains: selected entries that are variables. */
  function VariableIds(objs: seq<Tracked>): set<nat>
    reads Objects(objs)
    decreases |objs|
  {
    if objs == [] then {}
    else
      var prefix := objs[..|objs| - 1];
      var last := objs[|objs| - 1];
      VariableIds(prefix) + if DynamicFlag(last) && IsVar(last) then {Id(last)} else {}
  }

  /** Exactly the flagged entries are selected. */
  lemma {:induction false} SelectedSpec(objs: seq<Tracked>)
    ensures forall i :: 0 <= i < |Selected(objs)| ==> Selected(objs)[i] in objs && DynamicFlag(Selected(objs)[i])
    ensures forall i :: 0 <= i < |objs| && DynamicFlag(objs[i]) ==> objs[i] in Selected(objs)
    decreases |objs|
  {
    if objs != [] {
      var prefix := objs[..|objs| - 1];
      SelectedSpec(prefix);
      assert objs == prefix + [objs[|objs| - 1]];
    }
  }

  /** Exactly the identities of flagged entries that are variables are recorded. */
  lemma {:induction false} VariableIdsSpec(objs: seq<Tracked>)
    ensures forall k :: k in VariableIds(objs) <==>
      exists i :: 0 <= i < |objs| && DynamicFlag(objs[i]) && IsVar(objs[i]) && Id(objs[i]) == k
    decreases |objs|
  {
    if objs != [] {
      var prefix := objs[..|objs| - 1];
      VariableIdsSpec(prefix);
      assert objs == prefix + [objs[|objs| - 1]];
      assert forall i :: 0 <= i < |prefix| ==> prefix[i] == objs[i];
    }
  }

  /** No object occurs twice. */
  predicate DistinctObjects(objs: seq<Tracked>)
  {
    forall i, j :: 0 <= i < j < |objs| ==> Obj(objs[i]) != Obj(objs[j])
  }

  /** Keeping only the selected entries keeps the objects distinct. */
  lemma {:induction false} SelectedDistinct(objs: seq<Tracked>)
    requires DistinctObjects(objs)
    ensures DistinctObjects(Selected(objs))
    decreases |objs|
  {
    if objs != [] {
      var prefix := objs[..|objs| - 1];
      var last := objs[|objs| - 1];
      assert DistinctObjects(prefix);
      SelectedDistinct(prefix);
      SelectedSpec(prefix);
      forall t | t in Selected(prefix) ensures Obj(t) != Obj(last) {
        var i :| 0 <= i < |prefix| && prefix[i] == t;
        assert objs[i] == t;
      }
    }
  }

  /** The payload update of one selected object: `obj._data = np_data`, or
    * `obj.cont_inplace_update(np_data)` for a container. */
  method ExportObject(obj: Tracked, isVar: bool, toNumpy: Payload -> Payload)
    modifies Obj(obj)
    ensures obj.Arr? ==> obj.arr.data == Exported(old(obj.arr.data), isVar, toNumpy)
                         && obj.arr.dynamicBackend == old(obj.arr.dynamicBackend)
    ensures obj.Cont? ==> obj.cont.leaves == ExportedLeaves(old(obj.cont.leaves), isVar, toNumpy)
                          && obj.cont.dynamicBackend == old(obj.cont.dynamicBackend)
  {
    if obj.Arr? {
      obj.arr.data := Exported(obj.arr.data, isVar, toNumpy);
    } else {
      obj.cont.leaves := ExportedLeaves(obj.cont.leaves, isVar, toNumpy);
    }
  }

  /** The loop of `convert_from_source_backend_to_numpy` over `new_objs`: every entry whose
    * `dynamic_backend` flag is set is appended to `numpy_objs`, its identity is recorded in
    * `variable_ids` when it is a variable, and its payload is replaced by the neutral form. */
  method ExportObjects(objs: seq<Tracked>, variableIds: set<nat>, numpyObjs: seq<Tracked>,
                       toNumpy: Payload -> Payload)
    returns (variableIds': set<nat>, numpyObjs': seq<Tracked>)
    requires DistinctObjects(objs)
    modifies Objects(objs)
    ensures numpyObjs' == numpyObjs + old(Selected(objs))
    ensures variableIds' == variableIds + old(VariableIds(objs))
    ensures forall t :: t in objs ==> ExportedObject(t, toNumpy)
  {
    variableIds', numpyObjs' := variableIds, numpyObjs;
    for i := 0 to |objs|
      invariant numpyObjs' == numpyObjs + old(Selected(objs[..i]))
      invariant variableIds' == variableIds + old(VariableIds(objs[..i]))
      invariant forall j :: 0 <= j < i ==> ExportedObject(objs[j], toNumpy)
      invariant forall j :: i <= j < |objs| ==> Untouched(objs[j])
    {
      var obj := objs[i];
      assert objs[..i + 1][..i] == objs[..i];
      assert Untouched(obj);
      assert old(Selected(objs[..i + 1])) == old(Selected(objs[..i])) + if DynamicFlag(obj) then [obj] else [];
      assert old(VariableIds(objs[..i + 1]))
          == old(VariableIds(objs[..i])) + if DynamicFlag(obj) && IsVar(obj) then {Id(obj)} else {};
      assert forall j :: 0 <= j < |objs| && j != i ==> Obj(objs[j]) != Obj(obj);
      if DynamicFlag(obj) {
        numpyObjs' := numpyObjs' + [obj];
        var isVar := IsVar(obj);
        if isVar {
          variableIds' := variableIds' + {Id(obj)};
        }
        ExportObject(obj, isVar, toNumpy);
      }
      assert ExportedObject(obj, toNumpy);
    }
    assert objs[..|objs|] == objs;
    assert forall t :: t in objs ==> exists j :: 0 <= j < |objs| && objs[j] == t;
  }

  /** `convert_from_source_backend_to_numpy(variable_ids, numpy_objs)`, with the arrays and
    * containers a heap scan would find given as `arrays` and `containers`: uninitialised arrays
    * are dropped, intermediate arrays removed, and the remaining objects exported; arrays the
    * export does not reach keep their payload. */
  method ConvertFromSourceBackendToNumpy(arrays: seq<IvyArray>, containers: seq<IvyContainer>,
                                         variableIds: set<nat>, numpyObjs: seq<Tracked>,
                                         toNumpy: Payload -> Payload)
    returns (variableIds': set<nat>, numpyObjs': seq<Tracked>)
    requires forall i, j :: 0 <= i < j < |containers| ==> containers[i] != containers[j]
    modifies set a | a in arrays, set c | c in containers
    ensures numpyObjs' == numpyObjs + old(Selected(NewObjs(arrays, containers)))
    ensures variableIds' == variableIds + old(VariableIds(NewObjs(arrays, containers)))
    ensures forall t :: t in old(NewObjs(arrays, containers)) ==> ExportedObject(t, toNumpy)
    ensures forall a :: a in arrays && a !in Objects(old(NewObjs(arrays, containers))) ==> a.data == old(a.data)
  {
    var live := Initialized(arrays);
    var kept := RemoveIntermediateArrays(live, containers);
    var objs := Entries(kept, containers);
    NewObjsDistinct(arrays, containers);
    variableIds', numpyObjs' := ExportObjects(objs, variableIds, numpyObjs, toNumpy);
  }

  /** `convert_from_numpy_to_target_backend(variable_ids, numpy_objs)`: every object's neutral
    * payload is converted by the new backend's `asarray`, and made a variable again exactly when
    * its identity is in `variable_ids`. */
  method ConvertFromNumpyToTargetBackend(variableIds: set<nat>, numpyObjs: seq<Tracked>,
                                         asarray: Payload -> Payload)
    requires DistinctObjects(numpyObjs)
    modifies Objects(numpyObjs)
    ensures forall j :: 0 <= j < |numpyObjs| ==> ImportedObject(numpyObjs[j], variableIds, asarray)
  {
    for i := 0 to |numpyObjs|
      invariant forall j :: 0 <= j < i ==> ImportedObject(numpyObjs[j], variableIds, asarray)
      invariant forall j :: i <= j < |numpyObjs| ==> Untouched(numpyObjs[j])
    {
      var obj := numpyObjs[i];
      assert Obj(obj) in Objects(numpyObjs);
      var isVar := Id(obj) in variableIds;
      if obj.Arr? {
        obj.arr.data := Imported(obj.arr.data, isVar, asarray);
      } else {
        obj.cont.leaves := ImportedLeaves(obj.cont.leaves, isVar, asarray);
      }
    }
  }

  // ---------------------------------------------------------------------
  // The round trip of a dynamic backend switch

  /** `id` tells distinct objects apart. */
  predicate UniqueIds(objs: seq<Tracked>)
  {
    forall i, j :: 0 <= i < |objs| && 0 <= j < |objs| && Id(objs[i]) == Id(objs[j]) ==> objs[i] == objs[j]
  }

  /** When identities are unique, an object's identity is recorded exactly when it is flagged
    * and a variable. */
  lemma RecordedIffVariable(objs: seq<Tracked>, t: Tracked)
    requires UniqueIds(objs) && t in objs
    ensures Id(t) in VariableIds(objs) <==> DynamicFlag(t) && IsVar(t)
  {
    VariableIdsSpec(objs);
  }

  /** Unique identities carry over to any list drawn from the same objects. */
  lemma UniqueIdsWithin(sub: seq<Tracked>, all: seq<Tracked>)
    requires UniqueIds(all)
    requires forall t :: t in sub ==> t in all
    ensures UniqueIds(sub)
  {
    forall i, j | 0 <= i < |sub| && 0 <= j < |sub| && Id(sub[i]) == Id(sub[j])
      ensures sub[i] == sub[j]
    {
      assert sub[i] in all && sub[j] in all;
      var a :| 0 <= a < |all| && all[a] == sub[i];
      var b :| 0 <= b < |all| && all[b] == sub[j];
    }
  }

  /** `new_objs` inherits unique identities from the scanned objects. */
  lemma NewObjsUnique(arrays: seq<IvyArray>, containers: seq<IvyContainer>)
    requires forall i, j :: 0 <= i < j < |containers| ==> containers[i] != containers[j]
    requires UniqueIds(Entries(arrays, containers))
    ensures UniqueIds(NewObjs(arrays, containers))
  {
    var objs := NewObjs(arrays, containers);
    var all := Entries(arrays, containers);
    NewObjsDistinct(arrays, containers);
    forall t | t in objs
      ensures t in all
    {
      assert Obj(t) in Objects(objs);
      if t.Arr? {
        var j :| 0 <= j < |arrays| && arrays[j] == t.arr;
        assert all[j] == t;
      } else {
        var j :| 0 <= j < |containers| && containers[j] == t.cont;
        assert all[|arrays| + j] == t;
      }
    }
    UniqueIdsWithin(objs, all);
  }

  /** What the two loops of a dynamic switch rely on: `numpy_objs` lists distinct objects,
    * exactly the flagged ones, and the identities recorded are those of the flagged variables. */
  lemma SwitchPlan(arrays: seq<IvyArray>, containers: seq<IvyContainer>)
    requires forall i, j :: 0 <= i < j < |containers| ==> containers[i] != containers[j]
    requires UniqueIds(Entries(arrays, containers))
    ensures var objs := NewObjs(arrays, containers);
      && DistinctObjects(Selected(objs))
      && (forall t :: t in objs && DynamicFlag(t) ==> t in Selected(objs))
      && (forall t :: t in objs && !DynamicFlag(t) ==> Obj(t) !in Objects(Selected(objs)))
      && (forall t :: t in objs ==> (Id(t) in VariableIds(objs) <==> DynamicFlag(t) && IsVar(t)))
  {
    var objs := NewObjs(arrays, containers);
    NewObjsDistinct(arrays, containers);
    NewObjsUnique(arrays, containers);
    SelectedDistinct(objs);
    SelectedSpec(objs);
    forall t | t in objs
      ensures Id(t) in VariableIds(objs) <==> DynamicFlag(t) && IsVar(t)
    {
      RecordedIffVariable(objs, t);
    }
  }

  /** The objects `numpy_objs` lists are among the scanned ones. */
  lemma SelectedWithin(arrays: seq<IvyArray>, containers: seq<IvyContainer>)
    requires forall i, j :: 0 <= i < j < |containers| ==> containers[i] != containers[j]
    ensures Objects(Selected(NewObjs(arrays, containers))) <= (set a | a in arrays) + (set c | c in containers)
  {
    var objs := NewObjs(arrays, containers);
    NewObjsDistinct(arrays, containers);
    SelectedSpec(objs);
    assert Objects(Selected(objs)) <= Objects(objs);
  }

  /** What a dynamic switch does to a tracked object: a flagged one ends with its payload
    * exported by `to_numpy` and imported by the new backend's `asarray`, a variable again
    * exactly when it was one; any other is untouched. */
  twostate predicate RoundTripped(t: Tracked, new toNumpy: Payload -> Payload, new asarray: Payload -> Payload)
    reads Obj(t)
  {
    if old(DynamicFlag(t)) then
      && DynamicFlag(t)
      && (t.Arr? ==> t.arr.data == Imported(Exported(old(t.arr.data), old(IsVar(t)), toNumpy), old(IsVar(t)), asarray))
      && (t.Cont? ==> t.cont.leaves
                      == ImportedLeaves(ExportedLeaves(old(t.cont.leaves), old(IsVar(t)), toNumpy), old(IsVar(t)), asarray))
    else Untouched(t)
  }

  /** Every object of `objs` went through the switch. */
  twostate predicate AllRoundTripped(objs: seq<Tracked>, new toNumpy: Payload -> Payload, new asarray: Payload -> Payload)
    reads Objects(objs)
  {
    forall t :: t in objs ==> RoundTripped(t, toNumpy, asarray)
  }

  /** Every object of `objs` is left exported. */
  twostate predicate AllExported(objs: seq<Tracked>, new toNumpy: Payload -> Payload)
    reads Objects(objs)
  {
    forall t :: t in objs ==> ExportedObject(t, toNumpy)
  }

  /** No object of `objs` has changed. */
  twostate predicate AllUntouched(objs: seq<Tracked>)
    reads Objects(objs)
  {
    forall t :: t in objs ==> Untouched(t)
  }

  /** What the import loop leaves a tracked object in: imported when it was flagged, else
    * untouched. */
  twostate predicate Reimported(t: Tracked, new variableIds: set<nat>, new asarray: Payload -> Payload)
    reads Obj(t)
  {
    if old(DynamicFlag(t)) then ImportedObject(t, variableIds, asarray) else Untouched(t)
  }
}
