/**
 * Backend inference from arguments (`_determine_backend_from_args` in
 * `ivy/utils/backend/handler.py`): a walk over nested dictionaries, lists
 * and tuples that returns the backend of the first leaf whose class module
 * is listed in `_array_types`.
 */
module Inference {
  import opened Common
  import opened Backends

  /** The shapes of Python object the walk distinguishes. */
  datatype PyObj =
    | IvyArray(data: PyObj)       // an `ivy.Array`, wrapping its native payload
    | PyDict(values: seq<PyObj>)  // an instance of `dict` or of a subclass; its values in iteration order
    | PyList(items: seq<PyObj>)   // an object whose type is exactly `list` or `tuple`
    | Leaf(classModule: string)   // anything else, known by `type(obj).__module__`

  /** `args.__class__.__module__`. */
  function ClassModule(o: PyObj): string
  {
    match o
    case IvyArray(_) => "ivy.data_classes.array.array"
    case PyDict(_) => "builtins"
    case PyList(_) => "builtins"
    case Leaf(m) => m
  }

  /** `_determine_backend_from_args(args)`: the module name of the inferred backend, or None.
    * The type is taken before an `ivy.Array` is unwrapped, so only a dictionary payload of an
    * array is searched; any other payload is judged by its own class module. */
  function Determine(o: PyObj): (r: Option<string>)
    ensures r.Some? ==> r.value in BackendReverseDict
    decreases o, 1
  {
    var x := if o.IvyArray? then o.data else o;
    if x.PyDict? then FirstOf(x.values)
    else if o.PyList? then FirstOf(o.items)
    else if ClassModule(x) in ArrayTypes then
      TablesAgree();
      Some(ArrayTypes[ClassModule(x)])
    else None
  }

  /** The loop over dictionary values or list elements: the first non-None result. */
  function FirstOf(items: seq<PyObj>): (r: Option<string>)
    ensures r.Some? ==> r.value in BackendReverseDict
    decreases items, 0
  {
    if items == [] then None
    else
      var lib := Determine(items[0]);
      if lib.Some? then lib else FirstOf(items[1..])
  }

  // ---------------------------------------------------------------------
  // Reference definition: the leaves in traversal order, then the first known one

  /** The class modules the walk consults, in the order it consults them. */
  function Leaves(o: PyObj): seq<string>
    decreases o, 1
  {
    var x := if o.IvyArray? then o.data else o;
    if x.PyDict? then LeavesOf(x.values)
    else if o.PyList? then LeavesOf(o.items)
    else [ClassModule(x)]
  }

  function LeavesOf(items: seq<PyObj>): seq<string>
    decreases items, 0
  {
    if items == [] then [] else Leaves(items[0]) + LeavesOf(items[1..])
  }

  /** The backend of the first module in `ms` that `_array_types` lists. */
  function FirstKnown(ms: seq<string>): (r: Option<string>)
    ensures r.None? <==> forall i :: 0 <= i < |ms| ==> ms[i] !in ArrayTypes
    ensures r.Some? ==> exists i :: 0 <= i < |ms| && ms[i] in ArrayTypes && r.value == ArrayTypes[ms[i]]
                                    && forall j :: 0 <= j < i ==> ms[j] !in ArrayTypes
  {
    if ms == [] then None
    else if ms[0] in ArrayTypes then Some(ArrayTypes[ms[0]])
    else
      var r := FirstKnown(ms[1..]);
      assert forall i :: 1 <= i < |ms| ==> ms[i] == ms[1..][i - 1];
      if r.Some? then
        var i :| 0 <= i < |ms[1..]| && ms[1..][i] in ArrayTypes && r.value == ArrayTypes[ms[1..][i]]
                  && forall j :: 0 <= j < i ==> ms[1..][j] !in ArrayTypes;
        assert ms[i + 1] in ArrayTypes && r.value == ArrayTypes[ms[i + 1]];
        r
      else r
  }

  /** The first known module of a concatenation. */
  lemma {:induction false} FirstKnownAppend(a: seq<string>, b: seq<string>)
    ensures FirstKnown(a + b) == if FirstKnown(a).Some? then FirstKnown(a) else FirstKnown(b)
    decreases |a|
  {
    if a != [] {
      assert (a + b)[0] == a[0];
      assert (a + b)[1..] == a[1..] + b;
      FirstKnownAppend(a[1..], b);
    } else {
      assert a + b == b;
    }
  }

  /** The walk returns the backend of the first leaf, in traversal order, whose class module
    * `_array_types` lists, and None when there is no such leaf. */
  lemma {:induction false} DetermineIsFirstKnown(o: PyObj)
    ensures Determine(o) == FirstKnown(Leaves(o))
    decreases o, 1
  {
    var x := if o.IvyArray? then o.data else o;
    if x.PyDict? {
      FirstOfIsFirstKnown(x.values);
    } else if o.PyList? {
      FirstOfIsFirstKnown(o.items);
    }
  }

  lemma {:induction false} FirstOfIsFirstKnown(items: seq<PyObj>)
    ensures FirstOf(items) == FirstKnown(LeavesOf(items))
    decreases items, 0
  {
    if items != [] {
      DetermineIsFirstKnown(items[0]);
      FirstOfIsFirstKnown(items[1..]);
      FirstKnownAppend(Leaves(items[0]), LeavesOf(items[1..]));
    }
  }

  /** An `ivy.Array` is judged by its payload: a native array of a known framework yields that
    * framework's backend, and an array wrapping another array yields None. */
  lemma ArrayUnwrapped(m: string)
    ensures Determine(IvyArray(Leaf(m))) == if m in ArrayTypes then Some(ArrayTypes[m]) else None
    ensures Determine(IvyArray(IvyArray(Leaf(m)))) == None
  {
  }

  /** An `ivy.Array` wrapping a list is not searched, unlike the bare list. */
  lemma ArrayOfListNotSearched(items: seq<PyObj>)
    ensures Determine(IvyArray(PyList(items))) == None
    ensures Determine(PyList(items)) == FirstOf(items)
  {
  }
}
