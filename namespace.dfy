/**
 * The values that live in ivy's namespace and in backend modules, and the
 * pure part of the namespace rebinder (`_set_backend_as_ivy` in
 * `ivy/utils/backend/handler.py`): which implementation each key of the
 * original namespace is bound to, how it is wrapped, and how the rebinder
 * descends into `ivy.functional` sub-modules.
 */
module Namespace {
  import opened PyStr

  /** An attribute of a module: a function, some other object, a function wrapped by
    * `_wrap_function`, or a sub-module with its own attribute dictionary. */
  datatype Value =
    | Fn(ident: nat, name: string)
    | Const(ident: nat)
    | Wrapped(key: string, impl: Value, original: Value, compositional: bool)
    | Module(name: string, file: string, attrs: map<string, Value>)

  /** A module's `__dict__`. */
  type Dict = map<string, Value>

  /** `_wrap_function(key, to_wrap, original, compositional)`. Its body is not part of this
    * model: a module is passed through unchanged (the rebinder then descends into it), and
    * anything else becomes a wrapper recording the four arguments. */
  function Wrap(key: string, impl: Value, original: Value, compositional: bool): (r: Value)
    ensures r.Module? <==> impl.Module?
    ensures Unwrap(r) == impl
  {
    if impl.Module? then impl else Wrapped(key, impl, original, compositional)
  }

  /** The implementation behind a wrapper. */
  function Unwrap(v: Value): Value
  {
    if v.Wrapped? then v.impl else v
  }

  /** `r` is what the rebinder binds key `k` to when `impl` implements it, `orig` is
    * the original value and `comp` says the backend lacked the key: the wrapper of `impl`,
    * or, for a module, that module (with its attributes possibly rebound). */
  ghost predicate BoundTo(r: Value, k: string, impl: Value, orig: Value, comp: bool)
  {
    if impl.Module? then r.Module? && r.name == impl.name && r.file == impl.file
    else r == Wrapped(k, impl, orig, comp)
  }

  /** The sub-modules the rebinder descends into: `ivy.functional` modules that are not the
    * backend's own package (`<backend_str>/__init__.py` is not in their `__file__`). */
  predicate Eligible(v: Value, backendStr: string)
  {
    v.Module? && Contains(v.name, "ivy.functional.") && !Contains(v.file, backendStr + "/__init__.py")
  }

  /** The implementation chosen for key `k`: the backend's own if it has one, else the original. */
  function Chosen(backend: Dict, orig: Dict, k: string): Value
    requires k in orig
  {
    if k in backend then backend[k] else orig[k]
  }

  /** The binding of one key after the recursive call of the rebinder: the wrapped value `w`,
    * and, when the original value `v` is an eligible sub-module, that sub-module rebound. */
  function Nest(w: Value, v: Value, backendStr: string): (r: Value)
    ensures r.Module? <==> w.Module?
    ensures r.Module? ==> r.name == w.name && r.file == w.file
    decreases v, 1
  {
    if Eligible(v, backendStr) && w.Module? then Module(w.name, w.file, Bind(v, w.attrs, backendStr))
    else w
  }

  /** The recursive call of the rebinder on a sub-module: `_wrap_function` returns the module
    * itself, so the target sub-module and the backend sub-module are one dictionary `ns`;
    * every key of the original sub-module `v` is bound in it, keys of `ns` that `v` lacks are
    * kept. */
  function Bind(v: Value, ns: Dict, backendStr: string): (r: Dict)
    requires v.Module?
    ensures r.Keys == ns.Keys + v.attrs.Keys
    decreases v, 0
  {
    ns + map k | k in v.attrs ::
      Nest(Wrap(k, Chosen(ns, v.attrs, k), v.attrs[k], k !in ns), v.attrs[k], backendStr)
  }

  /** `r` rebinds the original sub-module `v` all the way down: if the rebinder descends into
    * `v`, every key of `v` is bound in `r`, with the compositional flag telling whether the
    * sub-module lacked it, and the same holds for the sub-modules below. */
  ghost predicate Covers(v: Value, ns: Dict, r: Value, backendStr: string)
    decreases v
  {
    Eligible(v, backendStr) && r.Module? ==>
      forall k :: k in v.attrs ==>
        && k in r.attrs
        && BoundTo(r.attrs[k], k, Chosen(ns, v.attrs, k), v.attrs[k], k !in ns)
        && Covers(v.attrs[k], if Chosen(ns, v.attrs, k).Module? then Chosen(ns, v.attrs, k).attrs else map[],
                  r.attrs[k], backendStr)
  }

  /** The binding the rebinder gives key `k` of the original namespace. */
  function Entry(orig: Dict, backend: Dict, k: string, backendStr: string): Value
    requires k in orig
  {
    Nest(Wrap(k, Chosen(backend, orig, k), orig[k], k !in backend), orig[k], backendStr)
  }

  /** The binding of `k` is the wrapper of the chosen implementation, and the sub-modules
    * below it are rebound all the way down. */
  lemma {:induction false} EntryBound(orig: Dict, backend: Dict, k: string, backendStr: string)
    requires k in orig
    ensures BoundTo(Entry(orig, backend, k, backendStr), k, Chosen(backend, orig, k), orig[k], k !in backend)
    ensures var c := Chosen(backend, orig, k);
      Covers(orig[k], if c.Module? then c.attrs else map[], Entry(orig, backend, k, backendStr), backendStr)
  {
    var c := Chosen(backend, orig, k);
    NestCovers(Wrap(k, c, orig[k], k !in backend), orig[k], backendStr);
  }

  /** Rebinding covers the whole original sub-module, recursively. */
  lemma {:induction false} NestCovers(w: Value, v: Value, backendStr: string)
    ensures Covers(v, if w.Module? then w.attrs else map[], Nest(w, v, backendStr), backendStr)
    decreases v
  {
    var r := Nest(w, v, backendStr);
    if Eligible(v, backendStr) && r.Module? {
      var ns := w.attrs;
      assert r.attrs == Bind(v, ns, backendStr);
      forall k | k in v.attrs
        ensures k in r.attrs
        ensures BoundTo(r.attrs[k], k, Chosen(ns, v.attrs, k), v.attrs[k], k !in ns)
        ensures Covers(v.attrs[k], if Chosen(ns, v.attrs, k).Module? then Chosen(ns, v.attrs, k).attrs else map[],
                       r.attrs[k], backendStr)
      {
        var c := Chosen(ns, v.attrs, k);
        var wk := Wrap(k, c, v.attrs[k], k !in ns);
        assert r.attrs[k] == Nest(wk, v.attrs[k], backendStr);
        NestCovers(wk, v.attrs[k], backendStr);
      }
    }
  }

  // ---------------------------------------------------------------------
  // One run of the rebinder over the top-level namespace, and the restore loop of unset_backend

  /** A key of the original namespace that the rebinder deletes from the target instead of
    * binding: the backend lacks it, it names an invalid dtype, and the target has it. */
  predicate Dropped(backend: Dict, invalid: set<string>, target: Dict, k: string)
  {
    k !in backend && k in invalid && k in target
  }

  /** What the backend holds at `k` after the rebinder: the chosen implementation, a sub-module
    * being the very module the target is bound to. */
  function BackendEntry(orig: Dict, backend: Dict, k: string, backendStr: string): Value
    requires k in orig
  {
    if Chosen(backend, orig, k).Module? then Entry(orig, backend, k, backendStr) else Chosen(backend, orig, k)
  }

  /** The target namespace after `_set_backend_as_ivy(orig, target, backend)`: every key of
    * `orig` bound, except the dropped ones, which are gone; other keys kept. */
  function RebindTarget(orig: Dict, backend: Dict, invalid: set<string>, target: Dict, backendStr: string): Dict
  {
    map k | k in target.Keys + orig.Keys && !(k in orig && Dropped(backend, invalid, target, k)) ::
      if k in orig then Entry(orig, backend, k, backendStr) else target[k]
  }

  /** The backend's dictionary after the rebinder: the keys it lacked filled in from `orig`
    * (except the dropped ones). */
  function RebindBackend(orig: Dict, backend: Dict, invalid: set<string>, target: Dict, backendStr: string): Dict
  {
    map k | k in backend.Keys + orig.Keys && !(k in orig && Dropped(backend, invalid, target, k)) ::
      if k in orig then BackendEntry(orig, backend, k, backendStr) else backend[k]
  }

  /** The rebinder invariant: every key of `orig` is bound in the target to the wrapper of the
    * backend's implementation (the original one when the backend lacked it), with the
    * compositional flag saying exactly that, and the backend then holds that implementation;
    * the only exception is a missing invalid dtype, which is deleted; nothing else changes. */
  lemma RebindInvariant(orig: Dict, backend: Dict, invalid: set<string>, target: Dict, backendStr: string, k: string)
    ensures var t := RebindTarget(orig, backend, invalid, target, backendStr);
      var b := RebindBackend(orig, backend, invalid, target, backendStr);
      && (k in orig && Dropped(backend, invalid, target, k) ==> k !in t && k !in b)
      && (k in orig && !Dropped(backend, invalid, target, k) ==>
            && k in t && k in b
            && BoundTo(t[k], k, Chosen(backend, orig, k), orig[k], k !in backend)
            && Unwrap(t[k]) == b[k])
      && (k !in orig ==>
            && (k in t <==> k in target) && (k in t ==> t[k] == target[k])
            && (k in b <==> k in backend) && (k in b ==> b[k] == backend[k]))
      && (k in backend && k in orig ==> b[k].Module? == backend[k].Module?)
  {
    if k in orig && !Dropped(backend, invalid, target, k) {
      EntryBound(orig, backend, k, backendStr);
    }
  }

  /** Every key of `orig` ends up in the backend unless it is dropped. */
  lemma RebindFillsBackend(orig: Dict, backend: Dict, invalid: set<string>, target: Dict, backendStr: string)
    ensures RebindBackend(orig, backend, invalid, target, backendStr).Keys
         == backend.Keys + (set k | k in orig && !Dropped(backend, invalid, target, k))
  {
  }

  /** The loop of `unset_backend`: every key of `top` (the new top backend's dictionary, or the
    * snapshot when the stack is empty) that the snapshot has, wrapped when a backend remains. */
  function Restore(orig: Dict, top: Dict, wrap: bool): (r: Dict)
    ensures r.Keys == top.Keys * orig.Keys
  {
    map k | k in top && k in orig :: if wrap then Wrap(k, top[k], orig[k], false) else top[k]
  }

  /** With the stack empty, unsetting puts every snapshot key back to its original value. */
  lemma RestoreOriginal(orig: Dict, ns: Dict)
    ensures ns + Restore(orig, orig, false) == ns + orig
    ensures forall k :: k in orig ==> (ns + Restore(orig, orig, false))[k] == orig[k]
  {
    assert Restore(orig, orig, false) == orig;
  }

  /** With a backend left, unsetting binds every snapshot key the backend has to the wrapper of
    * the backend's implementation (not compositional); other keys stay. */
  lemma RestoreWrapped(orig: Dict, top: Dict, ns: Dict, k: string)
    ensures k in orig && k in top ==> (ns + Restore(orig, top, true))[k] == Wrap(k, top[k], orig[k], false)
    ensures !(k in orig && k in top) ==> (k in ns + Restore(orig, top, true) <==> k in ns)
    ensures !(k in orig && k in top) && k in ns ==> (ns + Restore(orig, top, true))[k] == ns[k]
  {
  }

  /** Setting a backend on an empty stack and unsetting it again restores the namespace
    * exactly: the snapshot is the namespace itself, the rebinder touches only its keys, and the
    * restore loop puts every one of them back. */
  lemma {:induction false} SetThenUnsetRestores(ns: Dict, backend: Dict, invalid: set<string>, backendStr: string)
    ensures RebindTarget(ns, backend, invalid, ns, backendStr) + Restore(ns, ns, false) == ns
  {
    var t := RebindTarget(ns, backend, invalid, ns, backendStr);
    assert Restore(ns, ns, false) == ns;
    assert t.Keys <= ns.Keys;
  }
}

