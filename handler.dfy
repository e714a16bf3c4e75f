/**
 * The global backend state of `ivy/utils/backend/handler.py`: the backend
 * stack, the implicit backend, the snapshot of ivy's original namespace and
 * ivy's namespace itself, with the operations that push, pop and clear the
 * stack and rebind the namespace to the backend on top.
 */
module Handler {
  import opened Common
  import opened Namespace
  import opened Backends
  import opened Inference
  import opened Dynamic

  /** The argument of `set_backend`: a framework name, or a backend module given directly. */
  datatype BackendArg = Named(name: string) | Given(backend: Backend)

  /** `reversed(s)` as a list. */
  function Reversed<T>(s: seq<T>): (r: seq<T>)
    ensures |r| == |s|
  {
    if s == [] then [] else Reversed(s[1..]) + [s[0]]
  }

  lemma {:induction false} ReversedSnoc<T>(s: seq<T>, x: T)
    ensures Reversed(s + [x]) == [x] + Reversed(s)
    decreases |s|
  {
    if s == [] {
      assert Reversed([x]) == Reversed([x][1..]) + [x];
    } else {
      assert (s + [x])[1..] == s[1..] + [x];
      ReversedSnoc(s[1..], x);
    }
  }

  /** The part of `d` whose keys are not in `remaining`: what a loop over the keys of `d` has
    * visited so far. */
  function Visited(d: Dict, remaining: set<string>): (r: Dict)
    ensures r.Keys == d.Keys - remaining
    ensures forall k :: k in r ==> r[k] == d[k]
  {
    map k | k in d && k !in remaining :: d[k]
  }

  /** One iteration of the restore loop of `unset_backend`: visiting key `k` of `d` sets it in
    * the namespace exactly when the snapshot has it. */
  lemma RestoreStep(orig: Dict, d: Dict, remaining: set<string>, k: string, wrap: bool, base: Dict)
    requires k in remaining && remaining <= d.Keys
    ensures base + Restore(orig, Visited(d, remaining - {k}), wrap)
         == if k in orig then (base + Restore(orig, Visited(d, remaining), wrap))[k := if wrap then Wrap(k, d[k], orig[k], false) else d[k]]
            else base + Restore(orig, Visited(d, remaining), wrap)
  {
  }

  /** One iteration of the loop of `_set_backend_as_ivy` on the target: visiting key `k` of
    * `orig` deletes it (a missing invalid dtype) or binds it to the wrapper of the backend's
    * implementation (the original one when the backend lacks it), rebinding an eligible
    * sub-module. */
  lemma RebindTargetStep(orig: Dict, remaining: set<string>, k: string, a0: Dict, invalid: set<string>, t0: Dict,
                         backendStr: string, a: Dict, t: Dict)
    requires k in remaining && remaining <= orig.Keys
    requires t == RebindTarget(Visited(orig, remaining), a0, invalid, t0, backendStr)
    requires a == RebindBackend(Visited(orig, remaining), a0, invalid, t0, backendStr)
    ensures RebindTarget(Visited(orig, remaining - {k}), a0, invalid, t0, backendStr)
         == FilledTarget(orig, k, invalid, backendStr, a, t)
  {
    var r := RebindTarget(Visited(orig, remaining - {k}), a0, invalid, t0, backendStr);
    var e := FilledTarget(orig, k, invalid, backendStr, a, t);
    forall j
      ensures j in r <==> j in e
      ensures j in r ==> r[j] == e[j]
    {
      if j == k {
        RebindTargetAtKey(orig, remaining, k, a0, invalid, t0, backendStr, a, t);
      } else {
        RebindTargetElsewhere(orig, remaining, k, a0, invalid, t0, backendStr, t, j);
      }
    }
  }

  /** The target after visiting key `k` of `orig`, as the loop body of `_set_backend_as_ivy`
    * leaves it. */
  function FilledTarget(orig: Dict, k: string, invalid: set<string>, backendStr: string, a: Dict, t: Dict): Dict
    requires k in orig
  {
    if k !in a && k in invalid && k in t then t - {k}
    else t[k := Nest(Wrap(k, if k in a then a[k] else orig[k], orig[k], k !in a), orig[k], backendStr)]
  }

  lemma RebindTargetAtKey(orig: Dict, remaining: set<string>, k: string, a0: Dict, invalid: set<string>, t0: Dict,
                          backendStr: string, a: Dict, t: Dict)
    requires k in remaining && remaining <= orig.Keys
    requires t == RebindTarget(Visited(orig, remaining), a0, invalid, t0, backendStr)
    requires a == RebindBackend(Visited(orig, remaining), a0, invalid, t0, backendStr)
    ensures var r := RebindTarget(Visited(orig, remaining - {k}), a0, invalid, t0, backendStr);
      if k !in a && k in invalid && k in t then k !in r
      else k in r && r[k] == Nest(Wrap(k, if k in a then a[k] else orig[k], orig[k], k !in a), orig[k], backendStr)
  {
    var p := Visited(orig, remaining - {k});
    assert k !in Visited(orig, remaining);
    assert (k in a <==> k in a0) && (k in a ==> a[k] == a0[k]);
    assert k in t <==> k in t0;
    assert p[k] == orig[k];
  }

  lemma RebindTargetElsewhere(orig: Dict, remaining: set<string>, k: string, a0: Dict, invalid: set<string>, t0: Dict,
                              backendStr: string, t: Dict, j: string)
    requires k in remaining && remaining <= orig.Keys && j != k
    requires t == RebindTarget(Visited(orig, remaining), a0, invalid, t0, backendStr)
    ensures var r := RebindTarget(Visited(orig, remaining - {k}), a0, invalid, t0, backendStr);
      (j in r <==> j in t) && (j in r ==> r[j] == t[j])
  {
    var p := Visited(orig, remaining - {k});
    var q := Visited(orig, remaining);
    if j in q {
      assert Entry(p, a0, j, backendStr) == Entry(q, a0, j, backendStr);
    }
  }

  /** One iteration of the loop of `_set_backend_as_ivy` on the backend: a key it lacks is
    * filled from `orig` (unless dropped), and an eligible sub-module becomes the rebound one. */
  lemma RebindBackendStep(orig: Dict, remaining: set<string>, k: string, a0: Dict, invalid: set<string>, t0: Dict,
                          backendStr: string, a: Dict, t: Dict)
    requires k in remaining && remaining <= orig.Keys
    requires t == RebindTarget(Visited(orig, remaining), a0, invalid, t0, backendStr)
    requires a == RebindBackend(Visited(orig, remaining), a0, invalid, t0, backendStr)
    ensures RebindBackend(Visited(orig, remaining - {k}), a0, invalid, t0, backendStr)
         == FilledBackend(orig, k, invalid, backendStr, a, t)
  {
    var r := RebindBackend(Visited(orig, remaining - {k}), a0, invalid, t0, backendStr);
    var e := FilledBackend(orig, k, invalid, backendStr, a, t);
    forall j
      ensures j in r <==> j in e
      ensures j in r ==> r[j] == e[j]
    {
      if j == k {
        RebindBackendAtKey(orig, remaining, k, a0, invalid, t0, backendStr, a, t);
      } else {
        RebindBackendElsewhere(orig, remaining, k, a0, invalid, t0, backendStr, a, t, j);
      }
    }
  }

  /** The backend after visiting key `k` of `orig`, as the loop body of `_set_backend_as_ivy`
    * leaves it. */
  function FilledBackend(orig: Dict, k: string, invalid: set<string>, backendStr: string, a: Dict, t: Dict): Dict
    requires k in orig
  {
    var a1 := if k !in a then a[k := orig[k]] else a;
    var bound := Nest(Wrap(k, a1[k], orig[k], k !in a), orig[k], backendStr);
    if k !in a && k in invalid && k in t then a
    else if bound.Module? then a1[k := bound] else a1
  }

  lemma RebindBackendAtKey(orig: Dict, remaining: set<string>, k: string, a0: Dict, invalid: set<string>, t0: Dict,
                           backendStr: string, a: Dict, t: Dict)
    requires k in remaining && remaining <= orig.Keys
    requires t == RebindTarget(Visited(orig, remaining), a0, invalid, t0, backendStr)
    requires a == RebindBackend(Visited(orig, remaining), a0, invalid, t0, backendStr)
    ensures var r := RebindBackend(Visited(orig, remaining - {k}), a0, invalid, t0, backendStr);
      var e := FilledBackend(orig, k, invalid, backendStr, a, t);
      (k in r <==> k in e) && (k in r ==> r[k] == e[k])
  {
    var p := Visited(orig, remaining - {k});
    assert k !in Visited(orig, remaining);
    assert (k in a <==> k in a0) && (k in a ==> a[k] == a0[k]);
    assert k in t <==> k in t0;
    assert p[k] == orig[k];
  }

  lemma RebindBackendElsewhere(orig: Dict, remaining: set<string>, k: string, a0: Dict, invalid: set<string>, t0: Dict,
                               backendStr: string, a: Dict, t: Dict, j: string)
    requires k in remaining && remaining <= orig.Keys && j != k
    requires t == RebindTarget(Visited(orig, remaining), a0, invalid, t0, backendStr)
    requires a == RebindBackend(Visited(orig, remaining), a0, invalid, t0, backendStr)
    ensures var r := RebindBackend(Visited(orig, remaining - {k}), a0, invalid, t0, backendStr);
      var e := FilledBackend(orig, k, invalid, backendStr, a, t);
      (j in r <==> j in e) && (j in r ==> r[j] == e[j])
  {
    var p := Visited(orig, remaining - {k});
    var q := Visited(orig, remaining);
    if j in q {
      assert BackendEntry(p, a0, j, backendStr) == BackendEntry(q, a0, j, backendStr);
    }
  }

  /** `set_backend_to_specific_version` on a module with dictionary `attrs` in insertion order
    * `order`: an unknown or unparsable framework version fails before any key is touched. */
  function Versioned(attrs: Dict, order: seq<string>, name: string, installed: map<string, string>): Resolution
    requires forall i :: 0 <= i < |order| ==> order[i] in attrs
  {
    var fv := FrameworkVersion(name, installed);
    if fv.Err? then Resolution(attrs, order, Fail(fv.error))
    else Fold(attrs, order, order, ForVersion(fv.value))
  }

  /** The export step of `set_backend(backend, dynamic=True)`: convert the flagged objects,
    * starting from an empty `variable_ids` and `numpy_objs`. */
  method ExportForSwitch(arrays: seq<IvyArray>, containers: seq<IvyContainer>, toNumpy: Payload -> Payload,
                         ghost objs: seq<Tracked>)
    returns (variableIds: set<nat>, numpyObjs: seq<Tracked>)
    requires forall i, j :: 0 <= i < j < |containers| ==> containers[i] != containers[j]
    requires UniqueIds(Entries(arrays, containers))
    requires objs == NewObjs(arrays, containers)
    modifies set a | a in arrays, set c | c in containers
    ensures DistinctObjects(numpyObjs)
    ensures Objects(numpyObjs) <= (set a | a in arrays) + (set c | c in containers)
    ensures forall t :: t in objs ==> ExportedObject(t, toNumpy)
    ensures forall t :: t in objs ==>
      && (t in numpyObjs <==> old(DynamicFlag(t)))
      && (Obj(t) in Objects(numpyObjs) <==> old(DynamicFlag(t)))
      && (Id(t) in variableIds <==> old(DynamicFlag(t) && IsVar(t)))
  {
    SwitchPlan(arrays, containers);
    SelectedWithin(arrays, containers);
    SelectedSpec(objs);
    variableIds, numpyObjs := ConvertFromSourceBackendToNumpy(arrays, containers, {}, [], toNumpy);
  }

  /** Tracked arrays and containers are not backend modules. */
  lemma ApartFromModules(objs: seq<Tracked>, backends: set<Backend>, handler: BackendHandler)
    ensures forall b :: b in backends ==> b !in Objects(objs)
    ensures handler !in Objects(objs)
  {
  }

  /** Nor is any of them the handler itself. */
  lemma ApartFromHandler(objs: seq<Tracked>, backends: set<Backend>, handler: BackendHandler)
    ensures forall t :: t in objs ==> Obj(t) !in backends && Obj(t) != handler
  {
  }

  class BackendHandler {
    /** `backend_stack`; the last element is the current backend. */
    var stack: seq<Backend>
    /** `implicit_backend`: the framework used when the stack is empty and nothing is inferred. */
    var implicit: string
    /** `ivy_original_dict`: the snapshot of ivy's namespace taken when the stack was empty. */
    var original: Dict
    /** `ivy.__dict__`. */
    var ivy: Dict
    /** What `importlib.import_module` finds: the installed backend modules by module name. */
    const modules: map<string, Backend>
    /** The `__version__` of each installed framework. */
    const installed: map<string, string>

    ghost predicate Valid()
      reads this, modules.Values
    {
      && implicit in BackendDict
      && forall n :: n in modules ==>
           && modules[n].Valid()
           && modules[n].name == n
           && (n in BackendReverseDict ==> modules[n].backendStr == BackendReverseDict[n])
    }

    /** The state right after `import ivy`: an empty stack, numpy as the implicit backend and
      * the snapshot equal to the namespace. */
    constructor(ns: Dict, modules: map<string, Backend>, installed: map<string, string>)
      requires forall n :: n in modules ==>
        && modules[n].Valid()
        && modules[n].name == n
        && (n in BackendReverseDict ==> modules[n].backendStr == BackendReverseDict[n])
      ensures Valid()
      ensures stack == [] && implicit == "numpy" && original == ns && ivy == ns
      ensures this.modules == modules && this.installed == installed
    {
      stack := [];
      implicit := "numpy";
      original := ns;
      ivy := ns;
      this.modules := modules;
      this.installed := installed;
    }

    /** The module `set_backend` pushes for `arg`, or None when importing it fails. */
    function Target(arg: BackendArg): Option<Backend>
    {
      match arg
      case Named(n) => if n in BackendDict && BackendDict[n] in modules then Some(modules[BackendDict[n]]) else None
      case Given(b) => Some(b)
    }

    /** The module `set_backend` changes: the one it pushes. */
    function Pushed(arg: BackendArg): set<Backend>
    {
      if Target(arg).Some? then {Target(arg).value} else {}
    }

    /** The dictionary `unset_backend` restores from: the new top backend's, or the snapshot. */
    function TopDict(): Dict
      reads this, stack
    {
      if stack != [] then stack[|stack| - 1].attrs else original
    }

    /** `current_backend(*args, **kwargs)`, with `args` the positional arguments followed by
      * the keyword values: the top of the stack; else the backend inferred from the
      * arguments, which also becomes the implicit backend; else the implicit backend. */
    method CurrentBackend(args: seq<PyObj>) returns (r: Result<Backend>)
      requires Valid()
      modifies this`implicit
      ensures Valid()
      ensures stack != [] ==> r == Ok(stack[|stack| - 1]) && implicit == old(implicit)
      ensures stack == [] ==>
        var f := Determine(PyList(args));
        && (f.Some? && f.value in modules ==> r == Ok(modules[f.value]) && implicit == BackendReverseDict[f.value])
        && (f.Some? && f.value !in modules ==> r == Err(ImportError) && implicit == old(implicit))
        && (f.None? && BackendDict[implicit] in modules ==> r == Ok(modules[BackendDict[implicit]]) && implicit == old(implicit))
        && (f.None? && BackendDict[implicit] !in modules ==> r == Err(ImportError) && implicit == old(implicit))
    {
      if stack != [] {
        return Ok(stack[|stack| - 1]);
      }
      var f := Determine(PyList(args));
      if f.Some? {
        if f.value !in modules {
          return Err(ImportError);
        }
        var b := modules[f.value];
        TablesAgree();
        implicit := b.backendStr;
        return Ok(b);
      }
      var name := BackendDict[implicit];
      if name !in modules {
        return Err(ImportError);
      }
      r := Ok(modules[name]);
    }

    /** `unset_backend()`: pop the current backend, then put back every snapshot key of the
      * new top backend (wrapped) or of the snapshot itself (as it was). */
    method UnsetBackend() returns (r: Option<Backend>)
      modifies this`stack, this`ivy
      ensures old(stack) == [] ==> r == None && stack == [] && ivy == old(ivy)
      ensures old(stack) != [] ==>
        && r == Some(old(stack)[|old(stack)| - 1])
        && stack == old(stack)[..|old(stack)| - 1]
        && ivy == old(ivy) + Restore(original, TopDict(), stack != [])
    {
      if stack == [] {
        return None;
      }
      r := Some(stack[|stack| - 1]);
      var rest := stack[..|stack| - 1];
      var d := if rest != [] then rest[|rest| - 1].attrs else original;
      var wrap := rest != [];
      var ns := ivy;
      var remaining := d.Keys;
      while remaining != {}
        invariant remaining <= d.Keys
        invariant ns == old(ivy) + Restore(original, Visited(d, remaining), wrap)
        decreases remaining
      {
        var k :| k in remaining;
        if k in original {
          var v := if wrap then Wrap(k, d[k], original[k], false) else d[k];
          ns := ns[k := v];
        }
        RestoreStep(original, d, remaining, k, wrap, old(ivy));
        remaining := remaining - {k};
      }
      assert Visited(d, {}) == d;
      stack, ivy := rest, ns;
    }

    /** `_set_backend_as_ivy(orig, ivy, b)`: bind every key of `orig` in ivy's namespace to the
      * wrapper of `b`'s implementation, filling `b` with the original where it lacks one,
      * deleting missing invalid dtypes, and descending into eligible sub-modules. */
    method SetBackendAsIvy(orig: Dict, b: Backend)
      requires b.Valid()
      modifies this`ivy, b
      ensures b.Valid()
      ensures ivy == RebindTarget(orig, old(b.attrs), b.invalidDtypes, old(ivy), b.backendStr)
      ensures b.attrs == RebindBackend(orig, old(b.attrs), b.invalidDtypes, old(ivy), b.backendStr)
      ensures |old(b.order)| <= |b.order| && b.order[..|old(b.order)|] == old(b.order)
    {
      var a, o, t := b.attrs, b.order, ivy;
      var remaining := orig.Keys;
      assert Visited(orig, remaining) == map[];
      assert t == RebindTarget(map[], a, b.invalidDtypes, t, b.backendStr);
      assert a == RebindBackend(map[], a, b.invalidDtypes, t, b.backendStr);
      while remaining != {}
        invariant remaining <= orig.Keys
        invariant t == RebindTarget(Visited(orig, remaining), old(b.attrs), b.invalidDtypes, old(ivy), b.backendStr)
        invariant a == RebindBackend(Visited(orig, remaining), old(b.attrs), b.invalidDtypes, old(ivy), b.backendStr)
        invariant Distinct(o) && forall k :: k in a <==> k in o
        invariant |old(b.order)| <= |o| && o[..|old(b.order)|] == old(b.order)
        decreases remaining
      {
        var k :| k in remaining;
        RebindTargetStep(orig, remaining, k, old(b.attrs), b.invalidDtypes, old(ivy), b.backendStr, a, t);
        RebindBackendStep(orig, remaining, k, old(b.attrs), b.invalidDtypes, old(ivy), b.backendStr, a, t);
        var v := orig[k];
        var comp := k !in a;
        if comp && k in b.invalidDtypes && k in t {
          t := t - {k};
        } else {
          if comp {
            a := a[k := v];
            o := o + [k];
          }
          var bound := Nest(Wrap(k, a[k], v, comp), v, b.backendStr);
          t := t[k := bound];
          if bound.Module? {
            a := a[k := bound];
          }
        }
        remaining := remaining - {k};
      }
      assert Visited(orig, {}) == orig;
      ivy := t;
      b.attrs, b.order := a, o;
    }

    /** `clear_backend_stack()`: unset until the stack is empty, which restores the snapshot. */
    method ClearBackendStack()
      modifies this`stack, this`ivy
      ensures stack == []
      ensures old(stack) == [] ==> ivy == old(ivy)
      ensures old(stack) != [] ==> ivy == old(ivy) + original
    {
      while stack != []
        invariant old(stack) == [] ==> stack == [] && ivy == old(ivy)
        invariant forall k :: k !in original ==> (k in ivy <==> k in old(ivy)) && (k in ivy ==> ivy[k] == old(ivy)[k])
        invariant old(stack) != [] && stack == [] ==> forall k :: k in original ==> k in ivy && ivy[k] == original[k]
        decreases |stack|
      {
        ghost var before := ivy;
        var _ := UnsetBackend();
        if stack == [] {
          RestoreOriginal(original, before);
        }
      }
      if old(stack) != [] {
        assert ivy == old(ivy) + original;
      }
    }

    /** The unwinding loop of `set_backend`: unset every backend, collecting them in the order
      * they were popped; the last unset restores the snapshot. */
    method PopAll() returns (popped: seq<Backend>)
      modifies this`stack, this`ivy
      ensures stack == [] && old(stack) == Reversed(popped)
      ensures old(stack) == [] ==> ivy == old(ivy)
      ensures old(stack) != [] ==> ivy == old(ivy) + original
    {
      popped := [];
      while stack != []
        invariant old(stack) == stack + Reversed(popped)
        invariant old(stack) == [] ==> ivy == old(ivy)
        invariant forall k :: k !in original ==> (k in ivy <==> k in old(ivy)) && (k in ivy ==> ivy[k] == old(ivy)[k])
        invariant old(stack) != [] && stack == [] ==> forall k :: k in original ==> k in ivy && ivy[k] == original[k]
        decreases |stack|
      {
        ghost var before := ivy;
        ghost var s := stack;
        var b := UnsetBackend();
        if stack == [] {
          RestoreOriginal(original, before);
        }
        ReversedSnoc(popped, b.value);
        assert s == stack + [b.value];
        popped := popped + [b.value];
      }
      if old(stack) != [] {
        assert ivy == old(ivy) + original;
      }
    }

    /** The replay loop of `set_backend`: push the popped backends back in their old order. */
    method Replay(popped: seq<Backend>)
      modifies this`stack
      ensures stack == old(stack) + Reversed(popped)
    {
      var order := Reversed(popped);
      for i := 0 to |order|
        invariant stack == old(stack) + order[..i]
      {
        assert order[..i + 1] == order[..i] + [order[i]];
        stack := stack + [order[i]];
      }
      assert order[..|order|] == order;
    }

    /** `set_backend` accepts a backend module, or the name of a known framework. */
    predicate Accepted(arg: BackendArg)
    {
      arg.Named? ==> arg.name in BackendDict
    }

    /** `set_backend(backend)`: validate the name, snapshot ivy's namespace if the stack is
      * empty, import the module (unwinding the stack around the import when given a name),
      * push it, bind its version-specific functions, and rebind ivy's namespace to it. */
    /** The state `set_backend(arg)` leaves behind, with `outcome` what it raised: a rejected
      * name changes nothing; otherwise the snapshot is taken if the stack was empty; a failed
      * import leaves the stack empty; a module is pushed, its version-specific functions are
      * bound (keeping its insertion order as a prefix), and unless that raised, ivy's namespace
      * and the module are rebound. */
    twostate predicate SetBackendDone(arg: BackendArg, outcome: Outcome)
      requires old(Valid()) && (arg.Given? ==> old(arg.backend.Valid()))
      reads this, modules.Values, Pushed(arg)
    {
      && Valid() && implicit == old(implicit)
      && (!Accepted(arg) ==>
            outcome == Fail(IvyException) && stack == old(stack) && ivy == old(ivy) && original == old(original))
      && (Accepted(arg) ==> original == if old(stack) == [] then old(ivy) else old(original))
      && (Accepted(arg) && Target(arg).None? ==>
            && outcome == Fail(ImportError)
            && stack == []
            && ivy == if old(stack) == [] then old(ivy) else old(ivy) + original)
      && (Accepted(arg) && Target(arg).Some? ==>
            var b := Target(arg).value;
            var unwound := if arg.Named? && old(stack) != [] then old(ivy) + original else old(ivy);
            var v := Versioned(old(b.attrs), old(b.order), b.name, installed);
            && b.Valid()
            && stack == old(stack) + [b]
            && (v.outcome.Fail? ==> outcome == v.outcome && b.attrs == v.attrs && b.order == v.order && ivy == unwound)
            && (v.outcome.Pass? ==>
                  && outcome == Pass
                  && ivy == RebindTarget(original, v.attrs, b.invalidDtypes, unwound, b.backendStr)
                  && b.attrs == RebindBackend(original, v.attrs, b.invalidDtypes, unwound, b.backendStr)
                  && |v.order| <= |b.order| && b.order[..|v.order|] == v.order))
    }

    method SetBackend(arg: BackendArg) returns (outcome: Outcome)
      requires Valid() && (arg.Given? ==> arg.backend.Valid())
      modifies this, Pushed(arg)
      ensures SetBackendDone(arg, outcome)
    {
      if arg.Named? && arg.name !in BackendDict {
        return Fail(IvyException);
      }
      var b := Import(arg);
      if b.None? {
        return Fail(ImportError);
      }
      outcome := Activate(b.value);
    }

    /** The first half of an accepted `set_backend`: snapshot ivy's namespace if the stack is
      * empty, then obtain the module; for a name, the stack is unwound (restoring the snapshot)
      * around the import and replayed after it, and stays empty when the import fails. */
    method Import(arg: BackendArg) returns (b: Option<Backend>)
      requires Accepted(arg)
      modifies this`original, this`stack, this`ivy
      ensures original == if old(stack) == [] then old(ivy) else old(original)
      ensures b == Target(arg)
      ensures b.None? ==> stack == []
      ensures b.Some? ==> stack == old(stack)
      ensures ivy == if arg.Named? && old(stack) != [] then old(ivy) + original else old(ivy)
    {
      if stack == [] {
        original := ivy;
      }
      if arg.Named? {
        var popped := PopAll();
        var name := BackendDict[arg.name];
        if name !in modules {
          return None;
        }
        Replay(popped);
        b := Some(modules[name]);
      } else {
        b := Some(arg.backend);
      }
    }

    /** The second half: push `b`, bind its version-specific functions, and, unless that
      * raises, rebind ivy's namespace to it. */
    method Activate(b: Backend) returns (outcome: Outcome)
      requires b.Valid()
      modifies this`stack, this`ivy, b
      ensures b.Valid()
      ensures stack == old(stack) + [b]
      ensures var v := Versioned(old(b.attrs), old(b.order), b.name, installed);
        && (v.outcome.Fail? ==> outcome == v.outcome && b.attrs == v.attrs && b.order == v.order && ivy == old(ivy))
        && (v.outcome.Pass? ==>
              && outcome == Pass
              && ivy == RebindTarget(original, v.attrs, b.invalidDtypes, old(ivy), b.backendStr)
              && b.attrs == RebindBackend(original, v.attrs, b.invalidDtypes, old(ivy), b.backendStr)
              && |v.order| <= |b.order| && b.order[..|v.order|] == v.order)
    {
      stack := stack + [b];
      outcome := b.ResolveVersions(installed);
      if outcome.Fail? {
        return;
      }
      SetBackendAsIvy(original, b);
    }

    /** `set_backend(backend, dynamic=True)`: after the name is validated, the tracked objects
      * whose `dynamic_backend` flag is set are exported to NumPy, the backend is set, and they
      * are imported by the new backend's `asarray`. */
    method SetBackendDynamic(arg: BackendArg, arrays: seq<IvyArray>, containers: seq<IvyContainer>,
                             toNumpy: Payload -> Payload, asarray: Payload -> Payload)
      returns (outcome: Outcome)
      requires Valid() && (arg.Given? ==> arg.backend.Valid())
      requires forall i, j :: 0 <= i < j < |containers| ==> containers[i] != containers[j]
      requires UniqueIds(Entries(arrays, containers))
      modifies this, Pushed(arg)
      modifies set a | a in arrays, set c | c in containers
      ensures SetBackendDone(arg, outcome)
      ensures !Accepted(arg) ==> unchanged(set a | a in arrays, set c | c in containers)
      ensures Accepted(arg) && outcome.Fail? ==> AllExported(old(NewObjs(arrays, containers)), toNumpy)
      ensures outcome.Pass? ==> AllRoundTripped(old(NewObjs(arrays, containers)), toNumpy, asarray)
    {
      if arg.Named? && arg.name !in BackendDict {
        return Fail(IvyException);
      }
      ghost var objs := NewObjs(arrays, containers);
      outcome := DynamicSwitch(arg, arrays, containers, toNumpy, asarray, objs);
    }

    /** An accepted dynamic switch: export the flagged objects, set the backend, import them. */
    method DynamicSwitch(arg: BackendArg, arrays: seq<IvyArray>, containers: seq<IvyContainer>,
                         toNumpy: Payload -> Payload, asarray: Payload -> Payload, ghost objs: seq<Tracked>)
      returns (outcome: Outcome)
      requires Valid() && Accepted(arg) && (arg.Given? ==> arg.backend.Valid())
      requires forall i, j :: 0 <= i < j < |containers| ==> containers[i] != containers[j]
      requires UniqueIds(Entries(arrays, containers))
      requires objs == NewObjs(arrays, containers)
      modifies this, Pushed(arg)
      modifies set a | a in arrays, set c | c in containers
      ensures SetBackendDone(arg, outcome)
      ensures outcome.Fail? ==> AllExported(objs, toNumpy)
      ensures outcome.Pass? ==> AllRoundTripped(objs, toNumpy, asarray)
    {
      NewObjsDistinct(arrays, containers);
      var variableIds, numpyObjs := ExportForSwitch(arrays, containers, toNumpy, objs);
      label exported:
      outcome := SwitchAndImport(arg, variableIds, numpyObjs, asarray, objs);
      if outcome.Fail? {
        forall t | t in objs
          ensures ExportedObject(t, toNumpy)
        {
          assert Untouched@exported(t);
        }
        return;
      }
      forall t | t in objs
        ensures RoundTripped(t, toNumpy, asarray)
      {
        assert Reimported@exported(t, variableIds, asarray);
      }
    }

    /** `set_backend` as the dynamic path sees it, with the whole state it leaves; on success
      * the target was pushed. */
    method Switch(arg: BackendArg) returns (outcome: Outcome)
      requires Valid() && Accepted(arg) && (arg.Given? ==> arg.backend.Valid())
      modifies this, Pushed(arg)
      ensures SetBackendDone(arg, outcome)
      ensures outcome.Pass? ==> Target(arg).Some? && stack == old(stack) + [Target(arg).value]
    {
      outcome := SetBackend(arg);
    }

    /** The rest of `set_backend(backend, dynamic=True)` once the objects are exported: set the
      * backend, then import the exported objects; a failure leaves them exported. */
    method SwitchAndImport(arg: BackendArg, variableIds: set<nat>, numpyObjs: seq<Tracked>,
                           asarray: Payload -> Payload, ghost objs: seq<Tracked>)
      returns (outcome: Outcome)
      requires Valid() && Accepted(arg) && (arg.Given? ==> arg.backend.Valid())
      requires DistinctObjects(numpyObjs)
      requires forall t :: t in objs ==>
        && (t in numpyObjs <==> DynamicFlag(t))
        && (Obj(t) in Objects(numpyObjs) <==> DynamicFlag(t))
      modifies this, Pushed(arg), Objects(numpyObjs)
      ensures SetBackendDone(arg, outcome)
      ensures outcome.Fail? ==> AllUntouched(objs)
      ensures outcome.Pass? ==> forall t :: t in objs ==> Reimported(t, variableIds, asarray)
    {
      ApartFromHandler(objs, Pushed(arg), this);
      outcome := Switch(arg);
      assert AllUntouched(objs);
      if outcome.Fail? {
        return;
      }
      ApartFromModules(numpyObjs, modules.Values + Pushed(arg), this);
      label switched:
      forall t | t in objs
        ensures (t in numpyObjs <==> DynamicFlag(t)) && (Obj(t) in Objects(numpyObjs) <==> DynamicFlag(t))
      {
        assert Untouched(t);
      }
      ImportForSwitch(variableIds, numpyObjs, asarray, objs);
      assert unchanged@switched(this) && unchanged@switched(modules.Values + Pushed(arg));
      forall t | t in objs
        ensures Reimported(t, variableIds, asarray)
      {
        assert Reimported@switched(t, variableIds, asarray);
        assert Untouched@switched(t) || ImportedObject@switched(t, variableIds, asarray);
      }
    }
  }

  /** The import step of a dynamic switch: the flagged objects are imported by the new
    * backend's `asarray`, and the others are left as they are. */
  method ImportForSwitch(variableIds: set<nat>, numpyObjs: seq<Tracked>, asarray: Payload -> Payload,
                         ghost objs: seq<Tracked>)
    requires DistinctObjects(numpyObjs)
    requires forall t :: t in objs ==>
      && (t in numpyObjs <==> DynamicFlag(t))
      && (Obj(t) in Objects(numpyObjs) <==> DynamicFlag(t))
    modifies Objects(numpyObjs)
    ensures forall t :: t in objs ==> Reimported(t, variableIds, asarray)
  {
    ConvertFromNumpyToTargetBackend(variableIds, numpyObjs, asarray);
    forall t | t in objs
      ensures Reimported(t, variableIds, asarray)
    {
      if old(DynamicFlag(t)) {
        var k :| 0 <= k < |numpyObjs| && numpyObjs[k] == t;
        assert ImportedObject(numpyObjs[k], variableIds, asarray);
      }
    }
  }

  /** `ContextManager(module)`: `with` sets the backend on entry and unsets it on exit. */
  class ContextManager {
    const handler: BackendHandler
    const arg: BackendArg

    constructor(handler: BackendHandler, arg: BackendArg)
      ensures this.handler == handler && this.arg == arg
    {
      this.handler := handler;
      this.arg := arg;
    }

    /** `__enter__`: `set_backend(self.module)`. */
    method Enter() returns (outcome: Outcome)
      requires handler.Valid() && (arg.Given? ==> arg.backend.Valid())
      modifies handler, handler.Pushed(arg)
      ensures handler.SetBackendDone(arg, outcome)
    {
      outcome := handler.SetBackend(arg);
    }

    /** `__exit__`: `unset_backend()`; leaving the outermost block restores the snapshot. */
    method Exit()
      modifies handler`stack, handler`ivy
      ensures old(handler.stack) != [] ==>
        && handler.stack == old(handler.stack)[..|old(handler.stack)| - 1]
        && handler.ivy == old(handler.ivy) + Restore(handler.original, handler.TopDict(), handler.stack != [])
      ensures old(handler.stack) == [] ==> handler.stack == [] && handler.ivy == old(handler.ivy)
      ensures |old(handler.stack)| == 1 ==> handler.ivy == old(handler.ivy) + handler.original
    {
      var _ := handler.UnsetBackend();
      if |old(handler.stack)| == 1 {
        RestoreOriginal(handler.original, old(handler.ivy));
      }
    }
  }
}
