/**
 * Backend modules and the tables that name them (`ivy/utils/backend/handler.py`),
 * and `set_backend_to_specific_version`, which points each canonical function
 * name of a backend at the variant written for the installed framework version.
 */
module Backends {
  import opened Common
  import opened PyStr
  import opened Version
  import opened Namespace

  // ---------------------------------------------------------------------
  // The module tables

  /** `_backend_dict`: backend name to backend module. */
  const BackendDict: map<string, string> := map[
    "numpy" := "ivy.functional.backends.numpy",
    "jax" := "ivy.functional.backends.jax",
    "tensorflow" := "ivy.functional.backends.tensorflow",
    "torch" := "ivy.functional.backends.torch",
    "mindspore" := "ivy.functional.backends.mindspore"]

  /** `_backend_reverse_dict`: backend module to backend name. */
  const BackendReverseDict: map<string, string> := map[
    "ivy.functional.backends.numpy" := "numpy",
    "ivy.functional.backends.jax" := "jax",
    "ivy.functional.backends.tensorflow" := "tensorflow",
    "ivy.functional.backends.torch" := "torch",
    "ivy.functional.backends.mindspore" := "mindspore"]

  /** `_array_types`: the module of a native array class to the backend module that handles it. */
  const ArrayTypes: map<string, string> := map[
    "numpy" := "ivy.functional.backends.numpy",
    "jax.interpreters.xla" := "ivy.functional.backends.jax",
    "jaxlib.xla_extension" := "ivy.functional.backends.jax",
    "tensorflow.python.framework.ops" := "ivy.functional.backends.tensorflow",
    "tensorflow.python.ops.resource_variable_ops" := "ivy.functional.backends.tensorflow",
    "torch" := "ivy.functional.backends.torch",
    "torch.nn.parameter" := "ivy.functional.backends.torch",
    "mindspore" := "ivy.functional.backends.mindspore",
    "mindspore.common.tensor" := "ivy.functional.backends.mindspore"]

  /** The two backend tables are inverse to each other, and every array type is handled by
    * one of the named backends. */
  lemma TablesAgree()
    ensures forall n :: n in BackendDict ==> BackendDict[n] in BackendReverseDict && BackendReverseDict[BackendDict[n]] == n
    ensures forall m :: m in BackendReverseDict ==> BackendReverseDict[m] in BackendDict && BackendDict[BackendReverseDict[m]] == m
    ensures forall t :: t in ArrayTypes ==> ArrayTypes[t] in BackendReverseDict
  {
    assert BackendDict.Keys == {"numpy", "jax", "tensorflow", "torch", "mindspore"};
    assert BackendReverseDict.Keys == {"ivy.functional.backends.numpy", "ivy.functional.backends.jax",
      "ivy.functional.backends.tensorflow", "ivy.functional.backends.torch", "ivy.functional.backends.mindspore"};
  }

  // ---------------------------------------------------------------------
  // Version resolution as a fold over the backend's keys

  /** Setting `__name__` on a bound value. A wrapper's name is not tracked by this model; a
    * plain object has no `__name__` to set. */
  function Rename(v: Value, p: string): (r: Result<Value>)
    ensures r.Ok? <==> !v.Const?
    ensures r.Ok? && (v.Fn? || v.Module?) ==> (r.value.Fn? || r.value.Module?) && r.value.name == p
  {
    match v
    case Fn(i, _) => Ok(Fn(i, p))
    case Module(_, f, a) => Ok(Module(p, f, a))
    case Wrapped(_, _, _, _) => Ok(v)
    case Const(_) => Err(AttributeError)
  }

  /** The canonical name `key` is to be bound under, if any: only keys containing `_v_` are
    * resolved, and an empty canonical name is falsy, so it binds nothing. */
  function Resolved(key: string, version: string): (r: Result<Option<string>>)
    ensures r.Ok? && r.value.Some? ==>
      Contains(key, "_v_") && r.value.value != "" && !Contains(r.value.value, "_v_")
  {
    if !Contains(key, "_v_") then Ok(None)
    else
      var res := FnNameFromVersionSpecificFnName(key, version);
      if res.Err? then Err(res.error)
      else if res.value.Some? && res.value.value != "" then
        CanonicalHasNoMarker(key, version);
        Ok(res.value)
      else Ok(None)
  }

  /** How each key resolves; the fold below is stated for any resolver with the shape that
    * `Resolved` has, so that its proofs need not look inside the name grammar. */
  type Resolver = string -> Result<Option<string>>

  function ForVersion(version: string): Resolver
  {
    key => Resolved(key, version)
  }

  predicate Matches(resolve: Resolver, key: string)
  {
    resolve(key).Ok? && resolve(key).value.Some?
  }

  /** Variant keys carry `_v_`, the canonical names they resolve to do not. */
  ghost predicate WellFormed(resolve: Resolver)
  {
    forall key :: Matches(resolve, key) ==>
      Contains(key, "_v_") && !Contains(resolve(key).value.value, "_v_")
  }

  lemma ForVersionWellFormed(version: string)
    ensures WellFormed(ForVersion(version))
  {
    forall key | Matches(ForVersion(version), key)
      ensures Contains(key, "_v_") && !Contains(ForVersion(version)(key).value.value, "_v_")
    {
      assert ForVersion(version)(key) == Resolved(key, version);
    }
  }

  /** A backend's dictionary while it is being resolved, and whether an exception was raised. */
  datatype Resolution = Resolution(attrs: Dict, order: seq<string>, outcome: Outcome)

  /** One iteration of the loop over the keys; nothing happens once an exception was raised. */
  function Step(s: Resolution, key: string, resolve: Resolver): (r: Resolution)
    requires key in s.attrs
    ensures s.attrs.Keys <= r.attrs.Keys
  {
    if s.outcome.Fail? then s
    else
      match resolve(key)
      case Err(e) => s.(outcome := Fail(e))
      case Ok(None) => s
      case Ok(Some(p)) =>
        var order := if p in s.attrs then s.order else s.order + [p];
        match Rename(s.attrs[key], p)
        case Err(e) => Resolution(s.attrs[p := s.attrs[key]], order, Fail(e))
        case Ok(f) => Resolution(s.attrs[p := f][key := f], order, Pass)
  }

  /** The step of a running loop, case by case, in the order the loop body takes them. */
  lemma StepCases(s: Resolution, key: string, resolve: Resolver)
    requires key in s.attrs && s.outcome.Pass?
    ensures resolve(key).Err? ==> Step(s, key, resolve) == s.(outcome := Fail(resolve(key).error))
    ensures resolve(key) == Ok(None) ==> Step(s, key, resolve) == s
    ensures Matches(resolve, key) ==>
      var p := resolve(key).value.value;
      var order := if p in s.attrs then s.order else s.order + [p];
      var a := s.attrs[p := s.attrs[key]];
      var f := Rename(a[key], p);
      Step(s, key, resolve) == if f.Err? then Resolution(a, order, Fail(f.error))
                               else Resolution(a[p := f.value][key := f.value], order, Pass)
  {
    if Matches(resolve, key) {
      var p := resolve(key).value.value;
      var a := s.attrs[p := s.attrs[key]];
      assert a[key] == s.attrs[key];
      var f := Rename(a[key], p);
      if f.Ok? {
        assert a[p := f.value][key := f.value] == s.attrs[p := f.value][key := f.value];
      }
    }
  }

  /** The loop over `keys` (a snapshot of the backend's keys), stopped by the first exception. */
  function Fold(attrs: Dict, order: seq<string>, keys: seq<string>, resolve: Resolver): (r: Resolution)
    requires forall i :: 0 <= i < |keys| ==> keys[i] in attrs
    ensures attrs.Keys <= r.attrs.Keys
    decreases |keys|
  {
    if keys == [] then Resolution(attrs, order, Pass)
    else Step(Fold(attrs, order, keys[..|keys| - 1], resolve), keys[|keys| - 1], resolve)
  }

  /** The loop after `i + 1` keys is one more step after `i` keys. */
  lemma FoldSnoc(attrs: Dict, order: seq<string>, keys: seq<string>, i: nat, resolve: Resolver)
    requires i < |keys| && forall t :: 0 <= t < |keys| ==> keys[t] in attrs
    ensures keys[i] in Fold(attrs, order, keys[..i], resolve).attrs
    ensures Fold(attrs, order, keys[..i + 1], resolve)
         == Step(Fold(attrs, order, keys[..i], resolve), keys[i], resolve)
  {
    assert keys[..i + 1][..i] == keys[..i];
  }

  /** The index of the last key resolving to `p`, or -1. */
  function LastMatch(keys: seq<string>, p: string, resolve: Resolver): (j: int)
    ensures -1 <= j < |keys|
    ensures j >= 0 ==> resolve(keys[j]) == Ok(Some(p))
    decreases |keys|
  {
    if keys == [] then -1
    else if resolve(keys[|keys| - 1]) == Ok(Some(p)) then |keys| - 1
    else LastMatch(keys[..|keys| - 1], p, resolve)
  }

  /** No key after the last match resolves to `p`; -1 means none does. */
  lemma {:induction false} LastMatchIsLast(keys: seq<string>, p: string, resolve: Resolver)
    ensures forall i :: LastMatch(keys, p, resolve) < i < |keys| ==> resolve(keys[i]) != Ok(Some(p))
    decreases |keys|
  {
    if keys != [] && resolve(keys[|keys| - 1]) != Ok(Some(p)) {
      var prefix := keys[..|keys| - 1];
      LastMatchIsLast(prefix, p, resolve);
      assert forall i :: 0 <= i < |prefix| ==> prefix[i] == keys[i];
    }
  }

  /** An exception ends the loop: the remaining keys change nothing. */
  lemma {:induction false} FoldStopsAtFailure(attrs: Dict, order: seq<string>, keys: seq<string>, i: nat, resolve: Resolver)
    requires i <= |keys| && forall t :: 0 <= t < |keys| ==> keys[t] in attrs
    requires Fold(attrs, order, keys[..i], resolve).outcome.Fail?
    ensures Fold(attrs, order, keys, resolve) == Fold(attrs, order, keys[..i], resolve)
    decreases |keys| - i
  {
    if i < |keys| {
      var k := keys[..|keys| - 1];
      assert keys[..|keys| - 1][..i] == keys[..i];
      FoldStopsAtFailure(attrs, order, k, i, resolve);
    } else {
      assert keys[..i] == keys;
    }
  }

  /** One step keeps the insertion order a duplicate-free list of exactly the keys. */
  lemma StepKeepsOrder(s: Resolution, key: string, resolve: Resolver)
    requires key in s.attrs
    requires Distinct(s.order) && forall k :: k in s.attrs <==> k in s.order
    ensures var r := Step(s, key, resolve);
      Distinct(r.order) && (forall k :: k in r.attrs <==> k in r.order)
      && |s.order| <= |r.order| && r.order[..|s.order|] == s.order
  {
    var r := Step(s, key, resolve);
    if s.outcome.Pass? && Matches(resolve, key) {
      var p := resolve(key).value.value;
      assert r.attrs.Keys == s.attrs.Keys + {p};
      if p !in s.attrs {
        assert r.order == s.order + [p];
        assert r.order[..|s.order|] == s.order;
      } else {
        assert r.order == s.order;
      }
    } else {
      assert r.order == s.order && r.attrs.Keys == s.attrs.Keys;
    }
  }

  /** The insertion order stays a duplicate-free list of exactly the dictionary's keys, and
    * only grows at its end. */
  lemma {:induction false} FoldKeepsOrder(attrs: Dict, order: seq<string>, keys: seq<string>, resolve: Resolver)
    requires forall t :: 0 <= t < |keys| ==> keys[t] in attrs
    requires Distinct(order) && forall k :: k in attrs <==> k in order
    ensures var r := Fold(attrs, order, keys, resolve);
      Distinct(r.order) && (forall k :: k in r.attrs <==> k in r.order)
      && |order| <= |r.order| && r.order[..|order|] == order
    decreases |keys|
  {
    if keys != [] {
      var prefix := keys[..|keys| - 1];
      FoldKeepsOrder(attrs, order, prefix, resolve);
      var s := Fold(attrs, order, prefix, resolve);
      StepKeepsOrder(s, keys[|keys| - 1], resolve);
      var r := Step(s, keys[|keys| - 1], resolve);
      assert r == Fold(attrs, order, keys, resolve);
      assert r.order[..|order|] == r.order[..|s.order|][..|order|];
    }
  }

  /** Every key resolves, and every matching variant is an object whose `__name__` can be set. */
  ghost predicate NoFailures(attrs: Dict, keys: seq<string>, resolve: Resolver)
    requires forall t :: 0 <= t < |keys| ==> keys[t] in attrs
  {
    forall j :: 0 <= j < |keys| ==>
      resolve(keys[j]).Ok? && (Matches(resolve, keys[j]) ==> !attrs[keys[j]].Const?)
  }

  lemma NoFailuresSnoc(attrs: Dict, keys: seq<string>, resolve: Resolver)
    requires |keys| > 0 && forall t :: 0 <= t < |keys| ==> keys[t] in attrs
    ensures NoFailures(attrs, keys, resolve) <==>
      NoFailures(attrs, keys[..|keys| - 1], resolve) && resolve(keys[|keys| - 1]).Ok? &&
      (Matches(resolve, keys[|keys| - 1]) ==> !attrs[keys[|keys| - 1]].Const?)
  {
    assert forall j :: 0 <= j < |keys| - 1 ==> keys[..|keys| - 1][j] == keys[j];
  }

  /** The dictionary `r` after resolving `keys` of `attrs`: each canonical name is bound to the
    * last variant that matches, renamed; each matching variant key is renamed in place (it is
    * the same function object); every other key keeps its value. */
  ghost predicate Bindings(attrs: Dict, keys: seq<string>, resolve: Resolver, r: Dict)
    requires forall t :: 0 <= t < |keys| ==> keys[t] in attrs
  {
    LastWins(attrs, keys, resolve, r) && VariantsRenamed(attrs, keys, resolve, r) && OthersKept(attrs, keys, resolve, r)
  }

  ghost predicate LastWins(attrs: Dict, keys: seq<string>, resolve: Resolver, r: Dict)
    requires forall t :: 0 <= t < |keys| ==> keys[t] in attrs
  {
    forall p :: LastMatch(keys, p, resolve) >= 0 ==>
      p in r && Rename(attrs[keys[LastMatch(keys, p, resolve)]], p) == Ok(r[p])
  }

  ghost predicate VariantsRenamed(attrs: Dict, keys: seq<string>, resolve: Resolver, r: Dict)
    requires forall t :: 0 <= t < |keys| ==> keys[t] in attrs
  {
    forall j :: 0 <= j < |keys| && Matches(resolve, keys[j]) ==>
      keys[j] in r && Rename(attrs[keys[j]], resolve(keys[j]).value.value) == Ok(r[keys[j]])
  }

  ghost predicate OthersKept(attrs: Dict, keys: seq<string>, resolve: Resolver, r: Dict)
    requires forall t :: 0 <= t < |keys| ==> keys[t] in attrs
  {
    forall k :: (k in attrs && LastMatch(keys, k, resolve) < 0 && !(k in keys && Matches(resolve, k))) ==>
      k in r && r[k] == attrs[k]
  }

  /** The step for the last key extends both facts from the keys before it. */
  lemma StepBindings(attrs: Dict, keys: seq<string>, s: Resolution, resolve: Resolver)
    requires |keys| > 0 && forall t :: 0 <= t < |keys| ==> keys[t] in attrs
    requires Distinct(keys) && WellFormed(resolve)
    requires keys[|keys| - 1] in s.attrs
    requires s.outcome.Pass? && Bindings(attrs, keys[..|keys| - 1], resolve, s.attrs)
    ensures var r := Step(s, keys[|keys| - 1], resolve);
      (r.outcome.Pass? <==> (resolve(keys[|keys| - 1]).Ok? &&
                             (Matches(resolve, keys[|keys| - 1]) ==> !attrs[keys[|keys| - 1]].Const?)))
      && (r.outcome.Pass? ==> Bindings(attrs, keys, resolve, r.attrs))
  {
    var key := keys[|keys| - 1];
    if Matches(resolve, key) {
      VariantStillOriginal(attrs, keys, s.attrs, resolve);
      StepMatched(attrs, keys, s, resolve);
    } else if resolve(key).Ok? {
      assert Step(s, key, resolve) == s;
      StepBindingsQuiet(attrs, keys, s.attrs, resolve);
    }
  }

  /** The step for a matching variant key that still holds its original function. */
  lemma StepMatched(attrs: Dict, keys: seq<string>, s: Resolution, resolve: Resolver)
    requires |keys| > 0 && forall t :: 0 <= t < |keys| ==> keys[t] in attrs
    requires Distinct(keys) && WellFormed(resolve) && Matches(resolve, keys[|keys| - 1])
    requires keys[|keys| - 1] in s.attrs && s.attrs[keys[|keys| - 1]] == attrs[keys[|keys| - 1]]
    requires resolve(keys[|keys| - 1]).value.value != keys[|keys| - 1]
    requires s.outcome.Pass? && Bindings(attrs, keys[..|keys| - 1], resolve, s.attrs)
    ensures var r := Step(s, keys[|keys| - 1], resolve);
      (r.outcome.Pass? <==> !attrs[keys[|keys| - 1]].Const?)
      && (r.outcome.Pass? ==> Bindings(attrs, keys, resolve, r.attrs))
  {
    var key := keys[|keys| - 1];
    var p := resolve(key).value.value;
    if !attrs[key].Const? {
      var f := Rename(attrs[key], p).value;
      assert Step(s, key, resolve).attrs == s.attrs[p := f][key := f];
      StepBindingsMatch(attrs, keys, s.attrs, resolve, p, f);
    }
  }

  /** A variant key reached by the loop still holds its original function: no earlier variant
    * resolved to it, since canonical names carry no `_v_`. */
  lemma VariantStillOriginal(attrs: Dict, keys: seq<string>, a: Dict, resolve: Resolver)
    requires |keys| > 0 && forall t :: 0 <= t < |keys| ==> keys[t] in attrs
    requires Distinct(keys) && WellFormed(resolve) && Matches(resolve, keys[|keys| - 1])
    requires Bindings(attrs, keys[..|keys| - 1], resolve, a)
    ensures keys[|keys| - 1] in a && a[keys[|keys| - 1]] == attrs[keys[|keys| - 1]]
    ensures resolve(keys[|keys| - 1]).value.value != keys[|keys| - 1]
  {
    var n := |keys| - 1;
    var prefix := keys[..n];
    var key := keys[n];
    assert forall j :: 0 <= j < n ==> prefix[j] == keys[j];
    assert key !in prefix;
    assert LastMatch(prefix, key, resolve) < 0;
  }

  lemma StepBindingsQuiet(attrs: Dict, keys: seq<string>, a: Dict, resolve: Resolver)
    requires |keys| > 0 && forall t :: 0 <= t < |keys| ==> keys[t] in attrs
    requires Distinct(keys) && !Matches(resolve, keys[|keys| - 1])
    requires Bindings(attrs, keys[..|keys| - 1], resolve, a)
    ensures Bindings(attrs, keys, resolve, a)
  {
    var n := |keys| - 1;
    assert forall j :: 0 <= j < n ==> keys[..n][j] == keys[j];
    QuietLastWins(attrs, keys, a, resolve);
    QuietVariantsRenamed(attrs, keys, a, resolve);
    QuietOthersKept(attrs, keys, a, resolve);
  }

  lemma QuietLastWins(attrs: Dict, keys: seq<string>, a: Dict, resolve: Resolver)
    requires |keys| > 0 && forall t :: 0 <= t < |keys| ==> keys[t] in attrs
    requires !Matches(resolve, keys[|keys| - 1])
    requires forall j :: 0 <= j < |keys| - 1 ==> keys[..|keys| - 1][j] == keys[j]
    requires LastWins(attrs, keys[..|keys| - 1], resolve, a)
    ensures LastWins(attrs, keys, resolve, a)
  {
    var prefix := keys[..|keys| - 1];
    forall q | LastMatch(keys, q, resolve) >= 0
      ensures q in a && Rename(attrs[keys[LastMatch(keys, q, resolve)]], q) == Ok(a[q])
    {
      assert LastMatch(keys, q, resolve) == LastMatch(prefix, q, resolve);
    }
  }

  lemma QuietVariantsRenamed(attrs: Dict, keys: seq<string>, a: Dict, resolve: Resolver)
    requires |keys| > 0 && forall t :: 0 <= t < |keys| ==> keys[t] in attrs
    requires !Matches(resolve, keys[|keys| - 1])
    requires forall j :: 0 <= j < |keys| - 1 ==> keys[..|keys| - 1][j] == keys[j]
    requires VariantsRenamed(attrs, keys[..|keys| - 1], resolve, a)
    ensures VariantsRenamed(attrs, keys, resolve, a)
  {
    var prefix := keys[..|keys| - 1];
    forall j | 0 <= j < |keys| && Matches(resolve, keys[j])
      ensures keys[j] in a && Rename(attrs[keys[j]], resolve(keys[j]).value.value) == Ok(a[keys[j]])
    {
      assert j < |prefix| && keys[j] == prefix[j];
    }
  }

  lemma QuietOthersKept(attrs: Dict, keys: seq<string>, a: Dict, resolve: Resolver)
    requires |keys| > 0 && forall t :: 0 <= t < |keys| ==> keys[t] in attrs
    requires !Matches(resolve, keys[|keys| - 1])
    requires forall j :: 0 <= j < |keys| - 1 ==> keys[..|keys| - 1][j] == keys[j]
    requires OthersKept(attrs, keys[..|keys| - 1], resolve, a)
    ensures OthersKept(attrs, keys, resolve, a)
  {
    var prefix := keys[..|keys| - 1];
    forall k | k in attrs && LastMatch(keys, k, resolve) < 0 && !(k in keys && Matches(resolve, k))
      ensures k in a && a[k] == attrs[k]
    {
      assert LastMatch(prefix, k, resolve) < 0;
      assert k in prefix ==> k in keys;
    }
  }

  lemma StepBindingsMatch(attrs: Dict, keys: seq<string>, a: Dict, resolve: Resolver, p: string, f: Value)
    requires |keys| > 0 && forall t :: 0 <= t < |keys| ==> keys[t] in attrs
    requires Distinct(keys) && WellFormed(resolve)
    requires Matches(resolve, keys[|keys| - 1]) && p == resolve(keys[|keys| - 1]).value.value
    requires Rename(attrs[keys[|keys| - 1]], p) == Ok(f)
    requires Bindings(attrs, keys[..|keys| - 1], resolve, a)
    ensures Bindings(attrs, keys, resolve, a[p := f][keys[|keys| - 1] := f])
  {
    var n := |keys| - 1;
    assert forall j :: 0 <= j < n ==> keys[..n][j] == keys[j];
    assert keys[n] !in keys[..n];
    MatchLastWins(attrs, keys, a, resolve, p, f);
    MatchVariantsRenamed(attrs, keys, a, resolve, p, f);
    MatchOthersKept(attrs, keys, a, resolve, p, f);
  }

  lemma MatchLastWins(attrs: Dict, keys: seq<string>, a: Dict, resolve: Resolver, p: string, f: Value)
    requires |keys| > 0 && forall t :: 0 <= t < |keys| ==> keys[t] in attrs
    requires WellFormed(resolve) && keys[|keys| - 1] !in keys[..|keys| - 1]
    requires Matches(resolve, keys[|keys| - 1]) && p == resolve(keys[|keys| - 1]).value.value
    requires Rename(attrs[keys[|keys| - 1]], p) == Ok(f)
    requires forall j :: 0 <= j < |keys| - 1 ==> keys[..|keys| - 1][j] == keys[j]
    requires LastWins(attrs, keys[..|keys| - 1], resolve, a)
    ensures LastWins(attrs, keys, resolve, a[p := f][keys[|keys| - 1] := f])
  {
    var n := |keys| - 1;
    var prefix := keys[..n];
    var key := keys[n];
    var r := a[p := f][key := f];
    forall q | LastMatch(keys, q, resolve) >= 0
      ensures q in r && Rename(attrs[keys[LastMatch(keys, q, resolve)]], q) == Ok(r[q])
    {
      if q != p {
        assert LastMatch(keys, q, resolve) == LastMatch(prefix, q, resolve);
        assert !Contains(q, "_v_");
      }
    }
  }

  lemma MatchVariantsRenamed(attrs: Dict, keys: seq<string>, a: Dict, resolve: Resolver, p: string, f: Value)
    requires |keys| > 0 && forall t :: 0 <= t < |keys| ==> keys[t] in attrs
    requires WellFormed(resolve) && keys[|keys| - 1] !in keys[..|keys| - 1]
    requires Matches(resolve, keys[|keys| - 1]) && p == resolve(keys[|keys| - 1]).value.value
    requires Rename(attrs[keys[|keys| - 1]], p) == Ok(f)
    requires forall j :: 0 <= j < |keys| - 1 ==> keys[..|keys| - 1][j] == keys[j]
    requires VariantsRenamed(attrs, keys[..|keys| - 1], resolve, a)
    ensures VariantsRenamed(attrs, keys, resolve, a[p := f][keys[|keys| - 1] := f])
  {
    var n := |keys| - 1;
    var prefix := keys[..n];
    var key := keys[n];
    var r := a[p := f][key := f];
    forall j | 0 <= j < |keys| && Matches(resolve, keys[j])
      ensures keys[j] in r && Rename(attrs[keys[j]], resolve(keys[j]).value.value) == Ok(r[keys[j]])
    {
      if j < n {
        assert keys[j] == prefix[j] && keys[j] != key;
        assert Contains(keys[j], "_v_") && !Contains(p, "_v_");
      }
    }
  }

  lemma MatchOthersKept(attrs: Dict, keys: seq<string>, a: Dict, resolve: Resolver, p: string, f: Value)
    requires |keys| > 0 && forall t :: 0 <= t < |keys| ==> keys[t] in attrs
    requires keys[|keys| - 1] !in keys[..|keys| - 1]
    requires Matches(resolve, keys[|keys| - 1]) && p == resolve(keys[|keys| - 1]).value.value
    requires forall j :: 0 <= j < |keys| - 1 ==> keys[..|keys| - 1][j] == keys[j]
    requires OthersKept(attrs, keys[..|keys| - 1], resolve, a)
    ensures OthersKept(attrs, keys, resolve, a[p := f][keys[|keys| - 1] := f])
  {
    var n := |keys| - 1;
    var prefix := keys[..n];
    var key := keys[n];
    var r := a[p := f][key := f];
    forall k | k in attrs && LastMatch(keys, k, resolve) < 0 && !(k in keys && Matches(resolve, k))
      ensures k in r && r[k] == attrs[k]
    {
      assert k != p && k != key;
      assert LastMatch(prefix, k, resolve) < 0;
      assert !(k in prefix && Matches(resolve, k));
    }
  }

  /** What the loop computes: it raises nothing exactly when every key resolves and every
    * matching variant can be renamed, and then the last matching variant wins. */
  lemma {:induction false} FoldBindings(attrs: Dict, order: seq<string>, keys: seq<string>, resolve: Resolver)
    requires forall t :: 0 <= t < |keys| ==> keys[t] in attrs
    requires Distinct(keys) && WellFormed(resolve)
    ensures var r := Fold(attrs, order, keys, resolve);
      (r.outcome.Pass? <==> NoFailures(attrs, keys, resolve))
      && (r.outcome.Pass? ==> Bindings(attrs, keys, resolve, r.attrs))
    decreases |keys|
  {
    if keys != [] {
      var n := |keys| - 1;
      var prefix := keys[..n];
      assert forall j :: 0 <= j < n ==> prefix[j] == keys[j];
      FoldBindings(attrs, order, prefix, resolve);
      var s := Fold(attrs, order, prefix, resolve);
      if s.outcome.Pass? {
        StepBindings(attrs, keys, s, resolve);
      }
      NoFailuresSnoc(attrs, keys, resolve);
    }
  }

  /** Keys without `_v_` that no variant resolves to keep their value. */
  lemma PlainKeysUntouched(attrs: Dict, order: seq<string>, keys: seq<string>, version: string, k: string)
    requires forall t :: 0 <= t < |keys| ==> keys[t] in attrs
    requires Distinct(keys) && Fold(attrs, order, keys, ForVersion(version)).outcome.Pass?
    requires k in attrs && !Contains(k, "_v_")
    requires forall j :: 0 <= j < |keys| ==> Resolved(keys[j], version) != Ok(Some(k))
    ensures Fold(attrs, order, keys, ForVersion(version)).attrs[k] == attrs[k]
  {
    ForVersionWellFormed(version);
    FoldBindings(attrs, order, keys, ForVersion(version));
    assert LastMatch(keys, k, ForVersion(version)) < 0;
  }

  /** The framework version a backend module resolves against: the module path after
    * `backends.` names the framework, whose installed `__version__` is looked up. */
  function FrameworkVersion(name: string, installed: map<string, string>): (r: Result<string>)
    ensures !Contains(name, "backends") ==> r == Err(ValueError)
    ensures Contains(name, "backends") ==>
      var framework := Slice(name, Find(name, "backends") + 9, |name|);
      && (r.Ok? <==> framework in installed)
      && (r.Ok? ==> r.value == installed[framework])
      && (r.Err? ==> r.error == ImportError)
  {
    match Index(name, "backends")
    case Err(e) => Err(e)
    case Ok(i) =>
      var framework := Slice(name, i + 9, |name|);
      if framework in installed then Ok(installed[framework]) else Err(ImportError)
  }

  // ---------------------------------------------------------------------
  // Backend modules

  /** An imported backend module, whose attribute dictionary is updated in place. */
  class Backend {
    /** The module's `__name__`, such as `ivy.functional.backends.torch`. */
    const name: string
    /** `current_backend_str()`, such as `torch`. */
    const backendStr: string
    /** `invalid_dtypes`. */
    const invalidDtypes: set<string>
    /** `__dict__`, and its insertion order. */
    var attrs: Dict
    var order: seq<string>

    ghost predicate Valid()
      reads this
    {
      Distinct(order) && forall k :: k in attrs <==> k in order
    }

    constructor(name: string, backendStr: string, invalidDtypes: set<string>, attrs: Dict, order: seq<string>)
      requires Distinct(order) && forall k :: k in attrs <==> k in order
      ensures Valid()
      ensures this.name == name && this.backendStr == backendStr && this.invalidDtypes == invalidDtypes
      ensures this.attrs == attrs && this.order == order
    {
      this.name := name;
      this.backendStr := backendStr;
      this.invalidDtypes := invalidDtypes;
      this.attrs := attrs;
      this.order := order;
    }

    /** `set_backend_to_specific_version(self)`: bind canonical names to the variants that
      * match the installed framework version. */
    method ResolveVersions(installed: map<string, string>) returns (outcome: Outcome)
      requires Valid()
      modifies this
      ensures Valid()
      ensures FrameworkVersion(name, installed).Err? ==>
        outcome == Fail(FrameworkVersion(name, installed).error) && attrs == old(attrs) && order == old(order)
      ensures FrameworkVersion(name, installed).Ok? ==>
        var r := Fold(old(attrs), old(order), old(order), ForVersion(FrameworkVersion(name, installed).value));
        attrs == r.attrs && order == r.order && outcome == r.outcome
    {
      var fv := FrameworkVersion(name, installed);
      if fv.Err? {
        return Fail(fv.error);
      }
      outcome := ResolveKeys(ForVersion(fv.value));
    }

    /** The loop of `set_backend_to_specific_version` over a snapshot of the keys, for how
      * the keys resolve. */
    method ResolveKeys(resolve: Resolver) returns (outcome: Outcome)
      requires Valid()
      modifies this
      ensures Valid()
      ensures var r := Fold(old(attrs), old(order), old(order), resolve);
        attrs == r.attrs && order == r.order && outcome == r.outcome
    {
      assert forall t :: 0 <= t < |order| ==> order[t] in attrs;
      FoldKeepsOrder(attrs, order, order, resolve);
      attrs, order, outcome := ResolveAll(attrs, order, order, resolve);
    }
  }

  /** The loop itself, on the dictionary `a0` with insertion order `o0` and the key snapshot
    * `keys`: one step per key until a step raises. */
  method ResolveAll(a0: Dict, o0: seq<string>, keys: seq<string>, resolve: Resolver)
    returns (a: Dict, o: seq<string>, outcome: Outcome)
    requires forall t :: 0 <= t < |keys| ==> keys[t] in a0
    ensures Resolution(a, o, outcome) == Fold(a0, o0, keys, resolve)
  {
    a, o := a0, o0;
    var i := 0;
    while i < |keys|
      invariant 0 <= i <= |keys|
      invariant a0.Keys <= a.Keys
      invariant Fold(a0, o0, keys[..i], resolve) == Resolution(a, o, Pass)
    {
      FoldSnoc(a0, o0, keys, i, resolve);
      var step;
      a, o, step := ResolveKey(a, o, keys[i], resolve);
      if step.Fail? {
        FoldStopsAtFailure(a0, o0, keys, i + 1, resolve);
        return a, o, step;
      }
      i := i + 1;
    }
    assert keys[..i] == keys;
    outcome := Pass;
  }

  /** One iteration of the loop of `set_backend_to_specific_version`, on the dictionary `a`
    * with insertion order `o`: bind the canonical name, then set its `__name__`. */
  method ResolveKey(a: Dict, o: seq<string>, key: string, resolve: Resolver)
    returns (a': Dict, o': seq<string>, outcome: Outcome)
    requires key in a
    ensures Resolution(a', o', outcome) == Step(Resolution(a, o, Pass), key, resolve)
  {
    StepCases(Resolution(a, o, Pass), key, resolve);
    a', o' := a, o;
    var res := resolve(key);
    if res.Err? {
      return a', o', Fail(res.error);
    }
    if res.value.Some? {
      var p := res.value.value;
      if p !in a' {
        o' := o' + [p];
      }
      a' := a'[p := a'[key]];
      var renamed := Rename(a'[key], p);
      if renamed.Err? {
        return a', o', Fail(renamed.error);
      }
      a' := a'[p := renamed.value][key := renamed.value];
    }
    outcome := Pass;
  }
}
