# ivy backend handler, modelled in Dafny

This project models how ivy switches between its framework backends and proves
properties of that model. The model covers:

- the **backend stack** and the public `ivy` namespace that `set_backend`,
  `unset_backend`, `clear_backend_stack` and the `with ContextManager(...)` block
  rebind and restore;
- the **original-namespace snapshot** that each push starts from and that unwinding
  puts back;
- the **version resolver**, which maps names such as `op_v_1p0_to_1p5`,
  `op_v_1p6_and_above` and `op_v_1p5_and_below` onto `op` for the installed
  framework version;
- **backend inference** from call arguments (`current_backend`);
- the **dynamic switch**, which exports flagged arrays and containers to NumPy and
  imports them back into the new backend;
- the **Paddle dtype layer**: the ivy↔Paddle dtype tables, `as_ivy_dtype`,
  `as_native_dtype`, `dtype`, `astype` and `dtype_bits`.

Files:

- `common.dfy`: the Python exceptions the core raises, plus `Option`, `Result` and
  `Outcome`.
- `pystr.dfy`: the Python string operations the core relies on: `in`, `find`,
  `index`, slicing, `split`, `join`, `replace`, `int` and `str`.
- `version.dfy`: version tuples and their ordering, version-string parsing, and
  `fn_name_from_version_specific_fn_name`. It proves that each name form resolves in
  exactly its version range. For the `_to_` form, the op name must contain neither `_v_`
  nor `_to_`; for the `_and_above` and `_and_below` forms, it must also contain no `_and_`.
  It also proves that the resolver raises ValueError when the marker of the branch it takes
  lies inside the op name. For `logical_and` that happens only in the `_and_above` and
  `_and_below` forms. For `broadcast_to` it happens in every form, because a name holding
  `_to_` always takes the `_to_` branch.
- `namespace.dfy`: module values, `_wrap_function` as a value, and the pure meaning
  of the namespace rebinder (`_set_backend_as_ivy`) and of the restore loop of
  `unset_backend`.
- `backends.dfy`: the backend tables, a backend module (a class with an attribute
  dictionary in insertion order), and `set_backend_to_specific_version`. Its loop is
  proved equal to a fold, and what the fold binds is proved.
- `inference.dfy`: `_determine_backend_from_args`, proved equal to "the backend of the
  first known leaf in traversal order".
- `dynamic.dfy`: `ivy.Array`/`ivy.Container` objects as classes, plus
  `_remove_intermediate_arrays`, `_is_var` and the two conversion loops of a dynamic
  switch.
- `handler.dfy`: the handler state (stack, implicit backend, snapshot, namespace) as
  a class, with the operations of `handler.py` as methods, and `ContextManager`.
- `paddle_dtypes.dfy`: the Paddle backend's `data_type.py` core.

Calls into code outside the core are modelled as follows:

- importing a module (`importlib.import_module`) reads a map from backend names to
  modules (`modules`);
- the framework's `__version__` is a map from names to version strings (`installed`);
- `to_numpy` and the new backend's `asarray` are function parameters;
- the garbage collector's object list becomes explicit sequences of arrays and
  containers.

## Model

| member | source | states |
|---|---|---|
| PyStr.Find | ivy/utils/backend/handler.py:143 | `str.find`: -1 when the pattern occurs nowhere, else an occurrence with none before it |
| PyStr.FindIs | ivy/utils/backend/handler.py:143 | `str.find` returns the index of the first occurrence of the pattern |
| PyStr.Index | ivy/utils/backend/handler.py:148 | `str.index` raises ValueError exactly when the pattern does not occur; otherwise it returns the first occurrence |
| PyStr.Slice | ivy/utils/backend/handler.py:150 | within bounds, slicing gives the characters between the two indices; a slice whose end is not after its start is empty |
| PyStr.Split | ivy/utils/backend/handler.py:146 | `str.split` on one character: at least one part, and no part contains the separator |
| PyStr.Join | ivy/utils/backend/handler.py:146 | `str.join` with a one-character separator |
| PyStr.JoinSplit | ivy/utils/backend/handler.py:146 | joining the parts of `split(sep)` with `sep` gives back the original string |
| PyStr.SplitJoin | ivy/utils/backend/handler.py:146 | splitting a join of separator-free parts gives back those parts |
| PyStr.ParseInt | ivy/functional/backends/paddle/data_type.py:252-259 | `int(s)` succeeds exactly on non-empty digit strings, and otherwise raises ValueError |
| PyStr.ParseNatToStr | ivy/utils/backend/handler.py:146 | `int(str(n)) == n` for every natural number |
| PyStr.Replace | ivy/functional/backends/paddle/data_type.py:253-258 | `str.replace`: every non-overlapping occurrence, scanned left to right, replaced |
| PyStr.ReplaceMissingChar | ivy/functional/backends/paddle/data_type.py:253-258 | replacing a pattern that contains a character absent from the string leaves the string unchanged |
| PyStr.ReplaceLeading | ivy/functional/backends/paddle/data_type.py:253-258 | `(pat + t).replace(pat, repl)` is `repl` followed by `t.replace(pat, repl)` |
| Version.TupleLtIrreflexive | ivy/utils/backend/handler.py:154 | Python's tuple `<` never holds between a version and itself |
| Version.TupleLtTransitive | ivy/utils/backend/handler.py:154 | tuple `<` is transitive |
| Version.TupleLtTotal | ivy/utils/backend/handler.py:154 | two distinct version tuples are ordered one way or the other |
| Version.TupleLeTotalOrder | ivy/utils/backend/handler.py:154 | tuple `<=`, used by the range checks, is a total order |
| Version.ParseInts | ivy/utils/backend/handler.py:146 | mapping `int` over the parts succeeds exactly when every part is a numeral, giving one number per part; otherwise it raises ValueError |
| Version.ParseEncode | ivy/utils/backend/handler.py:151-153 | decoding the `p`-separated form of a version tuple in a function name gives that tuple back |
| Version.ParseVersionString | ivy/utils/backend/handler.py:142-146 | parsing `a.b.c` with an optional `+local` suffix yields the release tuple and ignores the suffix |
| Version.FnNameFromVersionSpecificFnName | ivy/utils/backend/handler.py:125-169 | a name without `_v_` raises ValueError; a resolved name is the text before the first `_v_`, so it has no marker left |
| Version.FromRange | ivy/utils/backend/handler.py:147-155 | the `_to_` branch: a name without `_v_` raises, and a matching name resolves to the text before its first `_v_` |
| Version.FromBound | ivy/utils/backend/handler.py:156-169 | the `_and_above` and `_and_below` branches: a name without `_v_` raises, and a matching name resolves to the text before its first `_v_` |
| Version.CanonicalHasNoMarker | ivy/utils/backend/handler.py:148-155 | the canonical name returned never contains `_v_` |
| Version.RangeNameParts | ivy/utils/backend/handler.py:147-153 | in `op_v_<start>_to_<end>`, the markers sit exactly where `find`/`index` look, so the slices are `op`, `start` and `end` |
| Version.BoundNameParts | ivy/utils/backend/handler.py:156-168 | in `op_v_<bound>_and_above` and `op_v_<bound>_and_below`, the slices are `op` and `bound` |
| Version.LiteralTailMarkers | ivy/utils/backend/handler.py:147-163 | a variant name ending in `_and_above` or `_and_below` contains no `_to_`, and contains `_and_above` exactly when that is its tail, so it reaches the right branch |
| Version.RangeNameResolves | ivy/utils/backend/handler.py:147-155 | for an op that contains neither `_v_` nor `_to_` (even with a `_` appended), whether or not it contains `_and_`, `op_v_<s>_to_<e>` resolves to `op` exactly when `s <= version <= e`, for every version with a `+` suffix or none |
| Version.AboveNameResolves | ivy/utils/backend/handler.py:156-162 | for an op that contains none of `_v_`, `_to_`, `_and_` (even with a `_` appended), `op_v_<b>_and_above` resolves to `op` exactly when `version >= b` |
| Version.BelowNameResolves | ivy/utils/backend/handler.py:163-169 | for an op that contains none of `_v_`, `_to_`, `_and_` (even with a `_` appended), `op_v_<b>_and_below` resolves to `op` exactly when `version <= b` |
| Version.BoundMarkerInOpRaises | ivy/utils/backend/handler.py:156-168 | in the `_and_` branches, when the first `_and_` comes no later than the end of the first `_v_`, the version slice is empty and the resolver raises ValueError |
| Version.RangeMarkerInOpRaises | ivy/utils/backend/handler.py:147-153 | the same for the `_to_` branch and the first `_to_` |
| Version.LogicalAndRangeResolves | ivy/utils/backend/handler.py:147-155 | `logical_and_v_<s>_to_<e>` resolves to `logical_and` exactly when `s <= version <= e`: the `_and_` inside the op name does not disturb the `_to_` branch |
| Version.LogicalAndVariantRaises | ivy/utils/backend/handler.py:156-162 | `logical_and_v_1p0_and_above` raises ValueError for every parsable version, because `index("_and_")` finds the marker inside `logical_and` |
| Version.BroadcastToVariantRaises | ivy/utils/backend/handler.py:147-155 | `broadcast_to_v_1p0_to_2p0` raises ValueError for every parsable version, because `index("_to_")` finds the marker inside `broadcast_to` |
| Version.TupleLe | ivy/utils/backend/handler.py:154 | Python's lexicographic tuple `<=`: a proper prefix is smaller, and otherwise the first differing component decides |
| Version.ParseVersion | ivy/utils/backend/handler.py:142-146 | the version text before the first `+`, split on `.`, each part through `int` |
| Namespace.Wrap | ivy/utils/backend/handler.py:266-268 | wrapping passes modules through and records the implementation, so unwrapping always yields the implementation |
| Namespace.Bind | ivy/utils/backend/handler.py:269-280 | the recursive rebind of a sub-module binds every key of the original sub-module and keeps the sub-module's other keys |
| Namespace.EntryBound | ivy/utils/backend/handler.py:259-280 | a snapshot key is bound to the wrapper of the backend's implementation, or of the original one with the compositional flag set when the backend lacks the key; eligible sub-modules are rebound all the way down |
| Namespace.NestCovers | ivy/utils/backend/handler.py:269-280 | descending into an `ivy.functional` sub-module that is not the backend's own package binds every key at every depth |
| Namespace.RebindInvariant | ivy/utils/backend/handler.py:259-268 | after the rebind, every snapshot key is bound in ivy and the backend holds its unwrapped implementation; a missing invalid dtype is deleted from both; keys outside the snapshot are untouched |
| Namespace.RebindFillsBackend | ivy/utils/backend/handler.py:261-265 | the backend ends with its own keys plus every snapshot key that is not dropped |
| Namespace.Chosen | ivy/utils/backend/handler.py:261-265 | the backend's own implementation of a key when it has one, else the original |
| Namespace.Nest | ivy/utils/backend/handler.py:269-280 | an eligible original sub-module, rebound recursively through `Bind`; anything else is the wrapped value; a module keeps its name and file |
| Namespace.Entry | ivy/utils/backend/handler.py:259-280 | the binding one snapshot key gets: the wrapper of the chosen implementation, flagged compositional when the backend lacks the key, with eligible sub-modules rebound |
| Namespace.RebindTarget | ivy/utils/backend/handler.py:252-280 | ivy's namespace after the rebinder: every snapshot key gets its entry, except a missing invalid dtype, which is deleted; other keys are kept |
| Namespace.RebindBackend | ivy/utils/backend/handler.py:259-268 | the backend's dictionary after the rebinder: the snapshot keys it lacked are filled from the snapshot, except the deleted invalid dtypes |
| Namespace.Restore | ivy/utils/backend/handler.py:596-605 | the restore loop writes exactly the snapshot keys that the new top (or the snapshot itself) has |
| Namespace.RestoreOriginal | ivy/utils/backend/handler.py:596-605 | unsetting the last backend puts every snapshot key back to its original value; these are the top-level bindings, and in the program the sub-modules' contents stay rebound |
| Namespace.RestoreWrapped | ivy/utils/backend/handler.py:601-605 | with a backend left, each snapshot key it has is rebound to its non-compositional wrapper; other keys are unchanged |
| Namespace.SetThenUnsetRestores | ivy/utils/backend/handler.py:438-439 | a push onto an empty stack followed by a pop gives back the namespace's top-level bindings; in the program the contents of shared sub-modules stay rebound |
| Backends.TablesAgree | ivy/utils/backend/handler.py:36-61 | every backend that `_array_types` names is a key of `_backend_reverse_dict`, and `_backend_dict` and `_backend_reverse_dict` are inverse |
| Backends.Rename | ivy/utils/backend/handler.py:194 | re-binding through `fn.__name__` succeeds exactly for attributes that are not plain objects, and otherwise raises AttributeError |
| Backends.ForVersionWellFormed | ivy/utils/backend/handler.py:189-192 | the resolver for a version maps a name to Ok(Some) only when it is a version-specific variant, and then to its canonical name |
| Backends.Resolved | ivy/utils/backend/handler.py:190-192 | a key resolves when it contains `_v_` and `fn_name_from_version_specific_fn_name` gives a non-empty name (an empty one is falsy); a raise is passed on |
| Backends.Step | ivy/utils/backend/handler.py:190-194 | one iteration: a resolver error raises; a resolving key binds its canonical name to the variant renamed to it, and a plain object there raises AttributeError; any other key changes nothing; after a raise nothing changes |
| Backends.Fold | ivy/utils/backend/handler.py:189-194 | the loop over the key snapshot, stopping at the first raise |
| Backends.LastMatch | ivy/utils/backend/handler.py:189-193 | the position of the last key in the snapshot that resolves to a given canonical name, or -1 |
| Backends.StepCases | ivy/utils/backend/handler.py:190-194 | one loop iteration either fails, or binds the canonical name to the variant, or changes nothing |
| Backends.FoldSnoc | ivy/utils/backend/handler.py:189 | the loop over `keys + [k]` is the loop over `keys` followed by one iteration on `k` |
| Backends.LastMatchIsLast | ivy/utils/backend/handler.py:189-193 | the variant that wins for a canonical name is the last matching key in iteration order |
| Backends.FoldStopsAtFailure | ivy/utils/backend/handler.py:189-194 | once an iteration raises, later keys change nothing |
| Backends.FoldKeepsOrder | ivy/utils/backend/handler.py:189-193 | binding keys only appends them to the insertion order |
| Backends.StepBindings | ivy/utils/backend/handler.py:190-194 | each iteration preserves the loop invariant `Bindings` (last match wins, variants renamed, other keys kept) |
| Backends.FoldBindings | ivy/utils/backend/handler.py:189-194 | the loop passes exactly when no matching variant is a non-function object; then each canonical name is bound to its last matching variant and every other key is untouched |
| Backends.PlainKeysUntouched | ivy/utils/backend/handler.py:189-194 | a key that no variant resolves to keeps its value |
| Backends.FrameworkVersion | ivy/utils/backend/handler.py:183-187 | a module name without `backends` raises ValueError; otherwise the framework after `backends.` gives its installed version, or ImportError when it is not installed |
| Backends.Backend.ResolveVersions | ivy/utils/backend/handler.py:172-194 | `set_backend_to_specific_version` leaves the module's attributes and outcome equal to the fold over its keys |
| Backends.Backend.ResolveKeys | ivy/utils/backend/handler.py:189-194 | the loop over a snapshot of the keys computes the fold |
| Backends.ResolveAll | ivy/utils/backend/handler.py:189-194 | the imperative loop with early exit returns the same dictionary, order and outcome as the fold |
| Backends.ResolveKey | ivy/utils/backend/handler.py:190-194 | one imperative iteration equals one step of the fold |
| Inference.Determine | ivy/utils/backend/handler.py:77-122 | an inferred backend is always a key of `_backend_reverse_dict` |
| Inference.FirstOf | ivy/utils/backend/handler.py:105-117 | the loop over values or items returns a known backend or None |
| Inference.FirstKnown | ivy/utils/backend/handler.py:119-122 | reference definition: None iff no module is in `_array_types`, else the backend of the first one that is |
| Inference.FirstKnownAppend | ivy/utils/backend/handler.py:105-117 | the first known module of a concatenation is found in its first part when there is one there |
| Inference.DetermineIsFirstKnown | ivy/utils/backend/handler.py:77-122 | the walk returns the backend of the first known leaf in traversal order, and None when there is none |
| Inference.FirstOfIsFirstKnown | ivy/utils/backend/handler.py:105-117 | the same for a sequence of dictionary values or list items |
| Inference.ArrayUnwrapped | ivy/utils/backend/handler.py:101-103 | an `ivy.Array` is judged by its native payload, and an array wrapping an array gives None |
| Inference.ArrayOfListNotSearched | ivy/utils/backend/handler.py:101-117 | an `ivy.Array` whose payload is a list is not searched, unlike the bare list |
| Dynamic.PayloadIds | ivy/utils/backend/handler.py:328-331 | one payload identity per array, position by position |
| Dynamic.LeafIds | ivy/utils/backend/handler.py:321-327 | exactly the identities of the leaves of the containers |
| Dynamic.FirstOrder | ivy/utils/backend/handler.py:333 | the keys of the dictionary comprehension: the payload ids that are no container leaf, each at its first occurrence |
| Dynamic.LastIndex | ivy/utils/backend/handler.py:333 | the last position of an id, whose array is the value the comprehension keeps |
| Dynamic.FirstOrderSpec | ivy/utils/backend/handler.py:333-335 | the dictionary keys are distinct and are exactly the identities outside the container leaves |
| Dynamic.LastIndexSpec | ivy/utils/backend/handler.py:333-335 | the last occurrence is found, and no later position carries the identity |
| Dynamic.RemoveIntermediateArrays | ivy/utils/backend/handler.py:320-335 | one array per kept identity, in first-occurrence order |
| Dynamic.PickLast | ivy/utils/backend/handler.py:333-335 | each kept identity is represented by the array at its last occurrence |
| Dynamic.KeptDistinct | ivy/utils/backend/handler.py:320-335 | kept arrays have pairwise distinct payloads, none of them a container leaf |
| Dynamic.KeptComplete | ivy/utils/backend/handler.py:320-335 | every payload that is not a container leaf is represented among the kept arrays |
| Dynamic.KeptIsLast | ivy/utils/backend/handler.py:320-335 | a kept array is one of the inputs, and no later array carries its payload |
| Dynamic.Initialized | ivy/utils/backend/handler.py:342-344 | the filter keeps exactly the initialized arrays |
| Dynamic.IsVar | ivy/utils/backend/handler.py:294-318 | `_is_var`: an array whose payload is a variable, or a container all of whose leaves are; NumPy and XLA payloads are never variables |
| Dynamic.NewObjs | ivy/utils/backend/handler.py:346-348 | `new_objs`: the kept arrays, then the containers |
| Dynamic.Entries | ivy/utils/backend/handler.py:347-348 | `new_objs` lists the arrays, then the containers |
| Dynamic.NewObjsDistinct | ivy/utils/backend/handler.py:347-348 | the objects scanned are pairwise distinct and are among the arrays and containers |
| Dynamic.EntriesDistinct | ivy/utils/backend/handler.py:347-348 | arrays with distinct payloads and distinct containers give distinct entries |
| Dynamic.Selected | ivy/utils/backend/handler.py:352-354 | the objects the loop appends to `numpy_objs`, in order: those with `dynamic_backend` set |
| Dynamic.VariableIds | ivy/utils/backend/handler.py:355-357 | the ids the loop adds to `variable_ids`: those of flagged objects that are variables |
| Dynamic.SelectedSpec | ivy/utils/backend/handler.py:352-354 | `numpy_objs` receives exactly the objects whose `dynamic_backend` flag is set |
| Dynamic.VariableIdsSpec | ivy/utils/backend/handler.py:355-357 | `variable_ids` receives exactly the identities of flagged objects that are variables |
| Dynamic.SelectedDistinct | ivy/utils/backend/handler.py:352-354 | selection keeps objects distinct |
| Dynamic.RecordedIffVariable | ivy/utils/backend/handler.py:355-357 | with unique identities, an object's identity is recorded iff it is a flagged variable |
| Dynamic.UniqueIdsWithin | ivy/utils/backend/handler.py:347-357 | a sub-list of objects with unique identities has unique identities |
| Dynamic.NewObjsUnique | ivy/utils/backend/handler.py:347-348 | the scanned objects inherit unique identities from the entries |
| Dynamic.SwitchPlan | ivy/utils/backend/handler.py:347-357 | what the export loop relies on: distinct flagged objects, exactly those, and recorded identities exactly of flagged variables |
| Dynamic.SelectedWithin | ivy/utils/backend/handler.py:352-354 | `numpy_objs` lists only scanned arrays and containers |
| Dynamic.ExportObject | ivy/utils/backend/handler.py:358-367 | one object's payload, or each container leaf, becomes its NumPy form, a variable staying a variable |
| Dynamic.ExportObjects | ivy/utils/backend/handler.py:352-369 | the export loop appends the flagged objects and their variable identities, and leaves every object exported |
| Dynamic.ConvertFromSourceBackendToNumpy | ivy/utils/backend/handler.py:290-369 | the flagged scanned objects are exported and listed; arrays not scanned keep their payloads |
| Dynamic.ConvertFromNumpyToTargetBackend | ivy/utils/backend/handler.py:372-395 | every listed object is imported by `asarray`, and becomes a variable again iff its identity was recorded |
| Handler.ReversedSnoc | ivy/utils/backend/handler.py:441-446 | reversing `s + [x]` puts `x` first, which is what makes pop-all followed by replay restore the stack |
| Handler.RestoreStep | ivy/utils/backend/handler.py:596-605 | one iteration of the restore loop extends the restored part by one key |
| Handler.RebindTargetStep | ivy/utils/backend/handler.py:259-268 | one rebinder iteration extends the rebound namespace by one key |
| Handler.RebindTargetAtKey | ivy/utils/backend/handler.py:262-268 | the key of this iteration is deleted when dropped, and otherwise bound to its entry |
| Handler.RebindTargetElsewhere | ivy/utils/backend/handler.py:259-268 | an iteration changes the namespace at no other key |
| Handler.RebindBackendStep | ivy/utils/backend/handler.py:259-268 | one rebinder iteration extends the filled backend by one key |
| Handler.RebindBackendAtKey | ivy/utils/backend/handler.py:261-268 | the backend is filled at this iteration's key with the original, or keeps its own value |
| Handler.RebindBackendElsewhere | ivy/utils/backend/handler.py:259-268 | an iteration changes the backend at no other key |
| Handler.ExportForSwitch | ivy/utils/backend/handler.py:426-433 | `numpy_objs` holds exactly the flagged objects, distinct; `variable_ids` exactly the flagged variables; all objects are exported |
| Handler.ApartFromModules | ivy/utils/backend/handler.py:352-367 | tracked arrays and containers are neither backend modules nor the handler |
| Handler.ApartFromHandler | ivy/utils/backend/handler.py:352-367 | no tracked object is a backend module or the handler |
| Handler.BackendHandler.constructor | ivy/utils/backend/handler.py:18-22 | the stack starts empty, the implicit backend is numpy, and the snapshot is the current namespace |
| Handler.BackendHandler.CurrentBackend | ivy/utils/backend/handler.py:197-249 | the top of the stack if any; else the inferred backend, which becomes the implicit one, or ImportError when its module is missing; else the implicit backend |
| Handler.BackendHandler.UnsetBackend | ivy/utils/backend/handler.py:548-608 | an empty stack changes nothing; otherwise the top is popped and returned, and the snapshot keys are restored from the new top (wrapped) or from the snapshot itself |
| Handler.BackendHandler.SetBackendAsIvy | ivy/utils/backend/handler.py:252-280 | ivy's namespace and the backend's dictionary become the rebinder's result for the snapshot, and the backend's insertion order only grows |
| Handler.BackendHandler.ClearBackendStack | ivy/utils/backend/handler.py:612-614 | the stack ends empty; if anything was popped, the namespace is the snapshot over the old namespace |
| Handler.BackendHandler.PopAll | ivy/utils/backend/handler.py:441-443 | the unwinding loop empties the stack, returns the popped backends in pop order, and restores the snapshot |
| Handler.BackendHandler.Replay | ivy/utils/backend/handler.py:445-446 | the replay loop pushes the popped backends back in their original order |
| Handler.BackendHandler.Accepted | ivy/utils/backend/handler.py:421-424 | `set_backend` accepts a module, or a name that is a key of `_backend_dict` |
| Handler.BackendHandler.SetBackend | ivy/utils/backend/handler.py:399-460 | the whole state it leaves (`SetBackendDone`): an unknown name raises and changes nothing; the snapshot is taken on an empty stack; a failed import raises ImportError and leaves the stack empty; otherwise the module is pushed and stays valid, its versions are resolved (raising leaves ivy as after the unwind), and ivy and the module are rebound to the rebinder's result; the module's insertion order extends the resolved one |
| Handler.BackendHandler.Import | ivy/utils/backend/handler.py:438-446 | snapshot, then the module; a name unwinds and replays the stack around the import, and leaves it empty if the import fails |
| Handler.BackendHandler.Activate | ivy/utils/backend/handler.py:451-453 | the module is pushed; version resolution's outcome is returned; ivy is rebound unless resolution raised; the module's insertion order is the resolved one, extended by the rebinder |
| Handler.BackendHandler.SetBackendDynamic | ivy/utils/backend/handler.py:399-456 | the handler, namespace, snapshot and module end as `set_backend` leaves them (`SetBackendDone`), on success and on every failure; an unknown name touches no object; a failed switch leaves flagged objects exported; a successful one round-trips exactly the flagged objects through NumPy into the new backend |
| Handler.BackendHandler.DynamicSwitch | ivy/utils/backend/handler.py:430-456 | export, switch, import: the handler ends as `set_backend` leaves it (`SetBackendDone`); each flagged object is round-tripped, variable-ness kept; the others are untouched; a failure leaves them exported |
| Handler.BackendHandler.Switch | ivy/utils/backend/handler.py:436-453 | the whole state `set_backend` leaves (`SetBackendDone`); on success the stack has grown by the target module |
| Handler.BackendHandler.SwitchAndImport | ivy/utils/backend/handler.py:436-456 | after the export: the handler ends as `set_backend` leaves it (`SetBackendDone`); a failure leaves the objects as they were; a success re-imports exactly the flagged ones |
| Handler.ImportForSwitch | ivy/utils/backend/handler.py:455-456 | the import step: flagged objects are imported by the new backend's `asarray`, the others are untouched |
| Handler.ContextManager.constructor | ivy/utils/backend/handler.py:26-27 | remembers the module to set |
| Handler.ContextManager.Enter | ivy/utils/backend/handler.py:29-30 | entering the block leaves the state `set_backend(module)` leaves (`SetBackendDone`), on success and on failure |
| Handler.ContextManager.Exit | ivy/utils/backend/handler.py:32-33 | leaving the block is `unset_backend()`: the top is popped and ivy gets the restore of the new top's dictionary (wrapped) or of the snapshot; leaving the outermost block restores the snapshot |
| PaddleDtypes.IvyDtypeDict | ivy/functional/backends/paddle/data_type.py:14-26 | `ivy_dtype_dict`: the ivy name of each of the eleven supported Paddle dtypes |
| PaddleDtypes.NativeDtypeDict | ivy/functional/backends/paddle/data_type.py:28-40 | `native_dtype_dict`: the Paddle dtype of each supported ivy name |
| PaddleDtypes.InTable | ivy/functional/backends/paddle/data_type.py:14-26 | every Paddle dtype except bfloat16 has an ivy name |
| PaddleDtypes.BFloat16Unnamed | ivy/functional/backends/paddle/data_type.py:28-40 | no ivy name maps to Paddle's bfloat16 |
| PaddleDtypes.NameInverse | ivy/functional/backends/paddle/data_type.py:14-40 | looking up a dtype's ivy name in the native table gives the dtype back |
| PaddleDtypes.NativeInverse | ivy/functional/backends/paddle/data_type.py:14-40 | looking up a name's native dtype in the ivy table gives the name back |
| PaddleDtypes.TablesInverse | ivy/functional/backends/paddle/data_type.py:14-40 | `ivy_dtype_dict` and `native_dtype_dict` are mutually inverse, and "bfloat16" is in neither |
| PaddleDtypes.AsIvyDtype | ivy/functional/backends/paddle/data_type.py:201-218 | builtin classes map to the defaults; a name is accepted iff it is a known dtype name, else IvyException; a Paddle dtype is accepted iff it is not bfloat16, else KeyError |
| PaddleDtypes.AsNativeDtype | ivy/functional/backends/paddle/data_type.py:221-239 | fails iff given an unknown name (IvyException); a native dtype passes through; a name gives its table entry |
| PaddleDtypes.ConversionsRoundTrip | ivy/functional/backends/paddle/data_type.py:218-235 | native to ivy to native, and ivy to native to ivy, are both the identity on the tables |
| PaddleDtypes.ConversionsEdgeCases | ivy/functional/backends/paddle/data_type.py:202-239 | `bool` maps to "bool" and `paddle.bool`; bfloat16 passes `as_native_dtype` but raises in `as_ivy_dtype` |
| PaddleDtypes.Dtype | ivy/functional/backends/paddle/data_type.py:242-245 | a tensor's native dtype, or its ivy name, which names that same dtype; bfloat16 raises in the ivy form |
| PaddleDtypes.DtypeToNative | ivy/functional/backends/paddle/data_type.py:242-245 | either form of `dtype(x)` converts back to the tensor's dtype |
| PaddleDtypes.Astype | ivy/functional/backends/paddle/data_type.py:110-121 | fails iff the dtype does not convert; the result has the requested dtype; the input itself is returned iff no copy is asked and the dtype already matches; a cast happens iff the dtypes differ |
| PaddleDtypes.AstypeOwnDtype | ivy/functional/backends/paddle/data_type.py:118-121 | casting a tensor to its own dtype never casts |
| PaddleDtypes.DtypeBits | ivy/functional/backends/paddle/data_type.py:248-259 | errors of `as_ivy_dtype` propagate; names containing "bool" have 1 bit |
| PaddleDtypes.StripFrom | ivy/functional/backends/paddle/data_type.py:253-258 | the chain of `replace` calls of `dtype_bits`, from a given step to the last |
| PaddleDtypes.StripSkips | ivy/functional/backends/paddle/data_type.py:253-258 | steps of the `replace` chain whose substring has a letter absent from the string leave the string unchanged |
| PaddleDtypes.StripNumeral | ivy/functional/backends/paddle/data_type.py:253-258 | the whole `replace` chain, from any step on, leaves a digit string unchanged |
| PaddleDtypes.StripFamilyNumeral | ivy/functional/backends/paddle/data_type.py:253-258 | stripping `<family><width>` leaves exactly `<width>` |
| PaddleDtypes.NoBoolInFamily | ivy/functional/backends/paddle/data_type.py:250 | no numeric dtype name contains "bool" |
| PaddleDtypes.DtypeBitsFamily | ivy/functional/backends/paddle/data_type.py:248-259 | a dtype whose ivy name is `<family><n>` has `n` bits |
| PaddleDtypes.DtypeBitsTable | ivy/functional/backends/paddle/data_type.py:248-259 | every named dtype, given natively or by name, has the bit width of the reference table |
| PaddleDtypes.FamilyOf | ivy/functional/backends/paddle/data_type.py:14-26 | every ivy dtype name other than "bool" is a family prefix followed by its reference width |
| PaddleDtypes.DtypeBitsEdgeCases | ivy/functional/backends/paddle/data_type.py:248-251 | `bool` has 1 bit; "bfloat16" raises IvyException; Paddle's bfloat16 raises KeyError |

## Left out

- Device and random-seed side effects of `set_backend` and `unset_backend`
  (handler.py:447-450, 583-595): they call into code that is not part of this model.
- Deleting the backend-specific variables (`_handle_backend_specific_vars`) and the
  verbosity messages: these are side effects on other modules and on logging.
- The process-wide lock (handler.py:436, 460): the model is single-threaded.
  - The code does not release the lock when the switch raises. The model has no
    lock, so this is not represented.
- `ivy.is_local` and `prevent_access_locally`, `with_backend`,
  `choose_random_backend`, `get_backend`, `previous_backend` and the
  `set_<framework>_backend` helpers: these are outside the core.
- `_wrap_function`'s internals: a wrapper is a value that records the implementation,
  the original and the compositional flag.
- Aliasing between the snapshot's sub-modules and the live ones: modules are values
  here.
- Namespace.SetThenUnsetRestores, Namespace.RestoreOriginal: these promise only the
  top-level bindings. In the program, an eligible `ivy.functional.` sub-module that the
  backend lacks is put into the backend as the very same object (handler.py:265). The
  recursive rebind then rewrites its `__dict__` in place (handler.py:274-280). Unsetting
  puts back that same, already rebound object, so its contents are not restored. The
  model treats modules as values and does not capture this.
- Version.RangeNameResolves, Version.AboveNameResolves, Version.BelowNameResolves: these
  are proved only for op names that contain no marker the branch looks for, even with a
  `_` appended. For RangeNameResolves those markers are `_v_` and `_to_`. For the other two
  they are `_v_`, `_to_` and `_and_`. The excluded names do not all resolve: when the
  branch's own marker lies inside the op name, the source's `index("_to_")` or
  `index("_and_")` finds that one first. The version slice is then empty, and `int("")`
  raises ValueError. So `broadcast_to`'s variants are never resolved, and neither are the
  `_and_above`/`_and_below` variants of `logical_and` or `bitwise_and`. The `_to_` variants
  of `logical_and` are resolved. Version.BroadcastToVariantRaises,
  Version.LogicalAndVariantRaises and Version.LogicalAndRangeResolves prove one instance
  of each.
- `int()` accepts only ASCII digit strings here, with no sign, whitespace or
  underscores. Version parts and dtype widths never have those.
- Handler.BackendHandler.SetBackendAsIvy: says that the insertion order of the
  backend's dictionary only grows. It does not say in which order the filled keys are
  appended.
- Dynamic.ConvertFromNumpyToTargetBackend: the `.data` projection of an imported
  `ivy.Array` is folded into `asarray`.
- Dynamic.ExportObject: a container's leaves are payloads. `cont_all_true` on an empty
  container is not modelled, and neither are nested containers.
- The garbage collector's object list is given as explicit sequences of arrays and
  containers. Distinct Python objects are assumed to have distinct `id`s, stated as a
  precondition.
- From `ivy/functional/backends/paddle/data_type.py`:
  - The `Finfo`, `Iinfo` and `Bfloat16Finfo` classes and `finfo`/`iinfo` (lines
    43-103 and 158-178): they read floating-point limits from Paddle.
  - `broadcast_arrays`, `broadcast_to` (lines 124-155) and `result_type` (lines
    181-194): they compute shapes and promotions inside Paddle.
- PaddleDtypes.AsIvyDtype: an argument that is neither a builtin class, a string nor
  a Paddle dtype is not modelled. `ivy.Dtype` and `ivy.to_native` act as the
  identity, and the default dtypes are parameters.

Behaviour the model follows from the code, where the docstrings suggest otherwise:

- `unset_backend` re-wraps restored keys with the compositional flag off, even for keys
  the backend lacked.
- `set_backend` with a backend name unwinds the whole stack before importing. If the
  import raises, the stack stays empty.
- When `set_backend_to_specific_version` raises (an unknown framework version, or a
  variant that is not a function), the backend is already pushed. The namespace is not
  rebound.
- The resolver raises ValueError on a variant whose branch marker lies inside the op name,
  so `set_backend` fails for a backend that defines one. A name holding `_to_` always takes
  the `_to_` branch, so no variant of `broadcast_to` is ever resolved. The `_and_above` and
  `_and_below` variants of `logical_and` are never resolved either. Its `_to_` variants are
  resolved normally.
- A name containing `_v_` that matches no variant form falls into the `_and_below`
  branch. This branch raises ValueError when the marker is missing.
- `as_native_dtype` passes Paddle's bfloat16 through. `as_ivy_dtype` raises KeyError
  on it, so `dtype(x)` and `dtype_bits` fail for bfloat16 tensors.
