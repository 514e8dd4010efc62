# antlog `expand_tokens`, modelled in Dafny

`expand_tokens` (ct/src/emit.rs) is the compile-time half of event emission.
It takes a message template and the field-values written around it:

- the **holes**: the template's own field-values, in template order;
- the **extras**: field-values after the template, collected into a `BTreeMap` by key;
- the field-values **before** the template, where a `target` may be given.

It merges holes and extras into one list of field-values in rendering order.
Each field-value is bound to `__tmp0 .. __tmp{n-1}`, its attributes are hoisted in
front of its capture, and the keys are sorted with their bindings. Expansion panics
when a key is bound twice, or when a hole shares its key with an extra but is not
a bare identifier naming that key.

The model keeps the source's structure:

- `Expander` is the imperative code. The class `FieldCollector` is the state the
  `push_field_value` closure captures (`field_values`, `field_bindings`,
  `sorted_field_bindings`, `field_index`), and `Push` is the closure. `PushTemplate`
  and `PushExtras` are the two `for` loops, and `ExpandTokens` is the whole function.
  Each is proved against the functional description below.
- `Steps` is the same computation as folds over the holes and the remaining extras.
  `Steps.StepsMatchExpand` proves that the folds compute exactly `Emit.Expand`.
- `Emit` says what the result is without the loops. The rendered field-values are
  every hole (or the extra that claims it) in template order, then every unclaimed
  extra in ascending key order. The failure is the panic of the first failing hole.
- `SortedMap` is `BTreeMap<String, _>` as a strictly ascending association list,
  so iteration order is part of the value. `LexOrder` is the byte order of Rust
  strings.
- `Properties` states what the expansion promises. `Golden` holds the two cases of
  the `expand_emit` test.

Token generation is not modelled. The result is the structured `Expansion`:
captures, bindings (binding `__tmp{i}` is the number `i`), sorted keys, sorted
bindings, accessor indices and target. A panic is `Failure(p)`, with one `Panic`
constructor per message.

How the code behaves where one might expect otherwise (the model follows the code):

- Two extras with the same key do not fail. The `BTreeMap` collect keeps the last one.
- A hole with no extra is not an error. It is captured as itself.
- Unclaimed extras are appended in ascending key order, not in the order they were written.
- The output relates sorted position to rendering position: sorted binding `j` is the
  binding of the field-value with sorted key `j`.
- A hole claimed by an extra is rendered with the extra's expression and attributes.
  The extra is removed from the pool, so it is not appended again.

## Model

| member | source | states |
|---|---|---|
| Expander.ExpandTokens | ct/src/emit.rs:16-137 | The method's result is exactly `Emit.Expand` of the holes, extras and before-template field-values, panics included |
| Expander.PushTemplate | ct/src/emit.rs:59-87 | The loop over the holes ends as the template fold says: it fails with the failing hole's panic, or it leaves the collector's state and the remaining pool the fold gives |
| Expander.PushExtras | ct/src/emit.rs:89-92 | The loop over the remaining extras, in the pool's ascending order, leaves the state the fold over the rest gives, when that fold goes through |
| Expander.FieldCollector.Push | ct/src/emit.rs:36-57 | The capture and binding are appended and the key is bound to the current index, whatever happens. The push fails exactly when the key was already bound, and then the index does not move. Otherwise the state stays consistent |
| Expander.FieldCollector.constructor | ct/src/emit.rs:29-34 | The collector starts empty, with index 0 |
| Steps.Start | ct/src/emit.rs:29-34 | The initial state is consistent and has index 0 |
| Steps.PushField | ct/src/emit.rs:36-57 | One push panics with `DuplicateKey` exactly when the key is already bound. Otherwise: the index grows by one, the capture is appended, the key set grows by the key, the key maps to the old index, every other key keeps its binding, and the state stays consistent (one value and binding per index, bindings `0..n`, sorted map ascending) |
| Steps.HoleStep | ct/src/emit.rs:67-84 | Hole `i`'s lookup: it finds the extra it is rendered with, or it finds nothing and the hole renders as itself, or an earlier hole already took the key and the hole fails with `DuplicateKey` |
| Steps.HoleInvariantStep | ct/src/emit.rs:60-86 | One iteration of the hole loop fails with the hole's panic, or it moves the state on by exactly one rendered field-value and takes the key out of the pool |
| Steps.HolesInvariant | ct/src/emit.rs:59-87 | After the first `n` holes, the loop has gone through iff none of them fails. It then holds the state after the first `n` rendered field-values, with the pool lacking exactly their keys. Otherwise its panic is the first failing hole's |
| Steps.RestInvariant | ct/src/emit.rs:89-92 | Pushing the remaining extras never panics, and moves the state on by one rendered field-value per extra |
| Steps.RestSucceeds | ct/src/emit.rs:89-92 | Once the hole loop went through, the remaining-extras loop cannot hit "keys cannot be duplicated" |
| Steps.StepsMatchExpand | ct/src/emit.rs:16-112 | The two loops, then the read-off of the sorted views, compute exactly `Emit.Expand` |
| Emit.Collect | ct/src/emit.rs:20-23 | The extra pool is ascending, stores each extra under its own key, and has exactly the extras' keys |
| Emit.CollectKeepsLast | ct/src/emit.rs:20-23 | Under a key, the pool holds the last extra with that key |
| Emit.Hoist | ct/src/emit.rs:43-47 | A capture carries no attributes. Its hoisted attributes are the field-value's, and putting them back gives the field-value |
| Emit.Expr.Ident | ct/src/emit.rs:73 | `get_ident` gives an identifier only for a one-segment path, and the path is exactly that identifier |
| Emit.CheckBare | ct/src/emit.rs:69-79 | The checks on a claimed hole pass exactly when it is a path with no attributes whose identifier is its key |
| Emit.FirstPanic | ct/src/emit.rs:59-87 | There is no panic iff no hole fails. A panic is that of a failing hole with no failing hole before it |
| Emit.Source | ct/src/emit.rs:67-84 | A hole renders as the extra under its key when there is one, and as itself otherwise. Either way the key is kept |
| Emit.SortedView | ct/src/emit.rs:51 | `sorted_field_bindings` after all the inserts is ascending and holds exactly the rendered keys |
| Emit.SortedViewPointsIntoFields | ct/src/emit.rs:110-112 | Each sorted entry holds the position of a rendered field-value that has that key |
| Emit.SortedViewLength | ct/src/emit.rs:111 | With distinct keys there is one sorted entry per field-value, so the accessors run over `0..n` |
| Emit.Target | ct/src/emit.rs:95-106 | The target is some expression iff some before-template field-value is keyed `target`. It is the expression of the first such field-value |
| SortedMap.Insert | ct/src/emit.rs:51 | `insert` keeps the map ascending and binds the key to the value, leaving other keys alone. The map grows exactly when the key was new |
| SortedMap.Without | ct/src/emit.rs:67 | `remove` takes exactly the given keys out, keeps every other binding, and keeps the map ascending |
| SortedMap.GetSome | ct/src/emit.rs:67 | A lookup finds something exactly when the key is in the map |
| Properties.ExpandSucceedsIff | ct/src/emit.rs:59-87 | Expansion succeeds iff no two holes share a key and every hole whose key is an extra's is bare (both directions) |
| Properties.PoolHoldsLast | ct/src/emit.rs:20-23 | What the pool holds under a key is the last extra with that key |
| Properties.RenderedDistinct | ct/src/emit.rs:50-54 | When no hole fails, no two rendered field-values share a key, so every key is bound once |
| Properties.HolesFirst | ct/src/emit.rs:59-87 | The first captures are the holes in template order. A claimed hole is replaced by the last extra with its key. Any other hole is captured as itself |
| Properties.ExtrasAfter | ct/src/emit.rs:89-92 | After the holes come exactly the unclaimed extra keys, once each, strictly ascending, each captured as the last extra with that key |
| Properties.ExpandShape | ct/src/emit.rs:43-57 | In a success: the `i`-th capture is bound to `__tmp{i}` and carries no attributes, and no two captures share a key. Keys, sorted bindings and accessors number one per capture, and the accessors are `0..n` |
| Properties.SortedBindingsPermute | ct/src/emit.rs:110-112 | With distinct keys, the sorted bindings are a permutation of the rendering-order bindings `0..n` |
| Properties.SortedViews | ct/src/emit.rs:108-112 | In a success: the sorted keys are strictly ascending and are exactly the holes' and extras' keys. Sorted binding `j` names the capture with sorted key `j`. The sorted bindings are a permutation of the bindings |
| Golden.FourHoles | ct/src/emit.rs:147-186 | `{b: 17} {a} {#[with_debug] c} {d: ...}` with no extras renders `b, a, c, d` as `__tmp0..3`, with `with_debug` hoisted in front of `c`. Keys are `a, b, c, d`, sorted bindings `__tmp1, __tmp0, __tmp2, __tmp3`, accessors `0..3`, and there is no target |
| Golden.ClaimedHole | ct/src/emit.rs:188-218 | `{a}` with the extra `a: 42` captures `a: 42` as `__tmp0` under the only key `a`, with sorted binding `__tmp0` and accessor `0` |

## Left out

- Template parsing is not part of this model. `Template::parse2`,
  `template_field_values`, `before_template_field_values` and
  `after_template_field_values` live in the `fv_template` crate. The three lists of
  field-values are inputs.
- `key_name` and `FieldValueExt` (from `crate::capture`) are not part of this model.
  Every field-value carries its key as a string, so the "expected a string key"
  panics are not modelled.
- Token generation is left out: `quote!`, `quote_spanned!`, spans, `Ident::new` and
  the runtime template parts from `to_rt_tokens`. Binding `__tmp{i}` is the number
  `i`. The capture macro's path is not modelled.
- Observation on the source, not executed: the capture call emitted at
  ct/src/emit.rs:47 is `emit::ct::__private_capture!`, while the expected output in
  the `expand_emit` test (ct/src/emit.rs:151-155 and 192) spells it
  `emit::rt::__private_capture!`. As written, the test's token comparison at
  ct/src/emit.rs:224 cannot hold for that code. `Golden.FourHoles` and
  `Golden.ClaimedHole` reproduce only the structured part of those cases (captures,
  bindings, sorted keys and bindings, accessors, target), not the token text.
- Golden.ClaimedHole: the test's target `Some(log)` comes from a positional
  argument that the template parser reads. The lookup here only finds a field-value
  keyed `target`, so the lemma leaves the target as `Target(before)`.
- Emit.Expr.Ident: a path is its list of segment names. Leading `::` and generic
  arguments, which also make `get_ident` return `None`, are not represented.
- Expressions other than paths are opaque text.
- `field_index` is a `usize`. It is modelled as unbounded, since it counts the
  field-values of one macro call.
- After a panic, `ExpandTokens` returns the panic alone. `FieldCollector.Push`
  models the state changes made before a duplicate-key panic, but nothing uses the
  collector afterwards.
- Forwarding to the sink (`__private_forward!`, `__private_capture!`) is not part of
  this model.
