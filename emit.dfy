/**
 * What `expand_tokens` computes, stated without its loops: the data it works on and
 * the result it must produce, as functions. Token generation is not modelled; the
 * result is the structure the generated `match` and `__private_forward!` call are
 * built from.
 */
module Emit {
  import opened Base
  import opened SortedMap

  /** A field-value's expression: a path such as `a` or `a::b`, or anything else. */
  datatype Expr = Path(segments: seq<string>) | Other(text: string)
  {
    /** `Path::get_ident`: the identifier a one-segment path consists of. */
    function Ident(): (id: Option<string>)
      ensures id.Some? ==> Path? && segments == [id.value]
    {
      if Path? && |segments| == 1 then Some(segments[0]) else None
    }
  }

  /** A field-value `#[attr]* key: expr`, with its key already read off as a string. */
  datatype FieldValue = FieldValue(key: string, expr: Expr, attrs: seq<string>)

  /** One element of the generated `match` scrutinee: the attributes moved in front
      of a capture of the field-value, which then carries none. */
  datatype Capture = Capture(attrs: seq<string>, field: FieldValue)

  /** The panics of `expand_tokens`, one per message. */
  datatype Panic =
    | NotAnIdentifier      // a hole that shares its key with an extra is not a path
    | AttributesInTemplate // such a hole carries attributes
    | KeyPathMismatch      // such a hole's path is not the single identifier of its key
    | DuplicateKey         // a key is bound a second time

  /**
   * The structured output. Binding `__tmp{i}` is represented by `i`.
   *   captures       - the `match` scrutinee, in rendering order
   *   bindings       - the `match` pattern, in rendering order
   *   sortedKeys     - the key names passed on, ascending
   *   sortedBindings - the bindings in the order of `sortedKeys` (`sorted_key_values`)
   *   accessors      - the indices `record.kvs[..]` is read at
   *   target         - the target expression, if any
   */
  datatype Expansion = Expansion(
    captures: seq<Capture>,
    bindings: seq<nat>,
    sortedKeys: seq<string>,
    sortedBindings: seq<nat>,
    accessors: seq<nat>,
    target: Option<Expr>)

  function Range(n: nat): seq<nat>
  {
    seq(n, i => i)
  }

  function KeysOf(fvs: seq<FieldValue>): set<string>
  {
    set i | 0 <= i < |fvs| :: fvs[i].key
  }

  lemma {:induction false} KeysOfSnoc(fvs: seq<FieldValue>, n: nat)
    requires n < |fvs|
    ensures KeysOf(fvs[..n + 1]) == KeysOf(fvs[..n]) + {fvs[n].key}
  {
    var a, b := fvs[..n + 1], fvs[..n];
    forall k | k in KeysOf(a) ensures k in KeysOf(b) + {fvs[n].key} {
      var i :| 0 <= i < |a| && a[i].key == k;
      if i < n { assert b[i].key == k; }
    }
    forall k | k in KeysOf(b) ensures k in KeysOf(a) {
      var i :| 0 <= i < |b| && b[i].key == k;
      assert a[i].key == k;
    }
    assert a[n].key == fvs[n].key;
  }

  /** The key of the `i`-th field-value. */
  function KeyOf(fvs: seq<FieldValue>, i: nat): string
    requires i < |fvs|
  {
    fvs[i].key
  }

  /** No two field-values share a key. */
  ghost predicate DistinctKeys(fvs: seq<FieldValue>)
  {
    forall i, j :: 0 <= i < j < |fvs| ==> KeyOf(fvs, i) != KeyOf(fvs, j)
  }

  /** Every entry of the extra pool is stored under its own key. */
  ghost predicate Keyed(pool: Entries<FieldValue>)
  {
    forall i :: 0 <= i < |pool| ==> pool[i].1.key == pool[i].0
  }

  lemma {:induction false} KeyedWithout(pool: Entries<FieldValue>, ks: set<string>)
    requires Keyed(pool)
    ensures Keyed(Without(pool, ks))
  {
    var rest := Without(pool, ks);
    WithoutEntries(pool, ks);
    forall i | 0 <= i < |rest| ensures rest[i].1.key == rest[i].0 {
      assert rest[i] in rest;
    }
  }

  /** No field-value after position `i` has the key of the one at `i`. */
  ghost predicate LastOfKey(fvs: seq<FieldValue>, i: nat)
    requires i < |fvs|
  {
    forall j :: i < j < |fvs| ==> fvs[j].key != fvs[i].key
  }

  /** Collecting the extras into a `BTreeMap` by key, a later extra replacing an earlier one. */
  function Collect(extras: seq<FieldValue>): (pool: Entries<FieldValue>)
    ensures Ascending(pool) && Keyed(pool)
    ensures KeySet(pool) == KeysOf(extras)
  {
    if |extras| == 0 then []
    else
      var n := |extras| - 1;
      var prefix := Collect(extras[..n]);
      var pool := Insert(prefix, extras[n].key, extras[n]);
      KeysOfSnoc(extras, n);
      assert extras[..n + 1] == extras;
      assert Keyed(pool) by {
        InsertEntries(prefix, extras[n].key, extras[n]);
        forall i | 0 <= i < |pool| ensures pool[i].1.key == pool[i].0 {
          assert pool[i] in pool;
        }
      }
      pool
  }

  /** Collecting one more extra inserts it into the pool of the ones before it. */
  lemma {:induction false} CollectSnoc(extras: seq<FieldValue>, n: nat)
    requires |extras| == n + 1
    ensures Collect(extras) == Insert(Collect(extras[..n]), extras[n].key, extras[n])
  {
    assert extras[..n + 1] == extras;
  }

  /** Each key present among the extras is stored once, holding the LAST extra with that key. */
  lemma {:induction false} CollectKeepsLast(extras: seq<FieldValue>, i: nat)
    requires i < |extras| && LastOfKey(extras, i)
    ensures Get(Collect(extras), extras[i].key) == Some(extras[i])
  {
    var n := |extras| - 1;
    var prefix := extras[..n];
    CollectSnoc(extras, n);
    InsertGet(Collect(prefix), extras[n].key, extras[n], extras[i].key);
    if i < n {
      LastInPrefix(extras, n, i);
      CollectKeepsLast(prefix, i);
    }
  }

  /** The last extra with its key, if not the last extra, is also the last with it among the ones before. */
  lemma {:induction false} LastInPrefix(extras: seq<FieldValue>, n: nat, i: nat)
    requires |extras| == n + 1 && i < n && LastOfKey(extras, i)
    ensures extras[..n][i] == extras[i] && LastOfKey(extras[..n], i) && extras[n].key != extras[i].key
  {
    var prefix := extras[..n];
    forall j | i < j < n ensures prefix[j].key != prefix[i].key {
      assert prefix[j] == extras[j];
    }
  }

  /**
   * Moving the attributes off a field-value and in front of its capture: the
   * capture carries none, and putting them back gives the field-value again.
   */
  function Hoist(fv: FieldValue): (c: Capture)
    ensures c.field.attrs == [] && c.attrs == fv.attrs
    ensures c.field.(attrs := c.attrs) == fv
  {
    Capture(fv.attrs, fv.(attrs := []))
  }

  function Hoisted(fvs: seq<FieldValue>): seq<Capture>
  {
    seq(|fvs|, i requires 0 <= i < |fvs| => Hoist(fvs[i]))
  }

  /** The hole is a bare identifier naming its own key, with no attributes. */
  predicate IsBare(hole: FieldValue)
  {
    hole.attrs == [] && hole.expr.Ident() == Some(hole.key)
  }

  /**
   * The checks on a hole whose key is also an extra's, in the order the source
   * makes them; it passes exactly when the hole is bare.
   */
  function CheckBare(hole: FieldValue): (p: Option<Panic>)
    ensures p == None <==> IsBare(hole)
  {
    if !hole.expr.Path? then Some(NotAnIdentifier)
    else if hole.attrs != [] then Some(AttributesInTemplate)
    else if hole.expr.Ident() != Some(hole.key) then Some(KeyPathMismatch)
    else None
  }

  /**
   * How hole `i` fails, given that every earlier hole went through. An earlier
   * hole with the same key has already bound it (and removed any extra for it),
   * so the hole is bound again; otherwise a matching extra demands a bare hole.
   */
  function HolePanic(holes: seq<FieldValue>, pool: Entries<FieldValue>, i: nat): Option<Panic>
    requires i < |holes|
  {
    if holes[i].key in KeysOf(holes[..i]) then Some(DuplicateKey)
    else if holes[i].key in KeySet(pool) then CheckBare(holes[i])
    else None
  }

  /** The panic of the first failing hole at or after `from`, if any. */
  function FirstPanic(holes: seq<FieldValue>, pool: Entries<FieldValue>, from: nat): (p: Option<Panic>)
    requires from <= |holes|
    ensures p == None <==> forall i :: from <= i < |holes| ==> HolePanic(holes, pool, i) == None
    ensures p.Some? ==> exists i :: from <= i < |holes| && HolePanic(holes, pool, i) == p &&
                                    (forall j :: from <= j < i ==> HolePanic(holes, pool, j) == None)
    decreases |holes| - from
  {
    if from == |holes| then None
    else if HolePanic(holes, pool, from).Some? then HolePanic(holes, pool, from)
    else FirstPanic(holes, pool, from + 1)
  }

  /** The field-value a hole is rendered with: the extra for its key, if any, else its own. */
  function Source(hole: FieldValue, pool: Entries<FieldValue>): (fv: FieldValue)
    requires Keyed(pool)
    ensures fv.key == hole.key
    ensures hole.key in KeySet(pool) ==> Some(fv) == Get(pool, hole.key)
    ensures hole.key !in KeySet(pool) ==> fv == hole
  {
    GetSome(pool, hole.key);
    match Get(pool, hole.key)
    case Some(extra) =>
      GetFound(pool, hole.key);
      extra
    case None => hole
  }

  /** The remaining extras, with the keys the template pass left in the pool. */
  function Remaining(holes: seq<FieldValue>, pool0: Entries<FieldValue>): Entries<FieldValue>
  {
    Without(pool0, KeysOf(holes))
  }

  /**
   * The field-values in rendering order: every hole in template order, then every
   * extra no hole claimed, in ascending key order.
   */
  function Rendered(holes: seq<FieldValue>, pool: Entries<FieldValue>): seq<FieldValue>
    requires Keyed(pool)
  {
    seq(|holes|, i requires 0 <= i < |holes| => Source(holes[i], pool))
      + Values(Remaining(holes, pool))
  }

  /**
   * `sorted_field_bindings` after inserting each field's key with its position:
   * ascending, holding exactly the fields' keys, each with the position of a field
   * that has it; as long as one entry per field when no key repeats.
   */
  function SortedView(fields: seq<FieldValue>): (view: Entries<nat>)
    ensures Ascending(view)
    ensures KeySet(view) == KeysOf(fields)
  {
    if |fields| == 0 then []
    else
      var n: nat := |fields| - 1;
      KeysOfSnoc(fields, n);
      assert fields[..n + 1] == fields;
      Insert(SortedView(fields[..n]), fields[n].key, n)
  }

  /** Every entry of `view` names a field of `fields` that has the entry's key. */
  ghost predicate PointsInto(view: Entries<nat>, fields: seq<FieldValue>)
  {
    forall j :: 0 <= j < |view| ==> view[j].1 < |fields| && fields[view[j].1].key == view[j].0
  }

  /** Each entry of the sorted view holds the position of a field with that key. */
  lemma {:induction false} SortedViewPointsIntoFields(fields: seq<FieldValue>)
    ensures PointsInto(SortedView(fields), fields)
  {
    if |fields| != 0 {
      var n: nat := |fields| - 1;
      var prefix := SortedView(fields[..n]);
      SortedViewPointsIntoFields(fields[..n]);
      assert fields[..n + 1] == fields;
      var view := SortedView(fields);
      assert view == Insert(prefix, fields[n].key, n);
      InsertEntries(prefix, fields[n].key, n);
      forall j | 0 <= j < |view| ensures view[j].1 < |fields| && fields[view[j].1].key == view[j].0 {
        assert view[j] in view;
        if view[j] != (fields[n].key, n) {
          var i :| 0 <= i < |prefix| && prefix[i] == view[j];
          assert fields[..n][prefix[i].1] == fields[prefix[i].1];
        }
      }
    }
  }

  /** With distinct keys, the sorted view holds one entry per field. */
  lemma {:induction false} SortedViewLength(fields: seq<FieldValue>)
    requires DistinctKeys(fields)
    ensures |SortedView(fields)| == |fields|
  {
    if |fields| != 0 {
      var n := |fields| - 1;
      var prefix := fields[..n];
      assert DistinctKeys(prefix) by {
        forall i, j | 0 <= i < j < |prefix| ensures KeyOf(prefix, i) != KeyOf(prefix, j) {
          assert KeyOf(fields, i) != KeyOf(fields, j);
        }
      }
      SortedViewLength(prefix);
      assert fields[..n + 1] == fields;
      assert fields[n].key !in KeysOf(prefix) by {
        forall i | 0 <= i < n ensures prefix[i].key != fields[n].key {
          assert KeyOf(fields, i) != KeyOf(fields, n);
        }
      }
    }
  }

  /**
   * The target lookup: the expression of the first before-template field-value
   * keyed "target", or none when there is no such field-value.
   */
  function Target(before: seq<FieldValue>): (target: Option<Expr>)
    ensures target.Some? <==> exists i :: 0 <= i < |before| && before[i].key == "target"
    ensures target.Some? ==> exists i :: 0 <= i < |before| && before[i].key == "target" &&
                                         target.value == before[i].expr &&
                                         (forall j :: 0 <= j < i ==> before[j].key != "target")
  {
    if |before| == 0 then None
    else if before[0].key == "target" then Some(before[0].expr)
    else
      var rest := Target(before[1..]);
      assert forall i :: 1 <= i < |before| ==> before[i] == before[1..][i - 1];
      rest
  }

  /**
   * The whole expansion: either the panic of the first failing hole, or the
   * rendering-order captures and bindings, the sorted keys and bindings, the
   * accessor indices and the target.
   */
  function Expand(holes: seq<FieldValue>, extras: seq<FieldValue>, before: seq<FieldValue>)
    : Result<Expansion, Panic>
  {
    var pool := Collect(extras);
    match FirstPanic(holes, pool, 0)
    case Some(p) => Failure(p)
    case None =>
      var fields := Rendered(holes, pool);
      var view := SortedView(fields);
      Success(Expansion(Hoisted(fields), Range(|fields|), Keys(view), Values(view),
                        Range(|view|), Target(before)))
  }
}
