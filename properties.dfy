/**
 * What the expansion promises, stated on `Emit.Expand` (which `Expander.ExpandTokens`
 * computes): when it succeeds, where each hole and each extra ends up, that every
 * key is bound once, and how the sorted views relate to the rendering order.
 */
module Properties {
  import opened Base
  import opened LexOrder
  import opened SortedMap
  import opened Emit
  import opened Steps

  /** The field-value a capture was made from: its attributes put back. */
  function Restored(c: Capture): FieldValue
  {
    c.field.(attrs := c.attrs)
  }

  /** `fv` is the last of the extras with its key, the one a `BTreeMap` collect keeps. */
  ghost predicate IsLastExtra(extras: seq<FieldValue>, fv: FieldValue)
  {
    exists j :: 0 <= j < |extras| && LastOfKey(extras, j) && extras[j] == fv
  }

  /** Every hole whose key is also an extra's is bare. */
  ghost predicate ClaimsAreBare(holes: seq<FieldValue>, extras: seq<FieldValue>)
  {
    forall i :: 0 <= i < |holes| && holes[i].key in KeysOf(extras) ==> IsBare(holes[i])
  }

  /** A key of the extras has a last extra. */
  lemma {:induction false} LastExtra(extras: seq<FieldValue>, k: string) returns (j: nat)
    requires k in KeysOf(extras)
    ensures j < |extras| && extras[j].key == k && LastOfKey(extras, j)
  {
    var n := |extras| - 1;
    if extras[n].key == k {
      j := n;
    } else {
      var prefix := extras[..n];
      var i :| 0 <= i < |extras| && extras[i].key == k;
      assert prefix[i].key == k;
      j := LastExtra(prefix, k);
      assert extras[j] == prefix[j];
      forall l | j < l < |extras| ensures extras[l].key != extras[j].key {
        if l < n { assert extras[l] == prefix[l]; }
      }
    }
  }

  /** The pool holds, under each of its keys, the last extra with that key. */
  lemma {:induction false} PoolHoldsLast(extras: seq<FieldValue>, k: string, fv: FieldValue)
    requires Get(Collect(extras), k) == Some(fv)
    ensures fv.key == k && IsLastExtra(extras, fv)
  {
    GetSome(Collect(extras), k);
    var j := LastExtra(extras, k);
    CollectKeepsLast(extras, j);
  }

  /** No key is bound twice exactly when no hole repeats an earlier hole's key. */
  lemma {:induction false} DistinctKeysPrefixes(fvs: seq<FieldValue>)
    ensures DistinctKeys(fvs) <==> forall i :: 0 <= i < |fvs| ==> fvs[i].key !in KeysOf(fvs[..i])
  {
    if DistinctKeys(fvs) {
      forall i | 0 <= i < |fvs| ensures fvs[i].key !in KeysOf(fvs[..i]) {
        forall l | 0 <= l < i ensures fvs[..i][l].key != fvs[i].key {
          assert KeyOf(fvs, l) != KeyOf(fvs, i);
        }
      }
    }
    if forall i :: 0 <= i < |fvs| ==> fvs[i].key !in KeysOf(fvs[..i]) {
      forall l, i | 0 <= l < i < |fvs| ensures KeyOf(fvs, l) != KeyOf(fvs, i) {
        assert fvs[..i][l].key in KeysOf(fvs[..i]);
      }
    }
  }

  /** Hole `i` goes through exactly when no earlier hole has its key and it is bare if an extra has its key. */
  lemma {:induction false} HoleGoesThrough(holes: seq<FieldValue>, extras: seq<FieldValue>, i: nat)
    requires i < |holes|
    ensures HolePanic(holes, Collect(extras), i) == None <==>
            holes[i].key !in KeysOf(holes[..i]) && (holes[i].key in KeysOf(extras) ==> IsBare(holes[i]))
  {
  }

  /**
   * The expansion succeeds exactly when no two holes share a key and every hole
   * whose key is also an extra's is a bare identifier naming it.
   */
  lemma {:induction false} ExpandSucceedsIff(holes: seq<FieldValue>, extras: seq<FieldValue>, before: seq<FieldValue>)
    ensures Expand(holes, extras, before).Success? <==> DistinctKeys(holes) && ClaimsAreBare(holes, extras)
  {
    var pool := Collect(extras);
    DistinctKeysPrefixes(holes);
    forall i | 0 <= i < |holes|
      ensures HolePanic(holes, pool, i) == None <==>
              holes[i].key !in KeysOf(holes[..i]) && (holes[i].key in KeysOf(extras) ==> IsBare(holes[i]))
    {
      HoleGoesThrough(holes, extras, i);
    }
  }

  /** When no hole fails, no two rendered field-values share a key. */
  lemma {:induction false} RenderedDistinct(holes: seq<FieldValue>, pool0: Entries<FieldValue>)
    requires Keyed(pool0) && Ascending(pool0) && FirstPanic(holes, pool0, 0).None?
    ensures DistinctKeys(Rendered(holes, pool0))
    ensures |Rendered(holes, pool0)| == |holes| + |Remaining(holes, pool0)|
  {
    var fields := Rendered(holes, pool0);
    RenderedPrefix(holes, pool0, |holes|);
    RemainingTail(holes, pool0);
    forall i, j | 0 <= i < j < |fields| ensures KeyOf(fields, i) != KeyOf(fields, j) {
      if j < |holes| {
        assert HolePanic(holes, pool0, j) == None;
        assert holes[..j][i].key == fields[i].key;
      } else {
        TailAt(fields, |holes|, Remaining(holes, pool0), j - |holes|, j);
        assert fields[..j][i].key == fields[i].key;
      }
    }
  }

  /** A sequence without repeats holds each of its elements once. */
  lemma {:induction false} OnceEach(s: seq<nat>, x: nat)
    requires forall i, j :: 0 <= i < j < |s| ==> s[i] != s[j]
    ensures multiset(s)[x] == if x in s then 1 else 0
  {
    if |s| != 0 {
      var n := |s| - 1;
      assert s == s[..n] + [s[n]];
      OnceEach(s[..n], x);
      assert x in s <==> x in s[..n] || x == s[n];
    }
  }

  /** Two sequences without repeats and with the same elements are permutations of each other. */
  lemma {:induction false} SameElements(s: seq<nat>, r: seq<nat>)
    requires forall i, j :: 0 <= i < j < |s| ==> s[i] != s[j]
    requires forall i, j :: 0 <= i < j < |r| ==> r[i] != r[j]
    requires forall x :: x in s <==> x in r
    ensures multiset(s) == multiset(r)
  {
    forall x ensures multiset(s)[x] == multiset(r)[x] {
      OnceEach(s, x);
      OnceEach(r, x);
    }
  }

  /** With distinct keys, a key picks out one position. */
  lemma {:induction false} SameKeySamePosition(fields: seq<FieldValue>, a: nat, b: nat)
    requires DistinctKeys(fields) && a < |fields| && b < |fields| && fields[a].key == fields[b].key
    ensures a == b
  {
    if a < b {
      DistinctAt(fields, a, b);
      assert false;
    } else if b < a {
      DistinctAt(fields, b, a);
      assert false;
    }
  }

  lemma {:induction false} DistinctAt(fields: seq<FieldValue>, a: nat, b: nat)
    requires DistinctKeys(fields) && a < b < |fields|
    ensures fields[a].key != fields[b].key
  {
    assert KeyOf(fields, a) != KeyOf(fields, b);
  }

  /** With distinct keys, the sorted view holds each position once. */
  lemma {:induction false} SortedBindingsDistinct(fields: seq<FieldValue>, vs: seq<nat>)
    requires DistinctKeys(fields) && vs == Values(SortedView(fields))
    ensures forall i, j :: 0 <= i < j < |vs| ==> vs[i] != vs[j]
  {
    var view := SortedView(fields);
    AscendingDistinct(view);
    SortedViewPointsIntoFields(fields);
    forall i, j | 0 <= i < j < |vs| ensures vs[i] != vs[j] {
      assert view[i].0 != view[j].0;
    }
  }

  /** With distinct keys, the sorted view holds every position. */
  lemma {:induction false} SortedBindingsCover(fields: seq<FieldValue>, x: nat)
    requires DistinctKeys(fields) && x < |fields|
    ensures x in Values(SortedView(fields))
  {
    var view := SortedView(fields);
    SortedViewPointsIntoFields(fields);
    assert KeyOf(fields, x) in KeySet(view);
    var j :| 0 <= j < |view| && view[j].0 == fields[x].key;
    SameKeySamePosition(fields, view[j].1, x);
    assert Values(view)[j] == x;
  }

  /**
   * With distinct keys, the bindings of the sorted view are the rendering-order
   * bindings `0..n` rearranged: one per field, each field's exactly once.
   */
  lemma {:induction false} SortedBindingsPermute(fields: seq<FieldValue>)
    requires DistinctKeys(fields)
    ensures multiset(Values(SortedView(fields))) == multiset(Range(|fields|))
  {
    var view := SortedView(fields);
    var vs := Values(view);
    var r := Range(|fields|);
    SortedViewPointsIntoFields(fields);
    SortedBindingsDistinct(fields, vs);
    forall x ensures x in vs <==> x in r {
      if x in vs {
        var j :| 0 <= j < |vs| && vs[j] == x;
        assert view[j].1 == x && x < |fields|;
        assert r[x] == x;
      }
      if x in r {
        SortedBindingsCover(fields, x);
      }
    }
    SameElements(vs, r);
  }

  /** When the expansion succeeds, its value is read off the rendered field-values. */
  lemma {:induction false} ExpandValue(holes: seq<FieldValue>, extras: seq<FieldValue>, before: seq<FieldValue>)
    requires Expand(holes, extras, before).Success?
    ensures FirstPanic(holes, Collect(extras), 0).None?
    ensures var fields := Rendered(holes, Collect(extras));
            var view := SortedView(fields);
            Expand(holes, extras, before).value ==
            Expansion(Hoisted(fields), Range(|fields|), Keys(view), Values(view), Range(|view|), Target(before))
  {
  }

  /**
   * A successful expansion binds the `i`-th captured field-value to `__tmp{i}`;
   * every capture carries no attributes, its attributes being hoisted in front of
   * it; no two captures share a key; and there is one sorted key and one accessor
   * per capture, the accessors being `0..n`.
   */
  lemma {:induction false} ExpandShape(holes: seq<FieldValue>, extras: seq<FieldValue>, before: seq<FieldValue>)
    requires Expand(holes, extras, before).Success?
    ensures var e := Expand(holes, extras, before).value;
            var n := |e.captures|;
            && |e.bindings| == n && (forall i :: 0 <= i < n ==> e.bindings[i] == i)
            && (forall i :: 0 <= i < n ==> e.captures[i].field.attrs == [])
            && (forall i, j :: 0 <= i < j < n ==> e.captures[i].field.key != e.captures[j].field.key)
            && |e.sortedKeys| == n && |e.sortedBindings| == n
            && |e.accessors| == n && (forall j :: 0 <= j < n ==> e.accessors[j] == j)
            && e.target == Target(before)
  {
    var pool := Collect(extras);
    ExpandValue(holes, extras, before);
    var fields := Rendered(holes, pool);
    RenderedDistinct(holes, pool);
    SortedViewLength(fields);
    var e := Expand(holes, extras, before).value;
    forall i, j | 0 <= i < j < |e.captures| ensures e.captures[i].field.key != e.captures[j].field.key {
      assert KeyOf(fields, i) != KeyOf(fields, j);
    }
  }

  /**
   * The sorted views of a successful expansion: the keys strictly ascending and
   * exactly the keys of the holes and the extras; entry `j` of the sorted bindings
   * is the binding of the capture with sorted key `j`; and the sorted bindings are
   * a permutation of the rendering-order bindings.
   */
  lemma {:induction false} SortedViews(holes: seq<FieldValue>, extras: seq<FieldValue>, before: seq<FieldValue>)
    requires Expand(holes, extras, before).Success?
    ensures var e := Expand(holes, extras, before).value;
            && |e.sortedKeys| == |e.sortedBindings|
            && (forall i, j :: 0 <= i < j < |e.sortedKeys| ==> Less(e.sortedKeys[i], e.sortedKeys[j]))
            && (forall k :: k in e.sortedKeys <==> k in KeysOf(holes) || k in KeysOf(extras))
            && (forall j :: 0 <= j < |e.sortedBindings| ==>
                  e.sortedBindings[j] < |e.captures| &&
                  e.captures[e.sortedBindings[j]].field.key == e.sortedKeys[j])
            && multiset(e.sortedBindings) == multiset(e.bindings)
  {
    var pool := Collect(extras);
    ExpandValue(holes, extras, before);
    var fields := Rendered(holes, pool);
    var view := SortedView(fields);
    var e := Expand(holes, extras, before).value;
    RenderedDistinct(holes, pool);
    SortedBindingsPermute(fields);
    SortedViewPointsIntoFields(fields);
    RenderedKeySet(holes, pool);
    SortedKeysOf(fields, view, e.sortedKeys, KeysOf(holes) + KeysOf(extras));
    SortedBindingsOf(fields, view, e.captures, e.sortedBindings, e.sortedKeys);
  }

  /** The keys read off an ascending sorted view are strictly ascending and are its key set. */
  lemma {:induction false} SortedKeysOf(fields: seq<FieldValue>, view: Entries<nat>, keys: seq<string>, ks: set<string>)
    requires view == SortedView(fields) && keys == Keys(view) && ks == KeysOf(fields)
    ensures forall i, j :: 0 <= i < j < |keys| ==> Less(keys[i], keys[j])
    ensures forall k :: k in keys <==> k in ks
  {
    forall i, j | 0 <= i < j < |keys| ensures Less(keys[i], keys[j]) {
      assert Less(KeyAt(view, i), KeyAt(view, j));
    }
    forall k ensures k in keys <==> k in ks {
      if k in keys {
        var j :| 0 <= j < |view| && keys[j] == k;
        assert view[j].0 in KeySet(view);
      }
      if k in KeysOf(fields) {
        var j :| 0 <= j < |view| && view[j].0 == k;
        assert keys[j] == k;
      }
    }
  }

  /** Sorted binding `j` names the capture whose key is sorted key `j`. */
  lemma {:induction false} SortedBindingsOf(fields: seq<FieldValue>, view: Entries<nat>, captures: seq<Capture>,
                                            bindings: seq<nat>, keys: seq<string>)
    requires view == SortedView(fields) && captures == Hoisted(fields)
    requires bindings == Values(view) && keys == Keys(view)
    ensures |bindings| == |keys|
    ensures forall j :: 0 <= j < |bindings| ==> bindings[j] < |captures| && captures[bindings[j]].field.key == keys[j]
  {
    SortedViewPointsIntoFields(fields);
    forall j | 0 <= j < |bindings| ensures bindings[j] < |captures| && captures[bindings[j]].field.key == keys[j] {
      assert captures[view[j].1] == Hoist(fields[view[j].1]);
    }
  }

  /** The rendered field-values have the keys of the holes and of the extras. */
  lemma {:induction false} RenderedKeySet(holes: seq<FieldValue>, pool0: Entries<FieldValue>)
    requires Keyed(pool0)
    ensures KeysOf(Rendered(holes, pool0)) == KeysOf(holes) + KeySet(pool0)
  {
    RenderedKeysWithin(holes, pool0);
    RenderedKeysCover(holes, pool0);
  }

  lemma {:induction false} RenderedKeysWithin(holes: seq<FieldValue>, pool0: Entries<FieldValue>)
    requires Keyed(pool0)
    ensures KeysOf(Rendered(holes, pool0)) <= KeysOf(holes) + KeySet(pool0)
  {
    var fields := Rendered(holes, pool0);
    RenderedPrefix(holes, pool0, |holes|);
    forall k | k in KeysOf(fields) ensures k in KeysOf(holes) + KeySet(pool0) {
      var i :| 0 <= i < |fields| && fields[i].key == k;
      if i < |holes| {
        assert holes[i].key == k;
      } else {
        var t := i - |holes|;
        RenderedTailAt(holes, pool0, t, i);
      }
    }
  }

  lemma {:induction false} RenderedKeysCover(holes: seq<FieldValue>, pool0: Entries<FieldValue>)
    requires Keyed(pool0)
    ensures KeysOf(holes) + KeySet(pool0) <= KeysOf(Rendered(holes, pool0))
  {
    var fields := Rendered(holes, pool0);
    var rest := Remaining(holes, pool0);
    RenderedPrefix(holes, pool0, |holes|);
    forall k | k in KeysOf(holes) ensures k in KeysOf(fields) {
      var i :| 0 <= i < |holes| && holes[i].key == k;
      assert fields[i].key == k;
    }
    forall k | k in KeySet(pool0) && k !in KeysOf(holes) ensures k in KeysOf(fields) {
      assert k in KeySet(rest);
      var t :| 0 <= t < |rest| && rest[t].0 == k;
      var i := |holes| + t;
      RenderedTailAt(holes, pool0, t, i);
    }
  }

  /** Rendered field-value `|holes| + t` is the `t`-th entry left in the pool. */
  lemma {:induction false} RenderedTailAt(holes: seq<FieldValue>, pool0: Entries<FieldValue>, t: nat, i: nat)
    requires Keyed(pool0) && t < |Remaining(holes, pool0)| && i == |holes| + t
    ensures var rest := Remaining(holes, pool0);
            && i < |Rendered(holes, pool0)|
            && Rendered(holes, pool0)[i] == rest[t].1
            && rest[t].1.key == rest[t].0
            && rest[t].0 in KeySet(pool0) - KeysOf(holes)
  {
    var rest := Remaining(holes, pool0);
    KeyedWithout(pool0, KeysOf(holes));
    assert rest[t].0 in KeySet(rest);
  }

  /**
   * The first captures of a successful expansion are the holes, in template
   * order: a hole whose key is an extra's is replaced by the last extra with that
   * key, any other hole is captured as itself.
   */
  lemma {:induction false} HolesFirst(holes: seq<FieldValue>, extras: seq<FieldValue>, before: seq<FieldValue>)
    requires Expand(holes, extras, before).Success?
    ensures var e := Expand(holes, extras, before).value;
            && |holes| <= |e.captures|
            && forall i :: 0 <= i < |holes| ==>
                 && e.captures[i].field.key == holes[i].key
                 && (holes[i].key in KeysOf(extras) ==> IsLastExtra(extras, Restored(e.captures[i])))
                 && (holes[i].key !in KeysOf(extras) ==> Restored(e.captures[i]) == holes[i])
  {
    var pool := Collect(extras);
    ExpandValue(holes, extras, before);
    var fields := Rendered(holes, pool);
    var e := Expand(holes, extras, before).value;
    RenderedPrefix(holes, pool, |holes|);
    forall i | 0 <= i < |holes| && holes[i].key in KeysOf(extras)
      ensures IsLastExtra(extras, Restored(e.captures[i]))
    {
      assert e.captures[i] == Hoist(fields[i]);
      PoolHoldsLast(extras, holes[i].key, fields[i]);
    }
    forall i | 0 <= i < |holes| ensures e.captures[i].field.key == holes[i].key {
      assert e.captures[i] == Hoist(fields[i]);
    }
  }

  /** An ascending map has as many keys as entries. */
  lemma {:induction false} KeySetSize<V>(m: Entries<V>)
    requires Ascending(m)
    ensures |KeySet(m)| == |m|
  {
    if |m| != 0 {
      HeadBelowTail(m);
      KeySetPrepend(m[0], m[1..]);
      assert [m[0]] + m[1..] == m;
      LessIrreflexive(m[0].0);
      KeySetSize(m[1..]);
    }
  }

  /** Position `t` after the holes renders the `t`-th unclaimed extra: the last extra with its key. */
  lemma {:induction false} ExtraAt(holes: seq<FieldValue>, extras: seq<FieldValue>, t: nat, i: nat)
    requires t < |Remaining(holes, Collect(extras))| && i == |holes| + t
    ensures var fields := Rendered(holes, Collect(extras));
            && i < |fields|
            && fields[i].key in KeysOf(extras) - KeysOf(holes)
            && IsLastExtra(extras, fields[i])
  {
    var pool := Collect(extras);
    var rest := Remaining(holes, pool);
    RenderedTailAt(holes, pool, t, i);
    KeyedWithout(pool, KeysOf(holes));
    GetAt(rest, t);
    PoolHoldsLast(extras, rest[t].0, rest[t].1);
  }

  /** The unclaimed extras are rendered in strictly ascending key order. */
  lemma {:induction false} ExtrasAscending(holes: seq<FieldValue>, extras: seq<FieldValue>, i: nat, j: nat)
    requires |holes| <= i < j < |Rendered(holes, Collect(extras))|
    ensures var fields := Rendered(holes, Collect(extras));
            Less(fields[i].key, fields[j].key)
  {
    var pool := Collect(extras);
    var rest := Remaining(holes, pool);
    var s, t := i - |holes|, j - |holes|;
    RenderedTailAt(holes, pool, s, i);
    RenderedTailAt(holes, pool, t, j);
    assert Less(KeyAt(rest, s), KeyAt(rest, t));
  }

  /** Every unclaimed key is rendered after the holes. */
  lemma {:induction false} ExtrasCover(holes: seq<FieldValue>, extras: seq<FieldValue>, k: string) returns (i: nat)
    requires k in KeysOf(extras) - KeysOf(holes)
    ensures var fields := Rendered(holes, Collect(extras));
            |holes| <= i < |fields| && fields[i].key == k
  {
    var pool := Collect(extras);
    var rest := Remaining(holes, pool);
    var fields := Rendered(holes, pool);
    KeyedWithout(pool, KeysOf(holes));
    assert k in KeySet(rest);
    var t :| 0 <= t < |rest| && rest[t].0 == k;
    i := |holes| + t;
    assert fields[i] == rest[t].1;
  }

  /** As many extras are rendered after the holes as there are unclaimed keys. */
  lemma {:induction false} ExtrasCount(holes: seq<FieldValue>, extras: seq<FieldValue>)
    ensures |Rendered(holes, Collect(extras))| == |holes| + |KeysOf(extras) - KeysOf(holes)|
  {
    var rest := Remaining(holes, Collect(extras));
    KeySetSize(rest);
  }

  /**
   * After the holes come the extras no hole claimed, each the last extra with its
   * key, in strictly ascending key order, every unclaimed key once.
   */
  lemma {:induction false} ExtrasAfter(holes: seq<FieldValue>, extras: seq<FieldValue>, before: seq<FieldValue>)
    requires Expand(holes, extras, before).Success?
    ensures var e := Expand(holes, extras, before).value;
            var unclaimed := KeysOf(extras) - KeysOf(holes);
            && |e.captures| == |holes| + |unclaimed|
            && (forall i :: |holes| <= i < |e.captures| ==>
                  e.captures[i].field.key in unclaimed && IsLastExtra(extras, Restored(e.captures[i])))
            && (forall i, j :: |holes| <= i < j < |e.captures| ==>
                  Less(e.captures[i].field.key, e.captures[j].field.key))
            && (forall k :: k in unclaimed ==>
                  exists i :: |holes| <= i < |e.captures| && e.captures[i].field.key == k)
  {
    var pool := Collect(extras);
    ExpandValue(holes, extras, before);
    var fields := Rendered(holes, pool);
    var e := Expand(holes, extras, before).value;
    assert e.captures == Hoisted(fields);
    ExtrasCount(holes, extras);
    forall i | |holes| <= i < |e.captures|
      ensures e.captures[i].field.key in KeysOf(extras) - KeysOf(holes)
      ensures IsLastExtra(extras, Restored(e.captures[i]))
    {
      ExtraAt(holes, extras, i - |holes|, i);
      assert e.captures[i] == Hoist(fields[i]);
    }
    forall i, j | |holes| <= i < j < |e.captures| ensures Less(e.captures[i].field.key, e.captures[j].field.key) {
      ExtrasAscending(holes, extras, i, j);
      assert e.captures[i] == Hoist(fields[i]) && e.captures[j] == Hoist(fields[j]);
    }
    forall k | k in KeysOf(extras) - KeysOf(holes)
      ensures exists i :: |holes| <= i < |e.captures| && e.captures[i].field.key == k
    {
      var i := ExtrasCover(holes, extras, k);
      assert e.captures[i] == Hoist(fields[i]);
    }
  }
}
