/**
 * Rust's `BTreeMap<String, V>`, seen through the operations `expand_tokens` uses:
 * `insert` (which hands back the previous value), `get`, `remove`, `len`, and
 * iteration over keys, values and entries in ascending key order. A map is the
 * sequence of its entries in that order, so iteration order is part of the value.
 */
module SortedMap {
  import opened Base
  import opened LexOrder

  type Entries<V> = seq<(string, V)>

  /** The key of entry `i`; the ordering facts below are stated over it alone, so
      that they are only brought to bear where a proof names the entries it needs. */
  function KeyAt<V>(m: Entries<V>, i: nat): string
    requires i < |m|
  {
    m[i].0
  }

  /** Keys strictly ascending: the shape of every map `BTreeMap` can hold. */
  ghost predicate Ascending<V>(m: Entries<V>)
  {
    forall i, j :: 0 <= i < j < |m| ==> Less(KeyAt(m, i), KeyAt(m, j))
  }

  function KeySet<V>(m: Entries<V>): set<string>
  {
    set i | 0 <= i < |m| :: m[i].0
  }

  /** `keys()`: the keys in iteration order. */
  function Keys<V>(m: Entries<V>): seq<string>
  {
    seq(|m|, i requires 0 <= i < |m| => m[i].0)
  }

  /** `values()`: the values in iteration order. */
  function Values<V>(m: Entries<V>): seq<V>
  {
    seq(|m|, i requires 0 <= i < |m| => m[i].1)
  }

  lemma {:induction false} KeySetPrepend<V>(x: (string, V), m: Entries<V>)
    ensures KeySet([x] + m) == {x.0} + KeySet(m)
  {
    var r := [x] + m;
    forall y | y in KeySet(r) ensures y in {x.0} + KeySet(m) {
      var i :| 0 <= i < |r| && r[i].0 == y;
      if i > 0 { assert m[i - 1].0 == y; }
    }
    forall y | y in KeySet(m) ensures y in KeySet(r) {
      var i :| 0 <= i < |m| && m[i].0 == y;
      assert r[i + 1].0 == y;
    }
    assert r[0].0 == x.0;
  }

  /** Every key after the first is above it. */
  lemma {:induction false} HeadBelowTail<V>(m: Entries<V>)
    requires Ascending(m) && |m| != 0
    ensures Ascending(m[1..])
    ensures forall y :: y in KeySet(m[1..]) ==> Less(m[0].0, y)
  {
    forall i, j | 0 <= i < j < |m[1..]| ensures Less(KeyAt(m[1..], i), KeyAt(m[1..], j)) {
      assert KeyAt(m[1..], i) == KeyAt(m, i + 1) && KeyAt(m[1..], j) == KeyAt(m, j + 1);
    }
    forall y | y in KeySet(m[1..]) ensures Less(m[0].0, y) {
      var i :| 0 <= i < |m[1..]| && m[1..][i].0 == y;
      assert KeyAt(m, 0) == m[0].0 && KeyAt(m, i + 1) == y;
    }
  }

  /** Putting an entry below every key in front of an ascending map keeps it ascending. */
  lemma {:induction false} AscendingPrepend<V>(x: (string, V), m: Entries<V>)
    requires Ascending(m)
    requires forall y :: y in KeySet(m) ==> Less(x.0, y)
    ensures Ascending([x] + m)
  {
    var r := [x] + m;
    forall i, j | 0 <= i < j < |r| ensures Less(KeyAt(r, i), KeyAt(r, j)) {
      if i == 0 {
        assert KeyAt(r, j) == m[j - 1].0;
      } else {
        assert KeyAt(r, i) == KeyAt(m, i - 1) && KeyAt(r, j) == KeyAt(m, j - 1);
      }
    }
  }

  /** An ascending map holds each key once. */
  lemma {:induction false} AscendingDistinct<V>(m: Entries<V>)
    requires Ascending(m)
    ensures forall i, j :: 0 <= i < |m| && 0 <= j < |m| && i != j ==> m[i].0 != m[j].0
  {
    forall i, j | 0 <= i < |m| && 0 <= j < |m| && i != j ensures m[i].0 != m[j].0 {
      if i < j {
        assert Less(KeyAt(m, i), KeyAt(m, j));
        LessIrreflexive(m[i].0);
      } else {
        assert Less(KeyAt(m, j), KeyAt(m, i));
        LessIrreflexive(m[j].0);
      }
    }
  }

  /** `get(k)`: the value stored under `k`, if any. */
  function Get<V>(m: Entries<V>, k: string): Option<V>
  {
    if |m| == 0 then None
    else if m[0].0 == k then Some(m[0].1)
    else Get(m[1..], k)
  }

  /** `get(k)` finds something exactly when `k` is a key of the map. */
  lemma {:induction false} GetSome<V>(m: Entries<V>, k: string)
    ensures Get(m, k).Some? <==> k in KeySet(m)
  {
    if |m| != 0 {
      KeySetPrepend(m[0], m[1..]);
      assert [m[0]] + m[1..] == m;
      GetSome(m[1..], k);
    }
  }

  /** What `get` finds is an entry of the map. */
  lemma {:induction false} GetFound<V>(m: Entries<V>, k: string)
    requires Get(m, k).Some?
    ensures (k, Get(m, k).value) in m
  {
    if m[0].0 != k {
      GetFound(m[1..], k);
    }
  }

  /** In an ascending map the entry holding a key is the one `get` finds. */
  lemma {:induction false} GetAt<V>(m: Entries<V>, i: nat)
    requires Ascending(m) && i < |m|
    ensures Get(m, m[i].0) == Some(m[i].1)
  {
    if i > 0 {
      HeadBelowTail(m);
      LessIrreflexive(m[i].0);
      assert m[1..][i - 1] == m[i];
      GetAt(m[1..], i - 1);
    }
  }

  /**
   * `insert(k, v)`: afterwards `k` maps to `v` and every other key is as before;
   * the map grows by one exactly when `k` was absent (`insert` returned `None`).
   */
  function Insert<V>(m: Entries<V>, k: string, v: V): (r: Entries<V>)
    requires Ascending(m)
    ensures Ascending(r)
    ensures KeySet(r) == KeySet(m) + {k}
    ensures |r| == if k in KeySet(m) then |m| else |m| + 1
    ensures Get(r, k) == Some(v)
    ensures forall k' {:trigger Get(r, k')} :: k' != k ==> Get(r, k') == Get(m, k')
  {
    if |m| == 0 then
      KeySetPrepend((k, v), m);
      [(k, v)]
    else
      HeadBelowTail(m);
      KeySetPrepend(m[0], m[1..]);
      assert [m[0]] + m[1..] == m;
      if k == m[0].0 then
        KeySetPrepend((k, v), m[1..]);
        AscendingPrepend((k, v), m[1..]);
        [(k, v)] + m[1..]
      else if Less(k, m[0].0) then
        KeySetPrepend((k, v), m);
        forall y | y in KeySet(m) ensures Less(k, y) {
          if y != m[0].0 { LessTransitive(k, m[0].0, y); }
        }
        LessIrreflexive(k);
        AscendingPrepend((k, v), m);
        [(k, v)] + m
      else
        var rest := Insert(m[1..], k, v);
        LessTotal(k, m[0].0);
        KeySetPrepend(m[0], rest);
        AscendingPrepend(m[0], rest);
        [m[0]] + rest
  }

  /** The map with every key of `ks` removed, order kept; `remove(k)` is `Without(m, {k})`. */
  function Without<V>(m: Entries<V>, ks: set<string>): (r: Entries<V>)
    ensures KeySet(r) == KeySet(m) - ks
    ensures forall k {:trigger Get(r, k)} :: Get(r, k) == if k in ks then None else Get(m, k)
    ensures Ascending(m) ==> Ascending(r)
  {
    if |m| == 0 then []
    else
      KeySetPrepend(m[0], m[1..]);
      assert [m[0]] + m[1..] == m;
      var rest := Without(m[1..], ks);
      if m[0].0 in ks then
        assert Ascending(m) ==> Ascending(m[1..]) by {
          if Ascending(m) { HeadBelowTail(m); }
        }
        rest
      else
        KeySetPrepend(m[0], rest);
        assert Ascending(m) ==> Ascending([m[0]] + rest) by {
          if Ascending(m) {
            HeadBelowTail(m);
            AscendingPrepend(m[0], rest);
          }
        }
        [m[0]] + rest
  }

  /** Looking up any key after an insert. */
  lemma {:induction false} InsertGet<V>(m: Entries<V>, k: string, v: V, k': string)
    requires Ascending(m)
    ensures Get(Insert(m, k, v), k') == if k' == k then Some(v) else Get(m, k')
  {
  }

  /** An entry of `Insert(m, k, v)` is `(k, v)` or an entry of `m`. */
  lemma {:induction false} InsertEntries<V>(m: Entries<V>, k: string, v: V)
    requires Ascending(m)
    ensures forall p :: p in Insert(m, k, v) ==> p in m || p == (k, v)
  {
    if |m| != 0 && k != m[0].0 && !Less(k, m[0].0) {
      HeadBelowTail(m);
      InsertEntries(m[1..], k, v);
    }
  }

  /** Every entry of `Without(m, ks)` is an entry of `m`. */
  lemma {:induction false} WithoutEntries<V>(m: Entries<V>, ks: set<string>)
    ensures forall p :: p in Without(m, ks) ==> p in m
  {
    if |m| != 0 {
      WithoutEntries(m[1..], ks);
    }
  }

  lemma {:induction false} WithoutNothing<V>(m: Entries<V>)
    ensures Without(m, {}) == m
  {
    if |m| != 0 {
      WithoutNothing(m[1..]);
      assert [m[0]] + m[1..] == m;
    }
  }

  /** Removing one set of keys and then another is removing both. */
  lemma {:induction false} WithoutWithout<V>(m: Entries<V>, a: set<string>, b: set<string>)
    ensures Without(Without(m, a), b) == Without(m, a + b)
  {
    if |m| != 0 {
      WithoutWithout(m[1..], a, b);
      if m[0].0 !in a {
        assert ([m[0]] + Without(m[1..], a))[1..] == Without(m[1..], a);
      }
    }
  }
}
