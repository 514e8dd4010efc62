/**
 * The two cases of the `expand_emit` test, on the structured output: the
 * template `"Text and {b: 17} and {a} and {#[with_debug] c} and {d: ...}"` with no
 * extras, and `"Text and {a}", a: 42`.
 */
module Golden {
  import opened Base
  import opened SortedMap
  import opened Emit
  import opened LexOrder
  import opened Steps
  import opened Properties

  function HoleB(): FieldValue { FieldValue("b", Other("17"), []) }
  function HoleA(): FieldValue { FieldValue("a", Path(["a"]), []) }
  function HoleC(): FieldValue { FieldValue("c", Path(["c"]), ["with_debug"]) }
  function HoleD(): FieldValue { FieldValue("d", Other("String::from(\"short lived\")"), []) }

  function FourHoleList(): seq<FieldValue> { [HoleB(), HoleA(), HoleC(), HoleD()] }

  /** Without extras, the holes are rendered as themselves. */
  lemma {:induction false} NoExtras(holes: seq<FieldValue>)
    ensures Collect([]) == [] && Rendered(holes, []) == holes
  {
    assert KeySet<FieldValue>([]) == {};
    forall i | 0 <= i < |holes| ensures Rendered(holes, [])[i] == holes[i] {
      assert Source(holes[i], []) == holes[i];
    }
  }

  /** A key below every key of a map goes in front. */
  lemma {:induction false} InsertBelow<V>(m: Entries<V>, k: string, v: V)
    requires Ascending(m) && |m| != 0 && Less(k, m[0].0)
    ensures Insert(m, k, v) == [(k, v)] + m
  {
    LessIrreflexive(k);
  }

  /** A key above every key of a map goes at the back. */
  lemma {:induction false} InsertAbove<V>(m: Entries<V>, k: string, v: V)
    requires Ascending(m) && |m| != 0 && Less(m[|m| - 1].0, k)
    ensures Insert(m, k, v) == m + [(k, v)]
  {
    var n := |m| - 1;
    if n != 0 {
      assert Less(KeyAt(m, 0), KeyAt(m, n));
      LessTransitive(m[0].0, m[n].0, k);
    }
    LessIrreflexive(k);
    LessAsymmetric(m[0].0, k);
    if n == 0 {
      assert Insert(m[1..], k, v) == [(k, v)];
    } else {
      HeadBelowTail(m);
      InsertAbove(m[1..], k, v);
    }
    assert [m[0]] + (m[1..] + [(k, v)]) == m + [(k, v)];
  }

  /** Field `n`, keyed above every key so far, goes at the back of the sorted view. */
  lemma {:induction false} SortedAtBack(fields: seq<FieldValue>, n: nat, view: Entries<nat>)
    requires n < |fields| && SortedView(fields[..n]) == view && |view| != 0 && Less(view[|view| - 1].0, fields[n].key)
    ensures SortedView(fields[..n + 1]) == view + [(fields[n].key, n)]
  {
    SortedViewSnoc(fields, n);
    InsertAbove(view, fields[n].key, n);
  }

  lemma {:induction false} FourHolesSorted(fields: seq<FieldValue>)
    requires |fields| == 4
    requires fields[0].key == "b" && fields[1].key == "a" && fields[2].key == "c" && fields[3].key == "d"
    ensures SortedView(fields) == [("a", 1), ("b", 0), ("c", 2), ("d", 3)]
  {
    assert fields[..0] == [];
    SortedViewSnoc(fields, 0);
    assert SortedView(fields[..1]) == [("b", 0)];
    SortedViewSnoc(fields, 1);
    assert Less("a", "b");
    InsertBelow(SortedView(fields[..1]), "a", 1);
    assert Less("b", "c");
    SortedAtBack(fields, 2, [("a", 1), ("b", 0)]);
    assert Less("c", "d");
    SortedAtBack(fields, 3, [("a", 1), ("b", 0), ("c", 2)]);
    assert fields[..4] == fields;
  }

  /** The expected expansion of the first case. */
  function FourHolesExpansion(): Expansion
  {
    Expansion(
      [Capture([], HoleB()), Capture([], HoleA()), Capture(["with_debug"], HoleC().(attrs := [])), Capture([], HoleD())],
      [0, 1, 2, 3],
      ["a", "b", "c", "d"],
      [1, 0, 2, 3],
      [0, 1, 2, 3],
      None)
  }

  lemma {:induction false} FourKeysDistinct(holes: seq<FieldValue>)
    requires |holes| == 4
    requires holes[0].key == "b" && holes[1].key == "a" && holes[2].key == "c" && holes[3].key == "d"
    ensures DistinctKeys(holes)
  {
    forall i, j | 0 <= i < j < 4 ensures KeyOf(holes, i) != KeyOf(holes, j) {
      assert KeyOf(holes, i) == ["b", "a", "c", "d"][i] && KeyOf(holes, j) == ["b", "a", "c", "d"][j];
    }
  }

  lemma {:induction false} FourHolesOf(holes: seq<FieldValue>)
    requires |holes| == 4 && holes[0] == HoleB() && holes[1] == HoleA() && holes[2] == HoleC() && holes[3] == HoleD()
    ensures Expand(holes, [], []) == Success(FourHolesExpansion())
  {
    FourKeysDistinct(holes);
    ExpandSucceedsIff(holes, [], []);
    ExpandValue(holes, [], []);
    NoExtras(holes);
    FourHolesSorted(holes);
    FourHolesViews(SortedView(holes));
    FourHolesCaptures(holes);
  }

  lemma {:induction false} FourHolesCaptures(holes: seq<FieldValue>)
    requires |holes| == 4 && holes[0] == HoleB() && holes[1] == HoleA() && holes[2] == HoleC() && holes[3] == HoleD()
    ensures Hoisted(holes) == FourHolesExpansion().captures
  {
  }

  lemma {:induction false} FourHolesViews(view: Entries<nat>)
    requires view == [("a", 1), ("b", 0), ("c", 2), ("d", 3)]
    ensures Keys(view) == ["a", "b", "c", "d"] && Values(view) == [1, 0, 2, 3] && Range(|view|) == [0, 1, 2, 3]
  {
  }

  /**
   * Four holes rendered `b, a, c, d`: bound to `__tmp0 .. __tmp3` in that order,
   * `c`'s attribute hoisted in front of its capture, the keys sorted to
   * `a, b, c, d` with bindings `__tmp1, __tmp0, __tmp2, __tmp3`, and no target.
   */
  lemma {:induction false} FourHoles()
    ensures Expand(FourHoleList(), [], []) == Success(FourHolesExpansion())
  {
    FourHolesOf(FourHoleList());
  }

  /** A single extra makes a pool of one entry. */
  lemma {:induction false} CollectOne(extras: seq<FieldValue>)
    requires |extras| == 1
    ensures Collect(extras) == [(extras[0].key, extras[0])]
  {
    assert extras[..0] == [];
  }

  lemma {:induction false} ClaimedHoleOf(holes: seq<FieldValue>, extras: seq<FieldValue>, before: seq<FieldValue>)
    requires |holes| == 1 && holes[0] == HoleA() && |extras| == 1 && extras[0] == FieldValue("a", Other("42"), [])
    ensures Expand(holes, extras, before) ==
            Success(Expansion([Capture([], extras[0])], [0], ["a"], [0], [0], Target(before)))
  {
    var extra := extras[0];
    CollectOne(extras);
    var pool := Collect(extras);
    assert KeyOf(holes, 0) == "a";
    assert IsBare(holes[0]);
    ExpandSucceedsIff(holes, extras, before);
    assert Expand(holes, extras, before).Success?;
    ExpandValue(holes, extras, before);
    OneClaimed(holes, pool);
    var fields := Rendered(holes, pool);
    assert fields[..0] == [] && fields[..1] == fields;
    SortedViewSnoc(fields, 0);
    var view := SortedView(fields);
    assert view == [("a", 0)];
    assert Keys(view) == ["a"] && Values(view) == [0] && Range(1) == [0];
    assert Hoisted(fields) == [Capture([], extra)];
  }

  /** The hole `{a}` against the pool holding only an extra for `a` renders that extra alone. */
  lemma {:induction false} OneClaimed(holes: seq<FieldValue>, pool: Entries<FieldValue>)
    requires |holes| == 1 && holes[0].key == "a" && |pool| == 1 && pool[0].0 == "a" && pool[0].1.key == "a"
    ensures Keyed(pool) && Rendered(holes, pool) == [pool[0].1]
  {
    assert KeySet(pool) == {"a"};
    assert KeysOf(holes) == {"a"};
    assert Without(pool[1..], {"a"}) == [];
    assert Without(pool, {"a"}) == [];
  }

  /**
   * One bare hole `{a}` claimed by the extra `a: 42`: the extra is captured in
   * the hole's place under `__tmp0`, and it is the only key.
   */
  lemma {:induction false} ClaimedHole(before: seq<FieldValue>)
    ensures var extra := FieldValue("a", Other("42"), []);
            Expand([HoleA()], [extra], before) ==
            Success(Expansion([Capture([], extra)], [0], ["a"], [0], [0], Target(before)))
  {
    ClaimedHoleOf([HoleA()], [FieldValue("a", Other("42"), [])], before);
  }
}
