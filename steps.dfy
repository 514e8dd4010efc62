/**
 * `expand_tokens` step by step, as functions: the state the `push_field_value`
 * closure updates, one push, one hole of the template pass, the two passes as
 * folds, and the expansion they build. The folds are proved to compute exactly
 * `Emit.Expand`, which says what the result is without the steps.
 *
 * Proof layout: a successor index that a lemma's contract mentions is passed
 * in as a parameter tied by `requires` (`n1 == n + 1`, `u == t + 1`), so that
 * the solver meets one term for it rather than rewriting `n + 1` in every
 * instance of the folds. Likewise, each one-step unfolding of a fold (hole
 * `i` after the first `i`, extra `t` after the first `t`, the end of both
 * passes) is a lemma of its own, often with an empty body, so that the
 * recursive proofs that chain those steps stay small.
 */
module Steps {
  import opened Base
  import opened SortedMap
  import opened Emit

  /**
   * What the closure captures: `field_values`, `field_bindings`,
   * `sorted_field_bindings` and `field_index`.
   */
  datatype Fields = Fields(values: seq<Capture>, bindings: seq<nat>, sorted: Entries<nat>, index: nat)

  /** One capture, one binding and one sorted entry per field pushed, bound in order. */
  ghost predicate Consistent(s: Fields)
  {
    && |s.values| == s.index
    && s.bindings == Range(s.index)
    && |s.sorted| == s.index
    && Ascending(s.sorted)
  }

  /** The state before anything is pushed. */
  function Start(): (s: Fields)
    ensures Consistent(s) && s.index == 0
  {
    Fields([], [], [], 0)
  }

  /**
   * The state `push_field_value` leaves behind, whether or not it then panics:
   * the capture and the binding are appended and the key is bound to the next
   * index; the index only moves on when the key was not bound before.
   */
  function Pushed(s: Fields, k: string, fv: FieldValue): Fields
    requires Ascending(s.sorted)
  {
    Fields(s.values + [Hoist(fv)], s.bindings + [s.index], Insert(s.sorted, k, s.index),
           if Get(s.sorted, k).Some? then s.index else s.index + 1)
  }

  /**
   * One call of `push_field_value`: it panics exactly when the key is bound
   * already; otherwise the field is captured, bound to the next index, and the
   * state stays consistent with the key now bound to that index.
   */
  function PushField(s: Fields, k: string, fv: FieldValue): (r: Result<Fields, Panic>)
    requires Consistent(s)
    ensures r.Failure? <==> k in KeySet(s.sorted)
    ensures r.Failure? ==> r.error == DuplicateKey
    ensures r.Success? ==> && Consistent(r.value)
                           && r.value.index == s.index + 1
                           && r.value.values == s.values + [Hoist(fv)]
                           && KeySet(r.value.sorted) == KeySet(s.sorted) + {k}
                           && Get(r.value.sorted, k) == Some(s.index)
                           && (forall k' :: k' != k ==> Get(r.value.sorted, k') == Get(s.sorted, k'))
  {
    GetSome(s.sorted, k);
    if Get(s.sorted, k).Some? then Failure(DuplicateKey)
    else
      assert s.bindings + [s.index] == Range(s.index + 1);
      Success(Pushed(s, k, fv))
  }

  /**
   * One iteration of the template pass, given the state and the extra pool: the
   * hole's key is taken out of the pool; an extra found under it must meet a
   * bare hole and is then pushed in its place, otherwise the hole is pushed.
   */
  function TakeHole(s: Fields, pool: Entries<FieldValue>, hole: FieldValue)
    : (r: Result<(Fields, Entries<FieldValue>), Panic>)
    requires Consistent(s)
    ensures r.Success? ==> Consistent(r.value.0)
  {
    var k := hole.key;
    var pushed :=
      match Get(pool, k)
      case Some(extra) => if CheckBare(hole).Some? then Failure(CheckBare(hole).value) else PushField(s, k, extra)
      case None => PushField(s, k, hole);
    match pushed
    case Failure(p) => Failure(p)
    case Success(s') => Success((s', Without(pool, {k})))
  }

  /** The template pass over the first `n` holes, starting from the full pool. */
  function PushHoles(holes: seq<FieldValue>, pool: Entries<FieldValue>, n: nat)
    : (r: Result<(Fields, Entries<FieldValue>), Panic>)
    requires n <= |holes|
    ensures r.Success? ==> Consistent(r.value.0)
  {
    if n == 0 then Success((Start(), pool))
    else
      match PushHoles(holes, pool, n - 1)
      case Failure(p) => Failure(p)
      case Success(st) => TakeHole(st.0, st.1, holes[n - 1])
  }

  /** The pass over the first `n` extras left in the pool, in the pool's (ascending) order. */
  function PushRest(s: Fields, rest: Entries<FieldValue>, n: nat): (r: Result<Fields, Panic>)
    requires Consistent(s) && n <= |rest|
    ensures r.Success? ==> Consistent(r.value)
  {
    if n == 0 then Success(s)
    else
      match PushRest(s, rest, n - 1)
      case Failure(p) => Failure(p)
      case Success(s') => PushField(s', rest[n - 1].0, rest[n - 1].1)
  }

  /** The expansion read off the final state. */
  function Finish(s: Fields, before: seq<FieldValue>): Expansion
  {
    Expansion(s.values, s.bindings, Keys(s.sorted), Values(s.sorted), Range(|s.sorted|), Target(before))
  }

  /** Both passes, then the read-off. */
  function ExpandSteps(holes: seq<FieldValue>, extras: seq<FieldValue>, before: seq<FieldValue>)
    : Result<Expansion, Panic>
  {
    match PushHoles(holes, Collect(extras), |holes|)
    case Failure(p) => Failure(p)
    case Success(st) =>
      match PushRest(st.0, st.1, |st.1|)
      case Failure(p) => Failure(p)
      case Success(s) => Success(Finish(s, before))
  }

  /** The state after the first `n` of `fields` were pushed without a panic. */
  function StateAt(fields: seq<FieldValue>, n: nat): Fields
    requires n <= |fields|
  {
    Fields(Hoisted(fields[..n]), Range(n), SortedView(fields[..n]), n)
  }

  /** The first `i` rendered fields are the holes' sources, with the holes' keys. */
  lemma {:induction false} RenderedPrefix(holes: seq<FieldValue>, pool: Entries<FieldValue>, i: nat)
    requires Keyed(pool) && i <= |holes|
    ensures forall j :: 0 <= j < |holes| ==> Rendered(holes, pool)[j] == Source(holes[j], pool)
    ensures KeysOf(Rendered(holes, pool)[..i]) == KeysOf(holes[..i])
  {
    var fields := Rendered(holes, pool);
    forall j | 0 <= j < i ensures fields[..i][j].key == holes[..i][j].key {
      assert fields[j] == Source(holes[j], pool);
    }
    assert forall k :: k in KeysOf(fields[..i]) ==> k in KeysOf(holes[..i]);
    assert forall k :: k in KeysOf(holes[..i]) ==> k in KeysOf(fields[..i]);
  }

  /** Pushing field `n`, with a key none of the first `n` has, moves the state on by one field. */
  // `n1` stands for `n + 1` (see the module comment)
  lemma {:induction false} PushedOneMore(fields: seq<FieldValue>, n: nat, n1: nat)
    requires n < |fields| && n1 == n + 1 && Consistent(StateAt(fields, n))
    requires fields[n].key !in KeysOf(fields[..n])
    ensures PushField(StateAt(fields, n), fields[n].key, fields[n]) == Success(StateAt(fields, n1))
  {
    HoistedSnoc(fields, n);
    SortedViewSnoc(fields, n);
    RangeSnoc(n);
  }

  lemma {:induction false} HoistedSnoc(fields: seq<FieldValue>, n: nat)
    requires n < |fields|
    ensures Hoisted(fields[..n + 1]) == Hoisted(fields[..n]) + [Hoist(fields[n])]
  {
    assert fields[..n + 1][..n] == fields[..n];
  }

  lemma {:induction false} SortedViewSnoc(fields: seq<FieldValue>, n: nat)
    requires n < |fields|
    ensures SortedView(fields[..n + 1]) == Insert(SortedView(fields[..n]), fields[n].key, n)
  {
    assert fields[..n + 1][..n] == fields[..n];
  }

  lemma {:induction false} RangeSnoc(n: nat)
    ensures Range(n) + [n] == Range(n + 1)
  {
  }

  /**
   * What hole `i` meets when every earlier hole went through: the pool lookup
   * finds the extra it is rendered with, or finds nothing, and then the hole is
   * rendered as itself unless an earlier hole took its key.
   */
  lemma {:induction false} HoleStep(holes: seq<FieldValue>, pool0: Entries<FieldValue>, i: nat)
    requires Keyed(pool0) && Ascending(pool0) && i < |holes|
    ensures var pool := Without(pool0, KeysOf(holes[..i]));
            var k := holes[i].key;
            && (Get(pool, k).Some? ==> HolePanic(holes, pool0, i) == CheckBare(holes[i]) &&
                                        Get(pool, k) == Some(Rendered(holes, pool0)[i]))
            && (Get(pool, k).None? && k !in KeysOf(holes[..i]) ==>
                  HolePanic(holes, pool0, i) == None && Rendered(holes, pool0)[i] == holes[i])
            && (k in KeysOf(holes[..i]) ==> HolePanic(holes, pool0, i) == Some(DuplicateKey))
  {
    RenderedPrefix(holes, pool0, i);
    GetSome(Without(pool0, KeysOf(holes[..i])), holes[i].key);
  }

  /**
   * One iteration of the template pass, from the state after the first `m` holes
   * went through: it fails with the hole's panic, or moves the state on by one
   * field and takes the hole's key out of the pool.
   */
  lemma {:induction false} HoleInvariantStep(holes: seq<FieldValue>, pool0: Entries<FieldValue>, m: nat)
    requires Keyed(pool0) && Ascending(pool0) && m < |holes|
    requires Consistent(StateAt(Rendered(holes, pool0), m))
    ensures TakeHole(StateAt(Rendered(holes, pool0), m), Without(pool0, KeysOf(holes[..m])), holes[m]) ==
            match HolePanic(holes, pool0, m)
            case Some(p) => Failure(p)
            case None => Success((StateAt(Rendered(holes, pool0), m + 1), Without(pool0, KeysOf(holes[..m + 1]))))
  {
    var fields := Rendered(holes, pool0);
    var s := StateAt(fields, m);
    var pool := Without(pool0, KeysOf(holes[..m]));
    var hole := holes[m];
    var k := hole.key;
    var n := m + 1;
    HoleStep(holes, pool0, m);
    RenderedPrefix(holes, pool0, m);
    assert KeySet(s.sorted) == KeysOf(holes[..m]);
    if k in KeysOf(holes[..m]) {
      assert Get(pool, k) == None;
      assert PushField(s, k, hole) == Failure(DuplicateKey);
    } else {
      KeysOfSnoc(holes, m);
      WithoutWithout(pool0, KeysOf(holes[..m]), {k});
      assert Without(pool, {k}) == Without(pool0, KeysOf(holes[..m + 1]));
      if Get(pool, k).Some? {
        if CheckBare(hole).None? {
          PushedOneMore(fields, m, n);
        }
      } else {
        PushedOneMore(fields, m, n);
      }
    }
  }

  /** The template pass: it fails with the first failing hole's panic, or gives the state after all of them. */
  lemma {:induction false} HolesInvariant(holes: seq<FieldValue>, pool0: Entries<FieldValue>, n: nat)
    requires Keyed(pool0) && Ascending(pool0) && n <= |holes|
    ensures var r := PushHoles(holes, pool0, n);
            && (r.Success? <==> forall j :: 0 <= j < n ==> HolePanic(holes, pool0, j) == None)
            && (r.Success? ==> r.value == (StateAt(Rendered(holes, pool0), n), Without(pool0, KeysOf(holes[..n]))))
            && (r.Failure? ==> FirstPanic(holes, pool0, 0) == Some(r.error))
  {
    if n == 0 {
      HolesStart(holes, pool0);
    } else {
      var m := n - 1;
      HolesInvariant(holes, pool0, m);
      match PushHoles(holes, pool0, m)
      case Failure(e) =>
        assert PushHoles(holes, pool0, n) == Failure(e);
      case Success(st) =>
        HoleInvariantStep(holes, pool0, m);
        assert PushHoles(holes, pool0, n) == TakeHole(st.0, st.1, holes[m]);
        match HolePanic(holes, pool0, m)
        case Some(p) =>
          FirstPanicAt(holes, pool0, m);
          assert PushHoles(holes, pool0, n) == Failure(p);
        case None =>
          assert PushHoles(holes, pool0, n) ==
                 Success((StateAt(Rendered(holes, pool0), n), Without(pool0, KeysOf(holes[..n]))));
          NoPanicSnoc(holes, pool0, m);
    }
  }

  /** One more hole without a panic. */
  lemma {:induction false} NoPanicSnoc(holes: seq<FieldValue>, pool: Entries<FieldValue>, m: nat)
    requires m < |holes| && HolePanic(holes, pool, m) == None
    requires forall j :: 0 <= j < m ==> HolePanic(holes, pool, j) == None
    ensures forall j :: 0 <= j < m + 1 ==> HolePanic(holes, pool, j) == None
  {
  }

  /** The first hole that fails decides the panic. */
  lemma {:induction false} FirstPanicAt(holes: seq<FieldValue>, pool: Entries<FieldValue>, m: nat)
    requires m < |holes| && HolePanic(holes, pool, m).Some?
    requires forall j :: 0 <= j < m ==> HolePanic(holes, pool, j) == None
    ensures FirstPanic(holes, pool, 0) == HolePanic(holes, pool, m)
  {
    var i :| 0 <= i < |holes| && HolePanic(holes, pool, i) == FirstPanic(holes, pool, 0) &&
             (forall j :: 0 <= j < i ==> HolePanic(holes, pool, j) == None);
  }

  /** Before the template pass nothing is pushed and the pool is whole. */
  lemma {:induction false} HolesStart(holes: seq<FieldValue>, pool0: Entries<FieldValue>)
    requires Keyed(pool0)
    ensures PushHoles(holes, pool0, 0) == Success((StateAt(Rendered(holes, pool0), 0), Without(pool0, KeysOf(holes[..0]))))
  {
    assert KeysOf(holes[..0]) == {};
    WithoutNothing(pool0);
    assert Hoisted(Rendered(holes, pool0)[..0]) == [];
    assert Range(0) == [];
  }

  /**
   * The `t`-th extra left in the pool is rendered right after the holes and the
   * `t` extras before it, and no field rendered before it has its key.
   */
  lemma {:induction false} RemainingStep(holes: seq<FieldValue>, pool0: Entries<FieldValue>, t: nat)
    requires Keyed(pool0) && Ascending(pool0) && t < |Remaining(holes, pool0)|
    ensures var rest := Remaining(holes, pool0);
            var fields := Rendered(holes, pool0);
            && fields[|holes| + t] == rest[t].1
            && rest[t].1.key == rest[t].0
            && rest[t].0 !in KeysOf(fields[..|holes| + t])
  {
    var rest := Remaining(holes, pool0);
    var fields := Rendered(holes, pool0);
    var k := rest[t].0;
    KeyedWithout(pool0, KeysOf(holes));
    assert k in KeySet(rest);
    AscendingDistinct(rest);
    RenderedPrefix(holes, pool0, |holes|);
    forall j | 0 <= j < |holes| + t ensures fields[j].key != k {
      if j < |holes| {
        assert fields[j].key == holes[j].key;
        assert holes[j].key in KeysOf(holes);
      } else {
        assert fields[j] == rest[j - |holes|].1;
      }
    }
  }

  /**
   * `rest` lists, in order, the fields of `fields` from position `h` on, each under
   * its own key, and none of them repeats the key of a field before it.
   */
  ghost predicate Tail(fields: seq<FieldValue>, h: nat, rest: Entries<FieldValue>)
  {
    && h + |rest| == |fields|
    && forall j :: 0 <= j < |rest| ==>
         && rest[j] == (fields[h + j].key, fields[h + j])
         && fields[h + j].key !in KeysOf(fields[..h + j])
  }

  /** Entry `m` of the tail is field `h + m`, under its own key, which no earlier field has. */
  // `n` stands for `h + m` (see the module comment)
  lemma {:induction false} TailAt(fields: seq<FieldValue>, h: nat, rest: Entries<FieldValue>, m: nat, n: nat)
    requires Tail(fields, h, rest) && m < |rest| && n == h + m
    ensures n < |fields| && rest[m] == (fields[n].key, fields[n]) && fields[n].key !in KeysOf(fields[..n])
  {
  }

  /** The extras the template pass leaves in the pool are the tail of the rendered fields. */
  lemma {:induction false} RemainingTail(holes: seq<FieldValue>, pool0: Entries<FieldValue>)
    requires Keyed(pool0) && Ascending(pool0)
    ensures Tail(Rendered(holes, pool0), |holes|, Remaining(holes, pool0))
  {
    var rest := Remaining(holes, pool0);
    forall t | 0 <= t < |rest|
      ensures rest[t] == (Rendered(holes, pool0)[|holes| + t].key, Rendered(holes, pool0)[|holes| + t])
      ensures Rendered(holes, pool0)[|holes| + t].key !in KeysOf(Rendered(holes, pool0)[..|holes| + t])
    {
      RemainingStep(holes, pool0, t);
    }
  }

  /** The pass over the remaining extras never panics and moves the state on by one field per extra. */
  // `e` stands for `h + t` (see the module comment)
  lemma {:induction false} RestInvariant(fields: seq<FieldValue>, h: nat, rest: Entries<FieldValue>, t: nat, e: nat)
    requires Tail(fields, h, rest) && t <= |rest| && e == h + t
    requires Consistent(StateAt(fields, h))
    ensures PushRest(StateAt(fields, h), rest, t) == Success(StateAt(fields, e))
  {
    if t != 0 {
      var m := t - 1;
      var n := h + m;
      RestInvariant(fields, h, rest, m, n);
      RestStep(fields, h, rest, m, n, t, e);
    }
  }

  /** Extra `m` of the tail moves the pass on from field `n = h + m` to field `e = n + 1`. */
  // `n`, `t` and `e` stand for `h + m`, `m + 1` and `n + 1` (see the module comment)
  lemma {:induction false} RestStep(fields: seq<FieldValue>, h: nat, rest: Entries<FieldValue>, m: nat, n: nat, t: nat, e: nat)
    requires Tail(fields, h, rest) && m < |rest| && n == h + m && t == m + 1 && e == n + 1
    requires Consistent(StateAt(fields, h))
    requires PushRest(StateAt(fields, h), rest, m) == Success(StateAt(fields, n))
    ensures PushRest(StateAt(fields, h), rest, t) == Success(StateAt(fields, e))
  {
    RestUnfold(StateAt(fields, h), rest, m, StateAt(fields, n), t);
    TailAt(fields, h, rest, m, n);
    PushedOneMore(fields, n, e);
  }

  /** When a hole fails, both passes and `Emit.Expand` fail with its panic. */
  lemma {:induction false} StepsMatchExpandOnPanic(holes: seq<FieldValue>, extras: seq<FieldValue>, before: seq<FieldValue>)
    requires FirstPanic(holes, Collect(extras), 0).Some?
    ensures ExpandSteps(holes, extras, before) == Expand(holes, extras, before)
  {
    HolesInvariant(holes, Collect(extras), |holes|);
  }

  /** When no hole fails, the template pass leaves the state after every hole and the unclaimed extras. */
  lemma {:induction false} HolesPass(holes: seq<FieldValue>, pool0: Entries<FieldValue>)
    requires Keyed(pool0) && Ascending(pool0)
    requires FirstPanic(holes, pool0, 0).None?
    ensures PushHoles(holes, pool0, |holes|) == Success((StateAt(Rendered(holes, pool0), |holes|), Remaining(holes, pool0)))
  {
    HolesInvariant(holes, pool0, |holes|);
    assert holes[..|holes|] == holes;
  }

  /** The state after every rendered field, read off, is the expansion `Emit.Expand` describes. */
  lemma {:induction false} FinishAll(holes: seq<FieldValue>, pool0: Entries<FieldValue>, before: seq<FieldValue>)
    requires Keyed(pool0)
    ensures var fields := Rendered(holes, pool0);
            var view := SortedView(fields);
            Finish(StateAt(fields, |fields|), before) ==
            Expansion(Hoisted(fields), Range(|fields|), Keys(view), Values(view), Range(|view|), Target(before))
  {
    var fields := Rendered(holes, pool0);
    assert fields[..|fields|] == fields;
  }

  /** When no hole fails, both passes go through and leave the state after every rendered field. */
  lemma {:induction false} PassesGoThrough(holes: seq<FieldValue>, pool0: Entries<FieldValue>)
    requires Keyed(pool0) && Ascending(pool0)
    requires FirstPanic(holes, pool0, 0).None?
    ensures PushHoles(holes, pool0, |holes|).Success?
    ensures var st := PushHoles(holes, pool0, |holes|).value;
            PushRest(st.0, st.1, |st.1|) == Success(StateAt(Rendered(holes, pool0), |Rendered(holes, pool0)|))
  {
    var fields := Rendered(holes, pool0);
    var rest := Remaining(holes, pool0);
    HolesPass(holes, pool0);
    RemainingTail(holes, pool0);
    RestAll(fields, |holes|, rest);
    PassGlue(PushHoles(holes, pool0, |holes|), StateAt(fields, |holes|), rest, StateAt(fields, |fields|));
  }

  /** The pass over a whole tail ends in the state after every field. */
  lemma {:induction false} RestAll(fields: seq<FieldValue>, h: nat, rest: Entries<FieldValue>)
    requires Tail(fields, h, rest) && Consistent(StateAt(fields, h))
    ensures PushRest(StateAt(fields, h), rest, |rest|) == Success(StateAt(fields, |fields|))
  {
    RestInvariant(fields, h, rest, |rest|, |fields|);
  }

  /** A template pass that left state `s` and pool `rest` is followed by the pass over `rest` from `s`. */
  lemma {:induction false} PassGlue(r: Result<(Fields, Entries<FieldValue>), Panic>, s: Fields, rest: Entries<FieldValue>, e: Fields)
    requires r == Success((s, rest)) && Consistent(s) && PushRest(s, rest, |rest|) == Success(e)
    ensures r.Success? && Consistent(r.value.0) && PushRest(r.value.0, r.value.1, |r.value.1|) == Success(e)
  {
  }

  /** When no hole fails, both passes build the expansion `Emit.Expand` describes. */
  lemma {:induction false} StepsMatchExpandOnSuccess(holes: seq<FieldValue>, extras: seq<FieldValue>, before: seq<FieldValue>)
    requires FirstPanic(holes, Collect(extras), 0).None?
    ensures ExpandSteps(holes, extras, before) == Expand(holes, extras, before)
  {
    var pool0 := Collect(extras);
    PassesGoThrough(holes, pool0);
    var fields := Rendered(holes, pool0);
    StepsEnd(holes, extras, before, StateAt(fields, |fields|));
    ExpandEnd(holes, extras, before);
    FinishAll(holes, pool0, before);
  }

  /** Both passes going through to state `s` give the expansion read off `s`. */
  lemma {:induction false} StepsEnd(holes: seq<FieldValue>, extras: seq<FieldValue>, before: seq<FieldValue>, s: Fields)
    requires PushHoles(holes, Collect(extras), |holes|).Success?
    requires var st := PushHoles(holes, Collect(extras), |holes|).value;
             PushRest(st.0, st.1, |st.1|) == Success(s)
    ensures ExpandSteps(holes, extras, before) == Success(Finish(s, before))
  {
  }

  /** When no hole fails, `Emit.Expand` reads its result off the rendered fields. */
  lemma {:induction false} ExpandEnd(holes: seq<FieldValue>, extras: seq<FieldValue>, before: seq<FieldValue>)
    requires FirstPanic(holes, Collect(extras), 0).None?
    ensures var fields := Rendered(holes, Collect(extras));
            var view := SortedView(fields);
            Expand(holes, extras, before) ==
            Success(Expansion(Hoisted(fields), Range(|fields|), Keys(view), Values(view), Range(|view|), Target(before)))
  {
  }

  /** The two passes compute exactly the expansion `Emit.Expand` describes. */
  lemma {:induction false} StepsMatchExpand(holes: seq<FieldValue>, extras: seq<FieldValue>, before: seq<FieldValue>)
    ensures ExpandSteps(holes, extras, before) == Expand(holes, extras, before)
  {
    if FirstPanic(holes, Collect(extras), 0).Some? {
      StepsMatchExpandOnPanic(holes, extras, before);
    } else {
      StepsMatchExpandOnSuccess(holes, extras, before);
    }
  }

  /** The template pass takes hole `i` on from where the first `i` holes left it. */
  lemma {:induction false} HoleAdvance(holes: seq<FieldValue>, pool: Entries<FieldValue>, i: nat)
    requires i < |holes| && PushHoles(holes, pool, i).Success?
    ensures var st := PushHoles(holes, pool, i).value;
            PushHoles(holes, pool, i + 1) == TakeHole(st.0, st.1, holes[i])
  {
  }

  /** A template pass that failed on the first `i` holes fails on the first `i + 1`. */
  // `j` stands for `i + 1` (see the module comment)
  lemma {:induction false} FailureNext(holes: seq<FieldValue>, pool: Entries<FieldValue>, i: nat, j: nat, p: Panic)
    requires i < |holes| && j == i + 1 && PushHoles(holes, pool, i) == Failure(p)
    ensures PushHoles(holes, pool, j) == Failure(p)
  {
  }

  /** The field-value pushed for a hole: the extra found under its key if it is bare, else the hole. */
  ghost predicate PushesFor(pool: Entries<FieldValue>, hole: FieldValue, fv: FieldValue)
  {
    match Get(pool, hole.key)
    case Some(extra) => CheckBare(hole).None? && fv == extra
    case None => fv == hole
  }

  /** A hole whose key has an extra but which is not bare makes the template pass fail. */
  lemma {:induction false} HoleRefused(holes: seq<FieldValue>, pool0: Entries<FieldValue>, i: nat)
    requires i < |holes| && PushHoles(holes, pool0, i).Success?
    requires var st := PushHoles(holes, pool0, i).value;
             Get(st.1, holes[i].key).Some? && CheckBare(holes[i]).Some?
    ensures PushHoles(holes, pool0, |holes|) == Failure(CheckBare(holes[i]).value)
  {
    var j := i + 1;
    HoleAdvance(holes, pool0, i);
    FailureSticks(holes, pool0, j, CheckBare(holes[i]).value);
  }

  /** A hole whose push panics makes the template pass fail with that panic. */
  lemma {:induction false} HolePushFails(holes: seq<FieldValue>, pool0: Entries<FieldValue>, i: nat, fv: FieldValue, p: Panic)
    requires i < |holes| && PushHoles(holes, pool0, i).Success?
    requires var st := PushHoles(holes, pool0, i).value;
             PushesFor(st.1, holes[i], fv) && PushField(st.0, holes[i].key, fv) == Failure(p)
    ensures PushHoles(holes, pool0, |holes|) == Failure(p)
  {
    var j := i + 1;
    HoleAdvance(holes, pool0, i);
    FailureSticks(holes, pool0, j, p);
  }

  /** A hole whose push goes through takes the template pass on by one hole. */
  // `j` stands for `i + 1` (see the module comment)
  lemma {:induction false} HolePushed(holes: seq<FieldValue>, pool0: Entries<FieldValue>, i: nat, fv: FieldValue, s': Fields, j: nat)
    requires i < |holes| && j == i + 1 && PushHoles(holes, pool0, i).Success?
    requires var st := PushHoles(holes, pool0, i).value;
             PushesFor(st.1, holes[i], fv) && PushField(st.0, holes[i].key, fv) == Success(s')
    ensures var st := PushHoles(holes, pool0, i).value;
            PushHoles(holes, pool0, j) == Success((s', Without(st.1, {holes[i].key})))
  {
    HoleAdvance(holes, pool0, i);
  }

  /** Once a hole panics, the template pass fails with that panic. */
  lemma {:induction false} FailureSticks(holes: seq<FieldValue>, pool: Entries<FieldValue>, i: nat, p: Panic)
    requires i <= |holes| && PushHoles(holes, pool, i) == Failure(p)
    ensures PushHoles(holes, pool, |holes|) == Failure(p)
  {
    FailureUpTo(holes, pool, i, |holes|, p);
  }

  /** A panic after the first `i` holes is still the panic after the first `n >= i`. */
  lemma {:induction false} FailureUpTo(holes: seq<FieldValue>, pool: Entries<FieldValue>, i: nat, n: nat, p: Panic)
    requires i <= n <= |holes| && PushHoles(holes, pool, i) == Failure(p)
    ensures PushHoles(holes, pool, n) == Failure(p)
  {
    if i < n {
      var m := n - 1;
      FailureUpTo(holes, pool, i, m, p);
      FailureNext(holes, pool, m, n, p);
    }
  }

  /**
   * In a pass over the extras that goes through, the push of extra `t` goes
   * through and takes the pass on from where the first `t` extras left it.
   */
  // `u` stands for `t + 1` (see the module comment)
  lemma {:induction false} RestNext(s: Fields, rest: Entries<FieldValue>, t: nat, s': Fields, u: nat)
    requires Consistent(s) && t < |rest| && u == t + 1 && PushRest(s, rest, |rest|).Success?
    requires PushRest(s, rest, t) == Success(s')
    ensures PushField(s', rest[t].0, rest[t].1).Success?
    ensures PushRest(s, rest, u) == PushField(s', rest[t].0, rest[t].1)
  {
    RestPrefix(s, rest, t, s');
    RestUnfold(s, rest, t, s', u);
  }

  /** The pass over the first `t + 1` extras goes through when the whole pass does. */
  lemma {:induction false} RestPrefix(s: Fields, rest: Entries<FieldValue>, t: nat, s': Fields)
    requires Consistent(s) && t < |rest|
    requires PushRest(s, rest, t) == Success(s')
    requires PushRest(s, rest, |rest|).Success?
    ensures PushRest(s, rest, t + 1).Success?
  {
    var u := t + 1;
    RestSticks(s, rest, u);
  }

  /** The pass over the first `t + 1` extras is the pass over the first `t`, then one push. */
  // `u` stands for `t + 1` (see the module comment)
  lemma {:induction false} RestUnfold(s: Fields, rest: Entries<FieldValue>, t: nat, s': Fields, u: nat)
    requires Consistent(s) && t < |rest| && u == t + 1
    requires PushRest(s, rest, t) == Success(s')
    ensures PushRest(s, rest, u) == PushField(s', rest[t].0, rest[t].1)
  {
  }

  /** A pass over the extras that fails on the first `t` fails on the first `t + 1`. */
  lemma {:induction false} RestFailureNext(s: Fields, rest: Entries<FieldValue>, t: nat)
    requires Consistent(s) && t < |rest| && PushRest(s, rest, t).Failure?
    ensures PushRest(s, rest, t + 1).Failure?
  {
  }

  /** Once a push of an extra panics, the pass over the extras fails. */
  lemma {:induction false} RestFailureSticks(s: Fields, rest: Entries<FieldValue>, t: nat)
    requires Consistent(s) && t <= |rest| && PushRest(s, rest, t).Failure?
    ensures PushRest(s, rest, |rest|).Failure?
    decreases |rest| - t
  {
    if t < |rest| {
      var u := t + 1;
      RestFailureNext(s, rest, t);
      RestFailureSticks(s, rest, u);
    }
  }

  /** A pass over the extras that goes through also goes through on any prefix of them. */
  lemma {:induction false} RestSticks(s: Fields, rest: Entries<FieldValue>, t: nat)
    requires Consistent(s) && t <= |rest| && PushRest(s, rest, |rest|).Success?
    ensures PushRest(s, rest, t).Success?
  {
    if PushRest(s, rest, t).Failure? {
      RestFailureSticks(s, rest, t);
    }
  }

  /** Once the template pass went through, no push of a remaining extra panics. */
  lemma {:induction false} RestSucceeds(holes: seq<FieldValue>, extras: seq<FieldValue>)
    requires PushHoles(holes, Collect(extras), |holes|).Success?
    ensures var st := PushHoles(holes, Collect(extras), |holes|).value;
            PushRest(st.0, st.1, |st.1|).Success?
  {
    var pool0 := Collect(extras);
    HolesInvariant(holes, pool0, |holes|);
    PassesGoThrough(holes, pool0);
  }
}
