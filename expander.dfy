/**
 * `expand_tokens` as the source runs it: a pass over the template's holes that
 * consumes the extra pool, a pass over the extras left in it, and the
 * `push_field_value` closure that both passes feed. Each step is proved to stay
 * in line with `Emit.Expand`.
 */
module Expander {
  import opened Base
  import opened SortedMap
  import opened Emit
  import opened Steps

  /**
   * The state the `push_field_value` closure captures: the `match` scrutinee, the
   * `match` pattern, the key-sorted bindings and the next binding index.
   */
  class FieldCollector {
    var values: seq<Capture>
    var bindings: seq<nat>
    var sorted: Entries<nat>
    var index: nat

    /** The captured state as a value. */
    function State(): Fields
      reads this
    {
      Fields(values, bindings, sorted, index)
    }

    /** One capture, one binding and one sorted entry per field pushed so far. */
    ghost predicate Valid()
      reads this
    {
      Consistent(State())
    }

    constructor ()
      ensures Valid() && index == 0
      ensures values == [] && bindings == [] && sorted == []
    {
      values, bindings, sorted, index := [], [], [], 0;
    }

    /**
     * Push field-value `fv` under key `k`. The capture and the binding are
     * appended and `k` is bound to the new binding whatever happens; the push
     * fails (the source panics) when `k` was bound already, and then the index
     * is not advanced.
     */
    method Push(k: string, fv: FieldValue) returns (ok: bool)
      requires Valid()
      modifies this
      ensures State() == Pushed(old(State()), k, fv)
      ensures ok ==> Valid() && PushField(old(State()), k, fv) == Success(State())
      ensures !ok ==> PushField(old(State()), k, fv) == Failure(DuplicateKey)
    {
      var attrs := fv.attrs;
      var stripped := fv.(attrs := []);
      var binding := index;
      values := values + [Capture(attrs, stripped)];
      bindings := bindings + [binding];
      var previous := Get(sorted, k);
      GetSome(old(sorted), k);
      sorted := Insert(sorted, k, binding);
      if previous.Some? {
        ok := false;
        return;
      }
      index := index + 1;
      ok := true;
    }
  }

  /**
   * The loop over the template's holes: each hole's key is taken out of the pool;
   * an extra found under it must meet a bare hole and is pushed in its place,
   * otherwise the hole is pushed. Either some hole panics, and the template pass
   * fails with that panic, or the pass leaves `c` and the pool as it describes.
   */
  method PushTemplate(c: FieldCollector, holes: seq<FieldValue>, pool0: Entries<FieldValue>)
    returns (r: Result<Entries<FieldValue>, Panic>)
    requires c.Valid() && c.State() == Start()
    modifies c
    ensures PushHoles(holes, pool0, |holes|) ==
            match r
            case Success(pool) => Success((c.State(), pool))
            case Failure(p) => Failure(p)
  {
    var pool := pool0;
    var i := 0;
    while i < |holes|
      invariant 0 <= i <= |holes|
      invariant PushHoles(holes, pool0, i) == Success((c.State(), pool))
    {
      var hole := holes[i];
      var k := hole.key;
      var found := Get(pool, k);

      var fv;
      match found {
        case Some(extra) =>
          // a hole that has an extra must be a bare identifier naming its key
          if !hole.expr.Path? {
            HoleRefused(holes, pool0, i);
            return Failure(NotAnIdentifier);
          }
          if hole.attrs != [] {
            HoleRefused(holes, pool0, i);
            return Failure(AttributesInTemplate);
          }
          if hole.expr.Ident() != Some(k) {
            HoleRefused(holes, pool0, i);
            return Failure(KeyPathMismatch);
          }
          fv := extra;
        case None =>
          fv := hole;
      }
      pool := Without(pool, {k});

      var ok := c.Push(k, fv);
      if !ok {
        HolePushFails(holes, pool0, i, fv, DuplicateKey);
        return Failure(DuplicateKey);
      }
      var next := i + 1;
      HolePushed(holes, pool0, i, fv, c.State(), next);
      i := next;
    }
    r := Success(pool);
  }

  /**
   * The loop over the extras left in the pool, in its ascending key order: each
   * is pushed under its key. The source panics on a repeated key; given that the
   * pass goes through, none does.
   */
  method PushExtras(c: FieldCollector, rest: Entries<FieldValue>)
    requires c.Valid() && PushRest(c.State(), rest, |rest|).Success?
    modifies c
    ensures PushRest(old(c.State()), rest, |rest|) == Success(c.State())
  {
    ghost var start := c.State();
    var t := 0;
    while t < |rest|
      invariant 0 <= t <= |rest|
      invariant Consistent(start) && start == old(c.State())
      invariant PushRest(start, rest, t) == Success(c.State())
    {
      var k, fv := rest[t].0, rest[t].1;
      var next := t + 1;
      RestNext(start, rest, t, c.State(), next);
      var ok := c.Push(k, fv);
      assert ok;
      t := next;
    }
  }

  /**
   * Expand the template's holes `holes` against the extras `extras`, looking the
   * target up among `before`, the field-values written before the template.
   */
  method ExpandTokens(holes: seq<FieldValue>, extras: seq<FieldValue>, before: seq<FieldValue>)
    returns (r: Result<Expansion, Panic>)
    ensures r == Expand(holes, extras, before)
  {
    var pool := Collect(extras);
    var c := new FieldCollector();

    // Push the field-values that appear in the template
    var passed := PushTemplate(c, holes, pool);
    StepsMatchExpand(holes, extras, before);
    if passed.Failure? {
      return Failure(passed.error);
    }

    // Push any remaining extra field-values
    RestSucceeds(holes, extras);
    PushExtras(c, passed.value);

    var sortedKeys := Keys(c.sorted);
    var sortedBindings := Values(c.sorted);
    var accessors := Range(|c.sorted|);
    r := Success(Expansion(c.values, c.bindings, sortedKeys, sortedBindings, accessors, Target(before)));
  }
}
