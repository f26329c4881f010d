/**
 * Three places where `WalkSchema` and `walkParameter`, as written, depart from
 * the copy-on-write walk that the rest of the walker performs. Each is
 * modelled as the code does it, next to an input that shows the departure;
 * the rest of the model uses the corrected definitions of `Walker`.
 */
module WalkerFindings {
  import opened Wrappers
  import opened OpenApi
  import opened Heights
  import opened Walker

  // ----- A changed map field rebuilt from the schema before the callback -----

  /**
   * One map field (`definitions`, `properties` or `patternProperties`) of
   * `WalkSchema` as written. `cur` is that field of the schema callback's
   * result and `orig` the same field of the schema passed in. Every entry of
   * `cur` is walked with `w`; once one of them changes, the field is rebuilt
   * as a copy of `orig` with the changed entries written over it.
   */
  function MapFieldAsWritten(orig: map<string, Schema>, cur: map<string, Schema>, w: Schema -> Schema)
    : (r: map<string, Schema>)
    ensures r.Keys <= orig.Keys + cur.Keys
    ensures forall k :: k in cur && w(cur[k]) != cur[k] ==> k in r && r[k] == w(cur[k])
  {
    var changed := set k | k in cur && w(cur[k]) != cur[k];
    if changed == {} then
      assert forall k :: k in cur && w(cur[k]) != cur[k] ==> k in changed;
      cur
    else map k | k in orig.Keys + changed :: if k in changed then w(cur[k]) else orig[k]
  }

  /**
   * When some entry changes, an entry of the callback's result that is not
   * in the schema passed in is dropped, even though the walk left it alone.
   */
  lemma MapFieldAsWrittenDropsEntry(orig: map<string, Schema>, cur: map<string, Schema>, w: Schema -> Schema, a: string, b: string)
    requires a in cur && w(cur[a]) != cur[a]
    requires b in cur && b !in orig && w(cur[b]) == cur[b]
    ensures b !in MapFieldAsWritten(orig, cur, w)
  {
    var changed := set k | k in cur && w(cur[k]) != cur[k];
    assert a in changed;
    assert b !in changed;
  }

  /** A concrete input: the callback adds `b` and the walk changes only `a`. */
  lemma MapFieldAsWrittenExample()
    ensures var x := RefOnly("#/definitions/a");
      var w := (s: Schema) => if s == x then RefOnly("#/definitions/c") else s;
      var cur := map["a" := x, "b" := RefOnly("#/definitions/b")];
      "b" in cur && "b" !in MapFieldAsWritten(map[], cur, w)
  {
    var x := RefOnly("#/definitions/a");
    var y := RefOnly("#/definitions/b");
    var w := (s: Schema) => if s == x then RefOnly("#/definitions/c") else s;
    var cur := map["a" := x, "b" := y];
    assert x != y by {
      assert x.ref != y.ref;
    }
    assert RefOnly("#/definitions/c").ref != x.ref;
    MapFieldAsWrittenDropsEntry(map[], cur, w, "a", "b");
  }

  /**
   * When the callback leaves the field alone (as the no-op callback does),
   * the field as written is the entry-by-entry walk that `WalkSchemaMap`
   * computes.
   */
  lemma MapFieldAsWrittenWithoutCallback(m: map<string, Schema>, w: Schema -> Schema)
    ensures MapFieldAsWritten(m, m, w) == map k | k in m :: w(m[k])
  {
    var r := MapFieldAsWritten(m, m, w);
    var walked := map k | k in m :: w(m[k]);
    var changed := set k | k in m && w(m[k]) != m[k];
    if changed == {} {
      forall k | k in m ensures r[k] == walked[k] {
        assert k !in changed;
      }
    } else {
      assert r.Keys == m.Keys;
      forall k | k in m ensures r[k] == walked[k] {
        if k !in changed {
          assert w(m[k]) == m[k];
        }
      }
    }
    assert r == walked;
  }

  // ----- A changed list field rebuilt from the schema before the callback -----

  /** Some element of `cur` changes under the walk `w`. */
  predicate SomeChanged(cur: seq<Schema>, w: Schema -> Schema)
  {
    exists i :: 0 <= i < |cur| && w(cur[i]) != cur[i]
  }

  /** The index of the first element of `cur` that the walk changes. */
  function FirstChanged(cur: seq<Schema>, w: Schema -> Schema): (j: nat)
    requires SomeChanged(cur, w)
    ensures j < |cur| && w(cur[j]) != cur[j]
    ensures forall i :: 0 <= i < j ==> w(cur[i]) == cur[i]
  {
    if w(cur[0]) != cur[0] then 0
    else
      assert SomeChanged(cur[1..], w) by {
        var i :| 0 <= i < |cur| && w(cur[i]) != cur[i];
        assert cur[1..][i - 1] == cur[i];
      }
      var j := FirstChanged(cur[1..], w);
      assert forall i :: 1 <= i <= j ==> cur[i] == cur[1..][i - 1];
      1 + j
  }

  /**
   * One list field (`allOf`, `anyOf`, `oneOf`, or the `items` list) of
   * `WalkSchema` as written, or `None` where Go panics. `cur` is that field
   * of the schema callback's result and `orig` the same field of the schema
   * passed in. The range runs over the `|cur|` indices of `cur`. At the first
   * element whose walk changes, the field becomes a copy of `orig`, and every
   * later index is read from that copy. An index past `|orig|` is out of
   * range.
   */
  function SeqFieldAsWritten(orig: seq<Schema>, cur: seq<Schema>, w: Schema -> Schema): (r: Option<seq<Schema>>)
    ensures !SomeChanged(cur, w) ==> r == Some(cur)
    ensures SomeChanged(cur, w) ==> (r.None? <==> |cur| > |orig|)
    ensures r.Some? && SomeChanged(cur, w) ==> |r.value| == |orig|
  {
    if !SomeChanged(cur, w) then Some(cur)
    else if |cur| > |orig| then None
    else
      var j := FirstChanged(cur, w);
      Some(seq(|orig|, i requires 0 <= i < |orig| =>
        if i < j || i >= |cur| then orig[i] else if i == j then w(cur[j]) else w(orig[i])))
  }

  /**
   * When the callback replaced the list and an early element changes, a
   * later element of the callback's list that the walk leaves alone is
   * replaced by the stale element of `orig`.
   */
  lemma SeqFieldAsWrittenKeepsStale(orig: seq<Schema>, cur: seq<Schema>, w: Schema -> Schema, a: nat, b: nat)
    requires a < b < |cur| <= |orig|
    requires w(cur[a]) != cur[a]
    requires w(cur[b]) == cur[b] && w(orig[b]) == orig[b] && orig[b] != cur[b]
    ensures var r := SeqFieldAsWritten(orig, cur, w);
      r.Some? && r.value[b] == orig[b] && r.value[b] != w(cur[b])
  {
    assert SomeChanged(cur, w);
    var j := FirstChanged(cur, w);
    assert j <= a;
  }

  /**
   * When the callback gives a schema a list field longer than the one it
   * had, a change in that list is an index out of range: a panic.
   */
  lemma SeqFieldAsWrittenPanics(orig: seq<Schema>, cur: seq<Schema>, w: Schema -> Schema, a: nat)
    requires |orig| < |cur| && a < |cur| && w(cur[a]) != cur[a]
    ensures SeqFieldAsWritten(orig, cur, w).None?
  {
    assert SomeChanged(cur, w);
  }

  /** A concrete input: the callback adds `allOf` `[x]` to a schema without it, and the walk changes `x`. */
  lemma SeqFieldAsWrittenExample()
    ensures var x := RefOnly("#/definitions/a");
      var w := (s: Schema) => if s == x then RefOnly("#/definitions/c") else s;
      SeqFieldAsWritten([], [x], w).None?
  {
    var x := RefOnly("#/definitions/a");
    var w := (s: Schema) => if s == x then RefOnly("#/definitions/c") else s;
    assert RefOnly("#/definitions/c").ref != x.ref;
    SeqFieldAsWrittenPanics([], [x], w, 0);
  }

  /**
   * When the callback leaves the field alone (as the no-op callback does),
   * the field as written is the element-by-element walk that
   * `WalkSchemaSeq` computes.
   */
  lemma SeqFieldAsWrittenWithoutCallback(xs: seq<Schema>, w: Schema -> Schema)
    ensures SeqFieldAsWritten(xs, xs, w) == Some(seq(|xs|, i requires 0 <= i < |xs| => w(xs[i])))
  {
    var walked := seq(|xs|, i requires 0 <= i < |xs| => w(xs[i]));
    if SomeChanged(xs, w) {
      var j := FirstChanged(xs, w);
      var r := SeqFieldAsWritten(xs, xs, w).value;
      forall i | 0 <= i < |xs| ensures r[i] == walked[i] {
        if i < j {
          assert w(xs[i]) == xs[i];
        }
      }
      assert r == walked;
    } else {
      forall i | 0 <= i < |xs| ensures xs[i] == walked[i] {
        assert !(w(xs[i]) != xs[i]);
      }
      assert xs == walked;
    }
  }

  /**
   * The `items` list as written. `orig` is the `items` of the schema passed
   * in: when it is nil, or a single schema, `orig.Items.Schemas` is a nil
   * dereference or an empty list, and either way a change panics.
   */
  function ItemsListAsWritten(orig: Option<SchemaOrArray>, cur: seq<Schema>, w: Schema -> Schema)
    : (r: Option<seq<Schema>>)
    ensures (orig.None? || orig.value.OneSchema?) && SomeChanged(cur, w) ==> r.None?
    ensures orig.Some? && orig.value.SchemaList? ==> r == SeqFieldAsWritten(orig.value.schemas, cur, w)
  {
    if orig.Some? && orig.value.SchemaList? then SeqFieldAsWritten(orig.value.schemas, cur, w)
    else if SomeChanged(cur, w) then None
    else Some(cur)
  }

  /** A schema with only a `$ref`. */
  function RefOnly(ref: string): Schema
  {
    EmptySchema.(ref := ref)
  }

  // ----- The `items` reference rewritten in place -----

  /**
   * What a call of `walkParameter` leaves behind: the parameter it returns,
   * whether it reports a change (returns a new parameter), and the caller's
   * parameter afterwards.
   */
  datatype ParameterWalk = ParameterWalk(result: Parameter, reported: bool, caller: Parameter)

  /**
   * `walkParameter` as written: the parameter is copied before its own `$ref`
   * or its schema is replaced, but the `items` reference is assigned through
   * the `Items` pointer, which the copy shares with the caller's parameter.
   */
  function WalkParameterAsWritten(p: Parameter, rf: string -> string, sf: Schema -> Schema): (r: ParameterWalk)
    requires HeightPreserving(sf)
    ensures r.result == WalkParameter(p, rf, sf)
    ensures r.reported <==> rf(p.ref) != p.ref || WalkSchemaPtr(p.schema, rf, sf) != p.schema
    ensures r.caller.ref == p.ref && r.caller.schema == p.schema && r.caller.keywords == p.keywords
    ensures r.caller.items == r.result.items
  {
    var items := if p.items.Some? then Some(Items(rf(p.items.value.ref), p.items.value.keywords)) else None;
    var schema := WalkSchemaPtr(p.schema, rf, sf);
    ParameterWalk(
      Parameter(rf(p.ref), schema, items, p.keywords),
      rf(p.ref) != p.ref || schema != p.schema,
      p.(items := items))
  }

  /**
   * A parameter whose only reference is that of its `items`: the walk
   * changes it but reports no change, and the caller's parameter is changed
   * with it.
   */
  lemma WalkParameterAsWrittenMutatesCaller(p: Parameter, rf: string -> string)
    requires p.schema.None? && rf(p.ref) == p.ref
    requires p.items.Some? && rf(p.items.value.ref) != p.items.value.ref
    ensures var r := WalkParameterAsWritten(p, rf, SchemaCallbackNoop);
      !r.reported && r.result != p && r.caller != p
  {
    NoopPreservesHeight();
    var r := WalkParameterAsWritten(p, rf, SchemaCallbackNoop);
    assert r.result.items.value.ref != p.items.value.ref;
  }

  /**
   * The corrected `walkParameter` (`Walker.WalkParameter`) works on a copy:
   * the caller's parameter is untouched, and `WalkParameters` reports a
   * change exactly when the walked list differs from the input.
   */
  lemma WalkParameterReportsItems(p: Parameter, rf: string -> string, sf: Schema -> Schema)
    requires HeightPreserving(sf)
    requires p.items.Some? && rf(p.items.value.ref) != p.items.value.ref
    ensures WalkParameters([p], rf, sf).1
  {
    var walked := WalkParameters([p], rf, sf).0;
    assert walked[0].items.value.ref != p.items.value.ref;
  }
}
