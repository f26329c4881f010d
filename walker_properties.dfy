/**
 * What a walk does to one schema. It changes nothing that both callbacks
 * leave alone (`WalkSchemaFixed`), and with the no-op schema callback every
 * reference of the result is the ref callback's image of a reference of the
 * input, so a property the callback carries over is kept (`WalkSchemaRefs`).
 */
module WalkerProperties {
  import opened Wrappers
  import opened OpenApi
  import opened Heights
  import opened Walker
  import opened Holds

  // ----- Schemas: fixed points -----

  lemma {:induction false} WalkSchemaFixed(s: Schema, rf: string -> string, sf: Schema -> Schema)
    requires HeightPreserving(sf)
    requires SchemaHolds(s, r => FixesRef(rf, r), x => FixesSchema(sf, x))
    ensures WalkSchema(s, rf, sf) == s
    decreases Height(s), 4
  {
    WalkNestedFixed(s, Height(s), rf, sf);
  }

  lemma {:induction false} WalkNestedFixed(t: Schema, bound: nat, rf: string -> string, sf: Schema -> Schema)
    requires HeightPreserving(sf) && Height(t) <= bound
    requires SchemaHolds(t, r => FixesRef(rf, r), x => FixesSchema(sf, x))
    ensures WalkNested(t, bound, rf, sf) == t
    decreases bound, 3
  {
    WalkMapFieldsFixed(t, bound, rf, sf);
    WalkSeqFieldsFixed(t, bound, rf, sf);
    WalkOptionFieldsFixed(t, bound, rf, sf);
    WalkItemsFieldFixed(t, bound, rf, sf);
  }

  /// `WalkNestedFixed` field group by field group, to keep each proof small.

  lemma {:induction false} WalkMapFieldsFixed(t: Schema, bound: nat, rf: string -> string, sf: Schema -> Schema)
    requires HeightPreserving(sf) && Height(t) <= bound
    requires rf(t.ref) == t.ref && MapFieldsHold(t, r => FixesRef(rf, r), x => FixesSchema(sf, x))
    ensures var w := WalkNested(t, bound, rf, sf);
      w.ref == t.ref && w.definitions == t.definitions && w.properties == t.properties
      && w.patternProperties == t.patternProperties && w.extensions == t.extensions && w.keywords == t.keywords
    decreases bound, 2
  {
    MapFieldHeights(t);
    WalkMapFixed(t.definitions, bound, rf, sf);
    WalkMapFixed(t.properties, bound, rf, sf);
    WalkMapFixed(t.patternProperties, bound, rf, sf);
  }

  lemma {:induction false} WalkSeqFieldsFixed(t: Schema, bound: nat, rf: string -> string, sf: Schema -> Schema)
    requires HeightPreserving(sf) && Height(t) <= bound
    requires SeqFieldsHold(t, r => FixesRef(rf, r), x => FixesSchema(sf, x))
    ensures var w := WalkNested(t, bound, rf, sf);
      w.allOf == t.allOf && w.anyOf == t.anyOf && w.oneOf == t.oneOf
    decreases bound, 2
  {
    SeqFieldHeights(t);
    WalkSeqFixed(t.allOf, bound, rf, sf);
    WalkSeqFixed(t.anyOf, bound, rf, sf);
    WalkSeqFixed(t.oneOf, bound, rf, sf);
  }

  lemma {:induction false} WalkOptionFieldsFixed(t: Schema, bound: nat, rf: string -> string, sf: Schema -> Schema)
    requires HeightPreserving(sf) && Height(t) <= bound
    requires OptionFieldsHold(t, r => FixesRef(rf, r), x => FixesSchema(sf, x))
    ensures var w := WalkNested(t, bound, rf, sf);
      w.not == t.not && w.additionalProperties == t.additionalProperties
      && w.additionalItems == t.additionalItems
    decreases bound, 2
  {
    OptionFieldHeights(t);
    WalkOptFixed(t.not, bound, rf, sf);
    WalkSchemaOrBoolFixed(t.additionalProperties, bound, rf, sf);
    WalkSchemaOrBoolFixed(t.additionalItems, bound, rf, sf);
  }

  lemma {:induction false} WalkItemsFieldFixed(t: Schema, bound: nat, rf: string -> string, sf: Schema -> Schema)
    requires HeightPreserving(sf) && Height(t) <= bound
    requires ItemsFieldHolds(t, r => FixesRef(rf, r), x => FixesSchema(sf, x))
    ensures WalkNested(t, bound, rf, sf).items == t.items
    decreases bound, 2
  {
    ItemsFieldHeights(t);
    WalkSchemaOrArrayFixed(t.items, bound, rf, sf);
  }

  lemma {:induction false} WalkMapFixed(m: map<string, Schema>, bound: nat, rf: string -> string, sf: Schema -> Schema)
    requires HeightPreserving(sf) && forall k :: k in m ==> Height(m[k]) < bound
    requires MapHolds(m, r => FixesRef(rf, r), x => FixesSchema(sf, x))
    ensures WalkSchemaMap(m, bound, rf, sf) == m
    decreases bound, 0
  {
    forall k | k in m
      ensures WalkSchema(m[k], rf, sf) == m[k]
    {
      WalkSchemaFixed(m[k], rf, sf);
    }
  }

  lemma {:induction false} WalkSeqFixed(xs: seq<Schema>, bound: nat, rf: string -> string, sf: Schema -> Schema)
    requires HeightPreserving(sf) && forall i :: 0 <= i < |xs| ==> Height(xs[i]) < bound
    requires SeqHolds(xs, r => FixesRef(rf, r), x => FixesSchema(sf, x))
    ensures WalkSchemaSeq(xs, bound, rf, sf) == xs
    decreases bound, 0
  {
    forall i | 0 <= i < |xs|
      ensures WalkSchema(xs[i], rf, sf) == xs[i]
    {
      WalkSchemaFixed(xs[i], rf, sf);
    }
  }

  lemma {:induction false} WalkOptFixed(o: Option<Schema>, bound: nat, rf: string -> string, sf: Schema -> Schema)
    requires HeightPreserving(sf) && (o.Some? ==> Height(o.value) < bound)
    requires OptHolds(o, r => FixesRef(rf, r), x => FixesSchema(sf, x))
    ensures WalkOptSchema(o, bound, rf, sf) == o
    decreases bound, 0
  {
    if o.Some? {
      WalkSchemaFixed(o.value, rf, sf);
    }
  }

  lemma {:induction false} WalkSchemaOrBoolFixed(o: Option<SchemaOrBool>, bound: nat, rf: string -> string, sf: Schema -> Schema)
    requires HeightPreserving(sf) && (o.Some? && o.value.schema.Some? ==> Height(o.value.schema.value) < bound)
    requires SchemaOrBoolHolds(o, r => FixesRef(rf, r), x => FixesSchema(sf, x))
    ensures WalkSchemaOrBool(o, bound, rf, sf) == o
    decreases bound, 0
  {
    if o.Some? && o.value.schema.Some? {
      WalkSchemaFixed(o.value.schema.value, rf, sf);
    }
  }

  lemma {:induction false} WalkSchemaOrArrayFixed(o: Option<SchemaOrArray>, bound: nat, rf: string -> string, sf: Schema -> Schema)
    requires HeightPreserving(sf)
    requires o.Some? && o.value.OneSchema? ==> Height(o.value.schema) < bound
    requires o.Some? && o.value.SchemaList? ==> forall i :: 0 <= i < |o.value.schemas| ==> Height(o.value.schemas[i]) < bound
    requires SchemaOrArrayHolds(o, r => FixesRef(rf, r), x => FixesSchema(sf, x))
    ensures WalkSchemaOrArray(o, bound, rf, sf) == o
    decreases bound, 1
  {
    match o
    case None =>
    case Some(OneSchema(x)) => WalkSchemaFixed(x, rf, sf);
    case Some(SchemaList(xs)) => WalkSeqFixed(xs, bound, rf, sf);
  }

  // ----- Schemas: references of a walk with the no-op schema callback -----

  lemma {:induction false} WalkSchemaRefs(s: Schema, rf: string -> string, p: string -> bool, q: string -> bool)
    requires Carries(rf, p, q) && SchemaHolds(s, p, Always)
    ensures SchemaHolds(WalkSchema(s, rf, SchemaCallbackNoop), q, Always)
    decreases Height(s), 4
  {
    WalkNestedRefs(s, Height(s), rf, p, q);
  }

  lemma {:induction false} WalkNestedRefs(t: Schema, bound: nat, rf: string -> string, p: string -> bool, q: string -> bool)
    requires Height(t) <= bound
    requires Carries(rf, p, q) && SchemaHolds(t, p, Always)
    ensures SchemaHolds(WalkNested(t, bound, rf, SchemaCallbackNoop), q, Always)
    decreases bound, 3
  {
    WalkMapFieldsRefs(t, bound, rf, p, q);
    WalkSeqFieldsRefs(t, bound, rf, p, q);
    WalkOptionFieldsRefs(t, bound, rf, p, q);
    WalkItemsFieldRefs(t, bound, rf, p, q);
  }

  /// `WalkNestedRefs` field group by field group.

  lemma {:induction false} WalkMapFieldsRefs(t: Schema, bound: nat, rf: string -> string, p: string -> bool, q: string -> bool)
    requires Height(t) <= bound
    requires Carries(rf, p, q) && p(t.ref) && MapFieldsHold(t, p, Always)
    ensures var w := WalkNested(t, bound, rf, SchemaCallbackNoop);
      q(w.ref) && MapFieldsHold(w, q, Always)
    decreases bound, 2
  {
    MapFieldHeights(t);
    WalkMapRefs(t.definitions, bound, rf, p, q);
    WalkMapRefs(t.properties, bound, rf, p, q);
    WalkMapRefs(t.patternProperties, bound, rf, p, q);
  }

  lemma {:induction false} WalkSeqFieldsRefs(t: Schema, bound: nat, rf: string -> string, p: string -> bool, q: string -> bool)
    requires Height(t) <= bound
    requires Carries(rf, p, q) && SeqFieldsHold(t, p, Always)
    ensures var w := WalkNested(t, bound, rf, SchemaCallbackNoop);
      SeqFieldsHold(w, q, Always)
    decreases bound, 2
  {
    SeqFieldHeights(t);
    WalkSeqRefs(t.allOf, bound, rf, p, q);
    WalkSeqRefs(t.anyOf, bound, rf, p, q);
    WalkSeqRefs(t.oneOf, bound, rf, p, q);
  }

  lemma {:induction false} WalkOptionFieldsRefs(t: Schema, bound: nat, rf: string -> string, p: string -> bool, q: string -> bool)
    requires Height(t) <= bound
    requires Carries(rf, p, q) && OptionFieldsHold(t, p, Always)
    ensures var w := WalkNested(t, bound, rf, SchemaCallbackNoop);
      OptionFieldsHold(w, q, Always)
    decreases bound, 2
  {
    OptionFieldHeights(t);
    WalkOptRefs(t.not, bound, rf, p, q);
    WalkSchemaOrBoolRefs(t.additionalProperties, bound, rf, p, q);
    WalkSchemaOrBoolRefs(t.additionalItems, bound, rf, p, q);
  }

  lemma {:induction false} WalkItemsFieldRefs(t: Schema, bound: nat, rf: string -> string, p: string -> bool, q: string -> bool)
    requires Height(t) <= bound
    requires Carries(rf, p, q) && ItemsFieldHolds(t, p, Always)
    ensures ItemsFieldHolds(WalkNested(t, bound, rf, SchemaCallbackNoop), q, Always)
    decreases bound, 2
  {
    ItemsFieldHeights(t);
    WalkSchemaOrArrayRefs(t.items, bound, rf, p, q);
  }

  lemma {:induction false} WalkMapRefs(m: map<string, Schema>, bound: nat, rf: string -> string, p: string -> bool, q: string -> bool)
    requires forall k :: k in m ==> Height(m[k]) < bound
    requires Carries(rf, p, q) && MapHolds(m, p, Always)
    ensures MapHolds(WalkSchemaMap(m, bound, rf, SchemaCallbackNoop), q, Always)
    decreases bound, 0
  {
    forall k | k in m
      ensures SchemaHolds(WalkSchema(m[k], rf, SchemaCallbackNoop), q, Always)
    {
      WalkSchemaRefs(m[k], rf, p, q);
    }
  }

  lemma {:induction false} WalkSeqRefs(xs: seq<Schema>, bound: nat, rf: string -> string, p: string -> bool, q: string -> bool)
    requires forall i :: 0 <= i < |xs| ==> Height(xs[i]) < bound
    requires Carries(rf, p, q) && SeqHolds(xs, p, Always)
    ensures SeqHolds(WalkSchemaSeq(xs, bound, rf, SchemaCallbackNoop), q, Always)
    decreases bound, 0
  {
    forall i | 0 <= i < |xs|
      ensures SchemaHolds(WalkSchema(xs[i], rf, SchemaCallbackNoop), q, Always)
    {
      WalkSchemaRefs(xs[i], rf, p, q);
    }
  }

  lemma {:induction false} WalkOptRefs(o: Option<Schema>, bound: nat, rf: string -> string, p: string -> bool, q: string -> bool)
    requires o.Some? ==> Height(o.value) < bound
    requires Carries(rf, p, q) && OptHolds(o, p, Always)
    ensures OptHolds(WalkOptSchema(o, bound, rf, SchemaCallbackNoop), q, Always)
    decreases bound, 0
  {
    if o.Some? {
      WalkSchemaRefs(o.value, rf, p, q);
    }
  }

  lemma {:induction false} WalkSchemaOrBoolRefs(o: Option<SchemaOrBool>, bound: nat, rf: string -> string, p: string -> bool, q: string -> bool)
    requires o.Some? && o.value.schema.Some? ==> Height(o.value.schema.value) < bound
    requires Carries(rf, p, q) && SchemaOrBoolHolds(o, p, Always)
    ensures SchemaOrBoolHolds(WalkSchemaOrBool(o, bound, rf, SchemaCallbackNoop), q, Always)
    decreases bound, 0
  {
    if o.Some? && o.value.schema.Some? {
      WalkSchemaRefs(o.value.schema.value, rf, p, q);
    }
  }

  lemma {:induction false} WalkSchemaOrArrayRefs(o: Option<SchemaOrArray>, bound: nat, rf: string -> string, p: string -> bool, q: string -> bool)
    requires o.Some? && o.value.OneSchema? ==> Height(o.value.schema) < bound
    requires o.Some? && o.value.SchemaList? ==> forall i :: 0 <= i < |o.value.schemas| ==> Height(o.value.schemas[i]) < bound
    requires Carries(rf, p, q) && SchemaOrArrayHolds(o, p, Always)
    ensures SchemaOrArrayHolds(WalkSchemaOrArray(o, bound, rf, SchemaCallbackNoop), q, Always)
    decreases bound, 1
  {
    match o
    case None =>
    case Some(OneSchema(x)) => WalkSchemaRefs(x, rf, p, q);
    case Some(SchemaList(xs)) => WalkSeqRefs(xs, bound, rf, p, q);
  }

  // ----- Conditions that hold of everything -----

  lemma {:induction false} SchemaHoldsUniversal(s: Schema, pr: string -> bool, q: Schema -> bool)
    requires (forall r :: pr(r)) && (forall x :: q(x))
    ensures SchemaHolds(s, pr, q)
    decreases s, 1
  {
    MapFieldsHoldUniversal(s, pr, q);
    SeqFieldsHoldUniversal(s, pr, q);
    OptionFieldsHoldUniversal(s, pr, q);
    ItemsFieldHoldsUniversal(s, pr, q);
  }

  lemma {:induction false} MapFieldsHoldUniversal(s: Schema, pr: string -> bool, q: Schema -> bool)
    requires (forall r :: pr(r)) && (forall x :: q(x))
    ensures MapFieldsHold(s, pr, q)
    decreases s, 0
  {
    forall k | k in s.definitions ensures SchemaHolds(s.definitions[k], pr, q) {
      SchemaHoldsUniversal(s.definitions[k], pr, q);
    }
    forall k | k in s.properties ensures SchemaHolds(s.properties[k], pr, q) {
      SchemaHoldsUniversal(s.properties[k], pr, q);
    }
    forall k | k in s.patternProperties ensures SchemaHolds(s.patternProperties[k], pr, q) {
      SchemaHoldsUniversal(s.patternProperties[k], pr, q);
    }
  }

  lemma {:induction false} SeqFieldsHoldUniversal(s: Schema, pr: string -> bool, q: Schema -> bool)
    requires (forall r :: pr(r)) && (forall x :: q(x))
    ensures SeqFieldsHold(s, pr, q)
    decreases s, 0
  {
    forall i | 0 <= i < |s.allOf| ensures SchemaHolds(s.allOf[i], pr, q) {
      SchemaHoldsUniversal(s.allOf[i], pr, q);
    }
    forall i | 0 <= i < |s.anyOf| ensures SchemaHolds(s.anyOf[i], pr, q) {
      SchemaHoldsUniversal(s.anyOf[i], pr, q);
    }
    forall i | 0 <= i < |s.oneOf| ensures SchemaHolds(s.oneOf[i], pr, q) {
      SchemaHoldsUniversal(s.oneOf[i], pr, q);
    }
  }

  lemma {:induction false} OptionFieldsHoldUniversal(s: Schema, pr: string -> bool, q: Schema -> bool)
    requires (forall r :: pr(r)) && (forall x :: q(x))
    ensures OptionFieldsHold(s, pr, q)
    decreases s, 0
  {
    if s.not.Some? {
      SchemaHoldsUniversal(s.not.value, pr, q);
    }
    if s.additionalProperties.Some? && s.additionalProperties.value.schema.Some? {
      SchemaHoldsUniversal(s.additionalProperties.value.schema.value, pr, q);
    }
    if s.additionalItems.Some? && s.additionalItems.value.schema.Some? {
      SchemaHoldsUniversal(s.additionalItems.value.schema.value, pr, q);
    }
  }

  lemma {:induction false} ItemsFieldHoldsUniversal(s: Schema, pr: string -> bool, q: Schema -> bool)
    requires (forall r :: pr(r)) && (forall x :: q(x))
    ensures ItemsFieldHolds(s, pr, q)
    decreases s, 0
  {
    match s.items
    case None =>
    case Some(OneSchema(x)) => SchemaHoldsUniversal(x, pr, q);
    case Some(SchemaList(xs)) =>
      forall i | 0 <= i < |xs| ensures SchemaHolds(xs[i], pr, q) {
        SchemaHoldsUniversal(xs[i], pr, q);
      }
  }
}
