/**
 * Height of schema trees. A schema callback may hand back a different
 * schema, and the walker then descends into the callback's result; the
 * height is the measure that makes that descent terminate.
 */
module Heights {
  import opened Wrappers
  import opened OpenApi

  /** The larger of two heights. */
  function Larger(a: nat, b: nat): (r: nat)
    ensures a <= r && b <= r && (r == a || r == b)
  {
    if a < b then b else a
  }

  ghost function Max(s: set<nat>): (r: nat)
    ensures forall y :: y in s ==> y <= r
  {
    if s == {} then 0
    else
      var x :| x in s;
      var m := Max(s - {x});
      assert forall y :: y in s ==> y == x || y in s - {x};
      if x > m then x else m
  }

  /** Height of a schema tree: one more than its tallest nested schema. */
  ghost function Height(s: Schema): (h: nat)
    decreases s, 1
  {
    1 + Larger(Larger(Larger(MapHeight(s, s.definitions), MapHeight(s, s.properties)),
                      Larger(MapHeight(s, s.patternProperties), NotHeight(s))),
               Larger(Larger(Larger(SeqHeight(s, s.allOf), SeqHeight(s, s.anyOf)),
                             Larger(SeqHeight(s, s.oneOf), ItemsHeight(s))),
                      Larger(AdditionalHeight(s, s.additionalProperties), AdditionalHeight(s, s.additionalItems))))
  }

  /** Tallest schema among the values of `m`, a map field of `parent`. */
  ghost function MapHeight(parent: Schema, m: map<string, Schema>): (h: nat)
    requires m == parent.definitions || m == parent.properties || m == parent.patternProperties
    ensures forall k :: k in m ==> Height(m[k]) <= h
    decreases parent, 0
  {
    var hs := set k | k in m :: Height(m[k]);
    assert forall k :: k in m ==> Height(m[k]) in hs;
    Max(hs)
  }

  /** Tallest schema in `xs`, a list field of `parent`. */
  ghost function SeqHeight(parent: Schema, xs: seq<Schema>): (h: nat)
    requires xs == parent.allOf || xs == parent.anyOf || xs == parent.oneOf
    ensures forall i :: 0 <= i < |xs| ==> Height(xs[i]) <= h
    decreases parent, 0
  {
    var hs := set i | 0 <= i < |xs| :: Height(xs[i]);
    assert forall i :: 0 <= i < |xs| ==> Height(xs[i]) in hs;
    Max(hs)
  }

  ghost function NotHeight(s: Schema): (h: nat)
    ensures s.not.Some? ==> Height(s.not.value) <= h
    decreases s, 0
  {
    if s.not.Some? then Height(s.not.value) else 0
  }

  ghost function AdditionalHeight(parent: Schema, a: Option<SchemaOrBool>): (h: nat)
    requires a == parent.additionalProperties || a == parent.additionalItems
    ensures a.Some? && a.value.schema.Some? ==> Height(a.value.schema.value) <= h
    decreases parent, 0
  {
    if a.Some? && a.value.schema.Some? then Height(a.value.schema.value) else 0
  }

  ghost function ItemsHeight(s: Schema): (h: nat)
    ensures s.items.Some? && s.items.value.OneSchema? ==> Height(s.items.value.schema) <= h
    ensures s.items.Some? && s.items.value.SchemaList? ==>
      forall i :: 0 <= i < |s.items.value.schemas| ==> Height(s.items.value.schemas[i]) <= h
    decreases s, 0
  {
    if s.items.None? then 0
    else if s.items.value.OneSchema? then Height(s.items.value.schema)
    else
      var xs := s.items.value.schemas;
      var hs := set i | 0 <= i < |xs| :: Height(xs[i]);
      assert forall i :: 0 <= i < |xs| ==> Height(xs[i]) in hs;
      Max(hs)
  }

  lemma HeightBounds(s: Schema)
    ensures MapHeight(s, s.definitions) < Height(s) && MapHeight(s, s.properties) < Height(s)
    ensures MapHeight(s, s.patternProperties) < Height(s)
    ensures SeqHeight(s, s.allOf) < Height(s) && SeqHeight(s, s.anyOf) < Height(s)
    ensures SeqHeight(s, s.oneOf) < Height(s) && NotHeight(s) < Height(s) && ItemsHeight(s) < Height(s)
    ensures AdditionalHeight(s, s.additionalProperties) < Height(s)
    ensures AdditionalHeight(s, s.additionalItems) < Height(s)
  {
    var maps := Larger(Larger(MapHeight(s, s.definitions), MapHeight(s, s.properties)),
                       Larger(MapHeight(s, s.patternProperties), NotHeight(s)));
    var seqs := Larger(Larger(SeqHeight(s, s.allOf), SeqHeight(s, s.anyOf)),
                       Larger(SeqHeight(s, s.oneOf), ItemsHeight(s)));
    var extra := Larger(AdditionalHeight(s, s.additionalProperties), AdditionalHeight(s, s.additionalItems));
    assert Height(s) == 1 + Larger(maps, Larger(seqs, extra));
  }

  /// `HeightBounds` for one field group at a time, stated on the nested schemas.

  lemma MapFieldHeights(s: Schema)
    ensures forall k :: k in s.definitions ==> Height(s.definitions[k]) < Height(s)
    ensures forall k :: k in s.properties ==> Height(s.properties[k]) < Height(s)
    ensures forall k :: k in s.patternProperties ==> Height(s.patternProperties[k]) < Height(s)
  {
    HeightBounds(s);
  }

  lemma SeqFieldHeights(s: Schema)
    ensures forall i :: 0 <= i < |s.allOf| ==> Height(s.allOf[i]) < Height(s)
    ensures forall i :: 0 <= i < |s.anyOf| ==> Height(s.anyOf[i]) < Height(s)
    ensures forall i :: 0 <= i < |s.oneOf| ==> Height(s.oneOf[i]) < Height(s)
  {
    HeightBounds(s);
  }

  lemma OptionFieldHeights(s: Schema)
    ensures s.not.Some? ==> Height(s.not.value) < Height(s)
    ensures s.additionalProperties.Some? && s.additionalProperties.value.schema.Some? ==>
      Height(s.additionalProperties.value.schema.value) < Height(s)
    ensures s.additionalItems.Some? && s.additionalItems.value.schema.Some? ==>
      Height(s.additionalItems.value.schema.value) < Height(s)
  {
    HeightBounds(s);
  }

  lemma ItemsFieldHeights(s: Schema)
    ensures s.items.Some? && s.items.value.OneSchema? ==> Height(s.items.value.schema) < Height(s)
    ensures s.items.Some? && s.items.value.SchemaList? ==>
      forall i :: 0 <= i < |s.items.value.schemas| ==> Height(s.items.value.schemas[i]) < Height(s)
  {
    HeightBounds(s);
  }

  ghost predicate HeightPreserving(sf: Schema -> Schema)
  {
    forall s :: Height(sf(s)) <= Height(s)
  }
}
