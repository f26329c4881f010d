/**
 * Conditions on every node of a schema tree, along the fields the walker
 * visits: `p` of every `$ref` and `q` of every schema. They are stated
 * apart from the lemmas about walks so that a lemma that needs one of them
 * takes it as a whole.
 */
module Holds {
  import opened Wrappers
  import opened OpenApi

  /// `SchemaHolds(s, p, q)`: `p` holds of every `$ref` and `q` of every schema
  /// node of `s`, along the fields the walker visits. The nested schemas are
  /// taken in the walker's four field groups.

  ghost predicate SchemaHolds(s: Schema, p: string -> bool, q: Schema -> bool)
    decreases s, 1
  {
    p(s.ref) && q(s)
    && MapFieldsHold(s, p, q) && SeqFieldsHold(s, p, q) && OptionFieldsHold(s, p, q) && ItemsFieldHolds(s, p, q)
  }

  ghost predicate MapFieldsHold(s: Schema, p: string -> bool, q: Schema -> bool)
    decreases s, 0
  {
    (forall k :: k in s.definitions ==> SchemaHolds(s.definitions[k], p, q))
    && (forall k :: k in s.properties ==> SchemaHolds(s.properties[k], p, q))
    && (forall k :: k in s.patternProperties ==> SchemaHolds(s.patternProperties[k], p, q))
  }

  ghost predicate SeqFieldsHold(s: Schema, p: string -> bool, q: Schema -> bool)
    decreases s, 0
  {
    (forall i :: 0 <= i < |s.allOf| ==> SchemaHolds(s.allOf[i], p, q))
    && (forall i :: 0 <= i < |s.anyOf| ==> SchemaHolds(s.anyOf[i], p, q))
    && (forall i :: 0 <= i < |s.oneOf| ==> SchemaHolds(s.oneOf[i], p, q))
  }

  ghost predicate OptionFieldsHold(s: Schema, p: string -> bool, q: Schema -> bool)
    decreases s, 0
  {
    (s.not.Some? ==> SchemaHolds(s.not.value, p, q))
    && (s.additionalProperties.Some? && s.additionalProperties.value.schema.Some? ==>
          SchemaHolds(s.additionalProperties.value.schema.value, p, q))
    && (s.additionalItems.Some? && s.additionalItems.value.schema.Some? ==>
          SchemaHolds(s.additionalItems.value.schema.value, p, q))
  }

  ghost predicate ItemsFieldHolds(s: Schema, p: string -> bool, q: Schema -> bool)
    decreases s, 0
  {
    match s.items
    case Some(OneSchema(x)) => SchemaHolds(x, p, q)
    case Some(SchemaList(xs)) => forall i :: 0 <= i < |xs| ==> SchemaHolds(xs[i], p, q)
    case None => true
  }

  /// The same condition on the other kinds of field the walker descends into.

  ghost predicate MapHolds(m: map<string, Schema>, p: string -> bool, q: Schema -> bool)
  {
    forall k :: k in m ==> SchemaHolds(m[k], p, q)
  }

  ghost predicate SeqHolds(xs: seq<Schema>, p: string -> bool, q: Schema -> bool)
  {
    forall i :: 0 <= i < |xs| ==> SchemaHolds(xs[i], p, q)
  }

  ghost predicate OptHolds(o: Option<Schema>, p: string -> bool, q: Schema -> bool)
  {
    o.Some? ==> SchemaHolds(o.value, p, q)
  }

  ghost predicate SchemaOrBoolHolds(o: Option<SchemaOrBool>, p: string -> bool, q: Schema -> bool)
  {
    o.Some? && o.value.schema.Some? ==> SchemaHolds(o.value.schema.value, p, q)
  }

  ghost predicate SchemaOrArrayHolds(o: Option<SchemaOrArray>, p: string -> bool, q: Schema -> bool)
  {
    match o
    case Some(OneSchema(x)) => SchemaHolds(x, p, q)
    case Some(SchemaList(xs)) => forall i :: 0 <= i < |xs| ==> SchemaHolds(xs[i], p, q)
    case None => true
  }

  /** The callback conditions of a walk that changes nothing. */
  ghost predicate FixesRef(rf: string -> string, r: string)
  {
    rf(r) == r
  }

  ghost predicate FixesSchema(sf: Schema -> Schema, s: Schema)
  {
    sf(s) == s
  }

  /** The schema condition that asks nothing. */
  predicate Always(s: Schema)
  {
    true
  }

  /** `p` holding of every reference is carried over, through `rf`, to `q`. */
  ghost predicate Carries(rf: string -> string, p: string -> bool, q: string -> bool)
  {
    forall r :: p(r) ==> q(rf(r))
  }
}
