/**
 * The `$ref` strings a document contains, collected level by level along
 * the same fields the walker visits.
 */
module References {
  import opened Wrappers
  import opened OpenApi
  import opened Heights

  /** Every `$ref` of `s` and of the schemas nested in it (the empty ref included). */
  function SchemaRefs(s: Schema): (r: set<string>)
    ensures s.ref in r
    decreases Height(s), 1
  {
    HeightBounds(s);
    var b := Height(s);
    {s.ref} + SchemaMapRefs(s.definitions, b) + SchemaMapRefs(s.properties, b)
    + SchemaMapRefs(s.patternProperties, b) + SchemaSeqRefs(s.allOf, b) + SchemaSeqRefs(s.anyOf, b)
    + SchemaSeqRefs(s.oneOf, b) + OptSchemaRefs(s.not, b) + SchemaOrBoolRefs(s.additionalProperties, b)
    + SchemaOrBoolRefs(s.additionalItems, b) + SchemaOrArrayRefs(s.items, b)
  }

  function SchemaMapRefs(m: map<string, Schema>, ghost bound: nat): (r: set<string>)
    requires forall k :: k in m ==> Height(m[k]) < bound
    ensures forall k :: k in m ==> SchemaRefs(m[k]) <= r
    decreases bound, 0
  {
    set k, x | k in m && x in SchemaRefs(m[k]) :: x
  }

  function SchemaSeqRefs(xs: seq<Schema>, ghost bound: nat): (r: set<string>)
    requires forall i :: 0 <= i < |xs| ==> Height(xs[i]) < bound
    ensures forall i :: 0 <= i < |xs| ==> SchemaRefs(xs[i]) <= r
    decreases bound, 0
  {
    set i, x | 0 <= i < |xs| && x in SchemaRefs(xs[i]) :: x
  }

  function OptSchemaRefs(o: Option<Schema>, ghost bound: nat): set<string>
    requires o.Some? ==> Height(o.value) < bound
    decreases bound, 0
  {
    if o.Some? then SchemaRefs(o.value) else {}
  }

  function SchemaOrBoolRefs(o: Option<SchemaOrBool>, ghost bound: nat): set<string>
    requires o.Some? && o.value.schema.Some? ==> Height(o.value.schema.value) < bound
    decreases bound, 0
  {
    if o.Some? && o.value.schema.Some? then SchemaRefs(o.value.schema.value) else {}
  }

  function SchemaOrArrayRefs(o: Option<SchemaOrArray>, ghost bound: nat): set<string>
    requires o.Some? && o.value.OneSchema? ==> Height(o.value.schema) < bound
    requires o.Some? && o.value.SchemaList? ==> forall i :: 0 <= i < |o.value.schemas| ==> Height(o.value.schemas[i]) < bound
    decreases bound, 0
  {
    match o
    case None => {}
    case Some(OneSchema(x)) => SchemaRefs(x)
    case Some(SchemaList(xs)) => set i, x | 0 <= i < |xs| && x in SchemaRefs(xs[i]) :: x
  }

  function SchemaPtrRefs(o: Option<Schema>): set<string>
  {
    if o.Some? then SchemaRefs(o.value) else {}
  }

  function ParameterRefs(p: Parameter): (r: set<string>)
    ensures p.ref in r && SchemaPtrRefs(p.schema) <= r
  {
    {p.ref} + SchemaPtrRefs(p.schema) + (if p.items.Some? then {p.items.value.ref} else {})
  }

  function ParameterSeqRefs(ps: seq<Parameter>): (r: set<string>)
    ensures forall i :: 0 <= i < |ps| ==> ParameterRefs(ps[i]) <= r
  {
    set i, x | 0 <= i < |ps| && x in ParameterRefs(ps[i]) :: x
  }

  function ResponseRefs(resp: Response): (r: set<string>)
    ensures resp.ref in r
  {
    {resp.ref} + SchemaPtrRefs(resp.schema)
  }

  function ResponsesRefs(o: Option<Responses>): set<string>
  {
    if o.None? then {}
    else
      (if o.value.default.Some? then ResponseRefs(o.value.default.value) else {})
      + set c, x | c in o.value.statusCodeResponses && x in ResponseRefs(o.value.statusCodeResponses[c]) :: x
  }

  function OperationRefs(o: Option<Operation>): set<string>
  {
    if o.None? then {} else ParameterSeqRefs(o.value.parameters) + ResponsesRefs(o.value.responses)
  }

  function PathItemRefs(item: PathItem): set<string>
  {
    ParameterSeqRefs(item.parameters) + OperationRefs(item.get) + OperationRefs(item.put)
    + OperationRefs(item.post) + OperationRefs(item.delete) + OperationRefs(item.options)
    + OperationRefs(item.head) + OperationRefs(item.patch)
  }

  function PathsRefs(o: Option<Paths>): (r: set<string>)
    ensures o.Some? ==> forall k :: k in o.value.paths ==> PathItemRefs(o.value.paths[k]) <= r
  {
    if o.None? then {} else set k, x | k in o.value.paths && x in PathItemRefs(o.value.paths[k]) :: x
  }
}
