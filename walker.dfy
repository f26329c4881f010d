/**
 * The copy-on-write tree walker. Every walk is a pure function: it applies
 * the schema callback to each schema before anything else, walks the
 * callback's result, and hands every `$ref` to the ref callback. Go's
 * "clone only when a child changed" becomes value equality: when no
 * callback changes anything the result is the input itself
 * (`WalkRootFixed`).
 */
module Walker {
  import opened Wrappers
  import opened OpenApi
  import opened Heights

  /** `RefCallbackNoop`: hands every reference back unchanged. */
  function RefCallbackNoop(ref: string): string
  {
    ref
  }

  /** `SchemaCallBackNoop`: hands every schema back unchanged, so it never makes a tree taller. */
  function SchemaCallbackNoop(s: Schema): (r: Schema)
    ensures Height(r) == Height(s)
  {
    s
  }

  /** `WalkSchema`: callback first, then the ref and every nested schema of the callback's result. */
  function WalkSchema(s: Schema, rf: string -> string, sf: Schema -> Schema): (r: Schema)
    requires HeightPreserving(sf)
    ensures r.ref == rf(sf(s).ref) && r.extensions == sf(s).extensions && r.keywords == sf(s).keywords
    ensures r.definitions.Keys == sf(s).definitions.Keys && r.properties.Keys == sf(s).properties.Keys
    ensures r.patternProperties.Keys == sf(s).patternProperties.Keys
    ensures |r.allOf| == |sf(s).allOf| && |r.anyOf| == |sf(s).anyOf| && |r.oneOf| == |sf(s).oneOf|
    decreases Height(s), 3
  {
    WalkNested(sf(s), Height(s), rf, sf)
  }

  /** The part of `WalkSchema` after the callback: rebuilds `t` from walked children. */
  function WalkNested(t: Schema, ghost bound: nat, rf: string -> string, sf: Schema -> Schema): (r: Schema)
    requires HeightPreserving(sf) && Height(t) <= bound
    ensures r.ref == rf(t.ref) && r.extensions == t.extensions && r.keywords == t.keywords
    ensures r.definitions.Keys == t.definitions.Keys && r.properties.Keys == t.properties.Keys
    ensures r.patternProperties.Keys == t.patternProperties.Keys
    ensures |r.allOf| == |t.allOf| && |r.anyOf| == |t.anyOf| && |r.oneOf| == |t.oneOf|
    decreases bound, 2
  {
    HeightBounds(t);
    Schema(
      rf(t.ref),
      WalkSchemaMap(t.definitions, bound, rf, sf),
      WalkSchemaMap(t.properties, bound, rf, sf),
      WalkSchemaMap(t.patternProperties, bound, rf, sf),
      WalkSchemaSeq(t.allOf, bound, rf, sf),
      WalkSchemaSeq(t.anyOf, bound, rf, sf),
      WalkSchemaSeq(t.oneOf, bound, rf, sf),
      WalkOptSchema(t.not, bound, rf, sf),
      WalkSchemaOrBool(t.additionalProperties, bound, rf, sf),
      WalkSchemaOrBool(t.additionalItems, bound, rf, sf),
      WalkSchemaOrArray(t.items, bound, rf, sf),
      t.extensions,
      t.keywords)
  }

  function WalkSchemaMap(m: map<string, Schema>, ghost bound: nat, rf: string -> string, sf: Schema -> Schema)
    : (r: map<string, Schema>)
    requires HeightPreserving(sf) && forall k :: k in m ==> Height(m[k]) < bound
    ensures r.Keys == m.Keys && forall k :: k in m ==> r[k] == WalkSchema(m[k], rf, sf)
    decreases bound, 0
  {
    map k | k in m :: WalkSchema(m[k], rf, sf)
  }

  function WalkSchemaSeq(xs: seq<Schema>, ghost bound: nat, rf: string -> string, sf: Schema -> Schema)
    : (r: seq<Schema>)
    requires HeightPreserving(sf) && forall i :: 0 <= i < |xs| ==> Height(xs[i]) < bound
    ensures |r| == |xs| && forall i :: 0 <= i < |xs| ==> r[i] == WalkSchema(xs[i], rf, sf)
    decreases bound, 0
  {
    seq(|xs|, i requires 0 <= i < |xs| => WalkSchema(xs[i], rf, sf))
  }

  function WalkOptSchema(o: Option<Schema>, ghost bound: nat, rf: string -> string, sf: Schema -> Schema)
    : (r: Option<Schema>)
    requires HeightPreserving(sf) && (o.Some? ==> Height(o.value) < bound)
    ensures r.Some? == o.Some?
    decreases bound, 0
  {
    if o.Some? then Some(WalkSchema(o.value, rf, sf)) else None
  }

  function WalkSchemaOrBool(o: Option<SchemaOrBool>, ghost bound: nat, rf: string -> string, sf: Schema -> Schema)
    : (r: Option<SchemaOrBool>)
    requires HeightPreserving(sf) && (o.Some? && o.value.schema.Some? ==> Height(o.value.schema.value) < bound)
    ensures r.Some? == o.Some? && (r.Some? ==> r.value.allows == o.value.allows)
    decreases bound, 0
  {
    if o.None? then None
    else Some(SchemaOrBool(o.value.allows, if o.value.schema.Some? then Some(WalkSchema(o.value.schema.value, rf, sf)) else None))
  }

  function WalkSchemaOrArray(o: Option<SchemaOrArray>, ghost bound: nat, rf: string -> string, sf: Schema -> Schema)
    : (r: Option<SchemaOrArray>)
    requires HeightPreserving(sf)
    requires o.Some? && o.value.OneSchema? ==> Height(o.value.schema) < bound
    requires o.Some? && o.value.SchemaList? ==> forall i :: 0 <= i < |o.value.schemas| ==> Height(o.value.schemas[i]) < bound
    ensures r.Some? == o.Some? && (r.Some? ==> r.value.OneSchema? == o.value.OneSchema?)
    decreases bound, 1
  {
    match o
    case None => None
    case Some(OneSchema(x)) => Some(OneSchema(WalkSchema(x, rf, sf)))
    case Some(SchemaList(xs)) => Some(SchemaList(WalkSchemaSeq(xs, bound, rf, sf)))
  }

  /** `WalkSchema` on an optional schema: an absent schema stays absent. */
  function WalkSchemaPtr(o: Option<Schema>, rf: string -> string, sf: Schema -> Schema): (r: Option<Schema>)
    requires HeightPreserving(sf)
    ensures r.Some? == o.Some?
  {
    if o.Some? then Some(WalkSchema(o.value, rf, sf)) else None
  }

  /**
   * `walkParameter`, with the `items` reference rewritten on a copy: the
   * parameter's ref, its schema and its items' ref are walked, nothing else.
   */
  function WalkParameter(p: Parameter, rf: string -> string, sf: Schema -> Schema): (r: Parameter)
    requires HeightPreserving(sf)
    ensures r.keywords == p.keywords && r.items.Some? == p.items.Some?
    ensures r.items.Some? ==> r.items.value.keywords == p.items.value.keywords
  {
    Parameter(
      rf(p.ref),
      WalkSchemaPtr(p.schema, rf, sf),
      if p.items.Some? then Some(Items(rf(p.items.value.ref), p.items.value.keywords)) else None,
      p.keywords)
  }

  /** A parameter list walked element by element. */
  function WalkParameterSeq(ps: seq<Parameter>, rf: string -> string, sf: Schema -> Schema): (r: seq<Parameter>)
    requires HeightPreserving(sf)
    ensures |r| == |ps|
  {
    seq(|ps|, i requires 0 <= i < |ps| => WalkParameter(ps[i], rf, sf))
  }

  /**
   * `walkParameters`: the walked list, and whether any parameter of it was
   * rebuilt.
   */
  function WalkParameters(ps: seq<Parameter>, rf: string -> string, sf: Schema -> Schema)
    : (r: (seq<Parameter>, bool))
    requires HeightPreserving(sf)
    ensures r.0 == WalkParameterSeq(ps, rf, sf)
    ensures r.1 <==> r.0 != ps
  {
    var walked := WalkParameterSeq(ps, rf, sf);
    (walked, exists i :: 0 <= i < |ps| && walked[i] != ps[i])
  }

  /** `walkResponse`: the response's ref and its schema. */
  function WalkResponse(resp: Response, rf: string -> string, sf: Schema -> Schema): (r: Response)
    requires HeightPreserving(sf)
    ensures r.keywords == resp.keywords && r.schema.Some? == resp.schema.Some?
  {
    Response(rf(resp.ref), WalkSchemaPtr(resp.schema, rf, sf), resp.keywords)
  }

  /** `walkResponses`: the default response and every status-code response. */
  function WalkResponses(o: Option<Responses>, rf: string -> string, sf: Schema -> Schema): (r: Option<Responses>)
    requires HeightPreserving(sf)
    ensures r.Some? == o.Some?
    ensures r.Some? ==> r.value.statusCodeResponses.Keys == o.value.statusCodeResponses.Keys
    ensures r.Some? ==> r.value.extensions == o.value.extensions
  {
    if o.None? then None
    else
      var resps := o.value;
      Some(Responses(
        if resps.default.Some? then Some(WalkResponse(resps.default.value, rf, sf)) else None,
        map c | c in resps.statusCodeResponses :: WalkResponse(resps.statusCodeResponses[c], rf, sf),
        resps.extensions))
  }

  /** `walkOperation`: every parameter and the responses. */
  function WalkOperation(o: Option<Operation>, rf: string -> string, sf: Schema -> Schema): (r: Option<Operation>)
    requires HeightPreserving(sf)
    ensures r.Some? == o.Some?
    ensures r.Some? ==> |r.value.parameters| == |o.value.parameters| && r.value.keywords == o.value.keywords
  {
    if o.None? then None
    else
      Some(Operation(
        WalkParameterSeq(o.value.parameters, rf, sf),
        WalkResponses(o.value.responses, rf, sf),
        o.value.keywords))
  }

  /** `walkPathItem`: the shared parameters and the seven operations. */
  function WalkPathItem(item: PathItem, rf: string -> string, sf: Schema -> Schema): (r: PathItem)
    requires HeightPreserving(sf)
    ensures r.extensions == item.extensions && |r.parameters| == |item.parameters|
  {
    PathItem(
      WalkParameters(item.parameters, rf, sf).0,
      WalkOperation(item.get, rf, sf),
      WalkOperation(item.put, rf, sf),
      WalkOperation(item.post, rf, sf),
      WalkOperation(item.delete, rf, sf),
      WalkOperation(item.options, rf, sf),
      WalkOperation(item.head, rf, sf),
      WalkOperation(item.patch, rf, sf),
      item.extensions)
  }

  /** `walkPaths`: every path item, under the same path. */
  function WalkPaths(o: Option<Paths>, rf: string -> string, sf: Schema -> Schema): (r: Option<Paths>)
    requires HeightPreserving(sf)
    ensures r.Some? == o.Some?
    ensures r.Some? ==> r.value.paths.Keys == o.value.paths.Keys && r.value.extensions == o.value.extensions
  {
    if o.None? then None
    else
      Some(Paths(
        map k | k in o.value.paths :: WalkPathItem(o.value.paths[k], rf, sf),
        o.value.extensions))
  }

  /** `WalkRoot`: the parameters, responses and definitions maps, then the paths. */
  function WalkRoot(sw: Swagger, rf: string -> string, sf: Schema -> Schema): (r: Swagger)
    requires HeightPreserving(sf)
    ensures r.definitions.Keys == sw.definitions.Keys && r.parameters.Keys == sw.parameters.Keys
    ensures r.responses.Keys == sw.responses.Keys && r.keywords == sw.keywords
    ensures r.paths.Some? == sw.paths.Some?
    ensures r.paths.Some? ==> r.paths.value.paths.Keys == sw.paths.value.paths.Keys
  {
    Swagger(
      WalkPaths(sw.paths, rf, sf),
      WalkDefinitions(sw.definitions, rf, sf),
      WalkParameterMap(sw.parameters, rf, sf),
      WalkResponseMap(sw.responses, rf, sf),
      sw.keywords)
  }

  /// The three maps of the root, each entry walked on its own.

  function WalkDefinitions(m: map<string, Schema>, rf: string -> string, sf: Schema -> Schema): (r: map<string, Schema>)
    requires HeightPreserving(sf)
    ensures r.Keys == m.Keys && forall k :: k in m ==> r[k] == WalkSchema(m[k], rf, sf)
  {
    map k | k in m :: WalkSchema(m[k], rf, sf)
  }

  function WalkParameterMap(m: map<string, Parameter>, rf: string -> string, sf: Schema -> Schema): (r: map<string, Parameter>)
    requires HeightPreserving(sf)
    ensures r.Keys == m.Keys && forall k :: k in m ==> r[k] == WalkParameter(m[k], rf, sf)
  {
    map k | k in m :: WalkParameter(m[k], rf, sf)
  }

  function WalkResponseMap(m: map<string, Response>, rf: string -> string, sf: Schema -> Schema): (r: map<string, Response>)
    requires HeightPreserving(sf)
    ensures r.Keys == m.Keys && forall k :: k in m ==> r[k] == WalkResponse(m[k], rf, sf)
  {
    map k | k in m :: WalkResponse(m[k], rf, sf)
  }

  lemma NoopPreservesHeight()
    ensures HeightPreserving(SchemaCallbackNoop)
  {
  }

  /** `ReplaceReferences`: a walk with the given ref callback and `SchemaCallBackNoop`. */
  function ReplaceReferences(rf: string -> string, sw: Swagger): (r: Swagger)
    ensures r.definitions.Keys == sw.definitions.Keys && r.parameters.Keys == sw.parameters.Keys
    ensures r.responses.Keys == sw.responses.Keys && r.keywords == sw.keywords
    ensures r.paths.Some? == sw.paths.Some?
    ensures r.paths.Some? ==> r.paths.value.paths.Keys == sw.paths.value.paths.Keys
  {
    NoopPreservesHeight();
    WalkRoot(sw, rf, SchemaCallbackNoop)
  }
}
