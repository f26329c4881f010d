/**
 * The part of the Swagger 2.0 document model that the merge engine looks at:
 * every node the walker visits, every `$ref`, and the vendor extensions that
 * carry the group/version/kind metadata. On the nodes the engine compares
 * or copies as values (schemas, parameters, responses, operations, the
 * document), the fields it never walks are kept as opaque `keywords` so that
 * equality still sees them. A path item is only ever copied by its key, so it
 * keeps just the fields the walker visits; its own `$ref` is dropped.
 */
module OpenApi {
  import opened Wrappers

  /** Prefix of a reference to a reusable definition. */
  const DefinitionPrefix: string := "#/definitions/"
  /** Prefix of a reference to a reusable parameter. */
  const ParameterPrefix: string := "#/parameters/"
  /** The vendor extension that lists the group/version/kinds a definition came from. */
  const GvkKey: string := "x-kubesphere-group-version-kind"

  /** A decoded JSON value, the dynamic type of an extension value. */
  datatype Json =
    | JNull
    | JBool(b: bool)
    | JNumber(n: int)
    | JString(s: string)
    | JArray(elems: seq<Json>)
    | JObject(fields: map<string, Json>)

  /** `additionalProperties` / `additionalItems`: a flag and an optional schema. */
  datatype SchemaOrBool = SchemaOrBool(allows: bool, schema: Option<Schema>)

  /** `items`: either one schema or a list of schemas. */
  datatype SchemaOrArray = OneSchema(schema: Schema) | SchemaList(schemas: seq<Schema>)

  datatype Schema = Schema(
    ref: string,
    definitions: map<string, Schema>,
    properties: map<string, Schema>,
    patternProperties: map<string, Schema>,
    allOf: seq<Schema>,
    anyOf: seq<Schema>,
    oneOf: seq<Schema>,
    not: Option<Schema>,
    additionalProperties: Option<SchemaOrBool>,
    additionalItems: Option<SchemaOrBool>,
    items: Option<SchemaOrArray>,
    extensions: map<string, Json>,
    keywords: map<string, Json>)

  /** A schema with no field set. */
  const EmptySchema: Schema := Schema("", map[], map[], map[], [], [], [], None, None, None, None, map[], map[])

  /** The `items` of a non-body parameter; only its `$ref` is walked. */
  datatype Items = Items(ref: string, keywords: map<string, Json>)

  datatype Parameter = Parameter(
    ref: string,
    schema: Option<Schema>,
    items: Option<Items>,
    keywords: map<string, Json>)

  datatype Response = Response(ref: string, schema: Option<Schema>, keywords: map<string, Json>)

  datatype Responses = Responses(
    default: Option<Response>,
    statusCodeResponses: map<int, Response>,
    extensions: map<string, Json>)

  datatype Operation = Operation(
    parameters: seq<Parameter>,
    responses: Option<Responses>,
    keywords: map<string, Json>)

  datatype PathItem = PathItem(
    parameters: seq<Parameter>,
    get: Option<Operation>,
    put: Option<Operation>,
    post: Option<Operation>,
    delete: Option<Operation>,
    options: Option<Operation>,
    head: Option<Operation>,
    patch: Option<Operation>,
    extensions: map<string, Json>)

  datatype Paths = Paths(paths: map<string, PathItem>, extensions: map<string, Json>)

  /** The root document. `paths` is `None` for a document with no `paths` object at all. */
  datatype Swagger = Swagger(
    paths: Option<Paths>,
    definitions: map<string, Schema>,
    parameters: map<string, Parameter>,
    responses: map<string, Response>,
    keywords: map<string, Json>)
}
