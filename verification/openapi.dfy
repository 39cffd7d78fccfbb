/** The OpenAPI 3.0 object model the converter builds: the fields of the
    swagger-models classes that the mappers set, as immutable values. An
    unset field is `None`; maps keep insertion order (`OMap`). */
module OpenApi {
  import opened Wrappers
  import opened Values
  import opened OrderedMaps

  /** The prefix of every `$ref` the converter writes. */
  const REF_PREFIX := "#/components/schemas/"

  /** The text of the `$ref` pointing at the component schema `name`. */
  function RefUri(name: string): string {
    REF_PREFIX + name
  }

  /** A schema: the shape-specific part plus the fields every schema carries. */
  datatype Schema = Schema(
    body: SchemaBody,
    title: Option<string>,
    description: Option<string>,
    example: Option<Value>,
    defaultValue: Option<Value>,
    extensions: OMap<Value>)

  /** Which swagger schema class was instantiated and what was set on it.
      `Ref(name)` is a plain schema whose `$ref` is `RefUri(name)`. An object
      schema's `properties` are only ever set to a non-empty map, so `[]`
      stands for "not set". */
  datatype SchemaBody =
    | Ref(target: string)
    | ObjectSchema(properties: OMap<Schema>, required: Option<seq<string>>, additionalProperties: Option<bool>)
    | ArraySchema(items: Option<Schema>, minItems: Option<int>, maxItems: Option<int>, uniqueItems: Option<bool>)
    | StringSchema(format: Option<string>, pattern: Option<string>, minLength: Option<int>, maxLength: Option<int>, enumValues: Option<seq<string>>)
    | IntegerSchema(intFormat: Option<string>, minimum: Option<int>, maximum: Option<int>, multipleOf: Option<int>)
    | NumberSchema(numFormat: Option<string>, numMinimum: Option<DecimalLiteral>, numMaximum: Option<DecimalLiteral>, numMultipleOf: Option<DecimalLiteral>)
    | BooleanSchema
    | AllOf(parts: seq<Schema>)
    | OneOf(alternatives: seq<Schema>)

  /** A schema with only its body set. */
  function Bare(b: SchemaBody): (s: Schema)
    ensures s.body == b && s.title.None? && s.description.None? && s.extensions == []
  {
    Schema(b, None, None, None, None, [])
  }

  /** `new ObjectSchema()`: an object schema with nothing set. */
  const EmptyObject := Bare(ObjectSchema([], None, None))

  /** `P` holds of the body of `s` and of every schema nested inside it
      (properties, items, `allOf` parts, `oneOf` alternatives). */
  predicate AllNodes(s: Schema, P: SchemaBody -> bool)
    decreases s, 1
  {
    BodyAllNodes(s.body, P)
  }

  predicate BodyAllNodes(b: SchemaBody, P: SchemaBody -> bool)
    decreases b, 0
  {
    P(b) &&
    match b
    case ObjectSchema(props, _, _) => forall p | p in props :: AllNodes(p.1, P)
    case ArraySchema(items, _, _, _) => items.Some? ==> AllNodes(items.value, P)
    case AllOf(parts) => forall p | p in parts :: AllNodes(p, P)
    case OneOf(alts) => forall a | a in alts :: AllNodes(a, P)
    case _ => true
  }

  /** Every `$ref` anywhere inside `s` names a member of `names`. */
  predicate AllRefsIn(s: Schema, names: set<string>) {
    AllNodes(s, (b: SchemaBody) => !b.Ref? || b.target in names)
  }

  /** No `allOf` composition anywhere inside `s`. */
  predicate NoAllOf(s: Schema) {
    AllNodes(s, (b: SchemaBody) => !b.AllOf?)
  }

  datatype ParamLocation = InPath | InQuery | InHeader

  datatype Parameter = Parameter(
    location: ParamLocation,
    name: string,
    required: Option<bool>,
    description: Option<string>,
    schema: Schema,
    example: Option<string>)

  datatype Example = Example(value: Option<Value>, summary: Option<string>)

  datatype MediaType = MediaType(schema: Schema, examples: Option<OMap<Example>>, example: Option<Value>)

  datatype Header = Header(description: Option<string>, required: bool, schema: Schema, example: Option<string>)

  datatype ApiResponse = ApiResponse(
    description: string,
    content: Option<OMap<MediaType>>,
    headers: Option<OMap<Header>>)

  datatype RequestBody = RequestBody(content: OMap<MediaType>, required: bool, description: Option<string>)

  /** A security requirement naming one scheme with its scopes. */
  datatype SecurityRequirement = Requirement(scheme: string, scopes: seq<string>)

  datatype Operation = Operation(
    operationId: string,
    summary: Option<string>,
    description: Option<string>,
    parameters: Option<seq<Parameter>>,
    requestBody: Option<RequestBody>,
    responses: OMap<ApiResponse>,
    security: Option<seq<SecurityRequirement>>)

  datatype PathItem = PathItem(
    description: Option<string>,
    get: Option<Operation>,
    post: Option<Operation>,
    put: Option<Operation>,
    delete: Option<Operation>,
    patch: Option<Operation>,
    head: Option<Operation>,
    options: Option<Operation>,
    trace: Option<Operation>)

  const EmptyPathItem := PathItem(None, None, None, None, None, None, None, None, None)

  datatype SchemeType = OAuth2 | ApiKey | Http

  datatype KeyLocation = KeyInHeader | KeyInQuery

  datatype OAuthFlow = OAuthFlow(authorizationUrl: Option<string>, tokenUrl: Option<string>, scopes: OMap<string>)

  datatype OAuthFlows = OAuthFlows(
    implicit: Option<OAuthFlow>,
    password: Option<OAuthFlow>,
    clientCredentials: Option<OAuthFlow>,
    authorizationCode: Option<OAuthFlow>)

  const NoFlows := OAuthFlows(None, None, None, None)

  datatype SecurityScheme = SecurityScheme(
    schemeType: Option<SchemeType>,
    description: Option<string>,
    flows: Option<OAuthFlows>,
    keyLocation: Option<KeyLocation>,
    keyName: Option<string>,
    httpScheme: Option<string>,
    extensions: OMap<Value>)

  datatype ServerVariable = ServerVariable(description: Option<string>, defaultValue: string, enumValues: Option<seq<string>>)

  datatype Server = Server(url: string, description: Option<string>, variables: Option<OMap<ServerVariable>>)

  datatype Info = Info(title: string, version: string, description: Option<string>, extensions: OMap<Value>)

  datatype Components = Components(schemas: Option<OMap<Schema>>, securitySchemes: Option<OMap<SecurityScheme>>)

  datatype Document = Document(
    openapi: string,
    info: Info,
    servers: seq<Server>,
    components: Components,
    paths: Option<OMap<PathItem>>)
}
