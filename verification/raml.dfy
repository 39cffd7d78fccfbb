/** The parsed RAML 1.0 tree the converter reads: the part of the RAML
    parser's object model the mappers consult, as immutable values. A Java
    `null` is `None`; a null list and an empty list are the same `[]`
    (every mapper tests `list != null && !list.isEmpty()`). */
module Raml {
  import opened Wrappers
  import opened Values

  /** An annotation application: its name and its structured value, `None`
      when the structured value (or its value) is null. */
  datatype Annotation = Annotation(name: string, value: Option<Value>)

  /** One entry of a multi-example `examples:` facet. */
  datatype ExampleSpec = ExampleSpec(name: string, value: Option<string>)

  /** A type declaration: a named type in `types:`, an object property, a
      parameter, a header or a body (whose `name` is its media type).
      `typeExpr` is what the parser's `type()` returns: the parent type
      expression (`"object"`, `"string"`, `"Product"`, `"Product[]"`, ...).
      `required` is a nullable `Boolean`. */
  datatype TypeDecl = TypeDecl(
    name: string,
    typeExpr: Option<string>,
    kind: TypeKind,
    required: Option<bool>,
    displayName: Option<string>,
    description: Option<string>,
    example: Option<string>,
    examples: seq<ExampleSpec>,
    defaultValue: Option<string>,
    annotations: seq<Annotation>)

  /** The runtime class of the declaration, with the facets each class has. */
  datatype TypeKind =
    | StringKind(pattern: Option<string>, minLength: Option<int>, maxLength: Option<int>, enumValues: seq<string>)
    | IntegerKind(format: Option<string>, minimum: Option<int>, maximum: Option<int>, multipleOf: Option<int>)
    | NumberKind(numFormat: Option<string>, numMinimum: Option<DecimalLiteral>, numMaximum: Option<DecimalLiteral>, numMultipleOf: Option<DecimalLiteral>)
    | BooleanKind
    | ArrayKind(items: Option<TypeDecl>, minItems: Option<int>, maxItems: Option<int>, uniqueItems: Option<bool>)
    | ObjectKind(properties: seq<TypeDecl>)
    | UnionKind(alternatives: seq<TypeDecl>)
    | DateTimeKind(dateFormat: Option<string>)
    | FileKind(fileTypes: seq<string>, fileMinLength: Option<int>, fileMaxLength: Option<int>)
    | OtherKind

  datatype Response = Response(
    code: string,
    description: Option<string>,
    body: seq<TypeDecl>,
    headers: seq<TypeDecl>)

  /** An entry of a `securedBy` list. `NullRef` is a null element (the RAML
      `null` marker); a reference carries its name (which may itself be null)
      and the scopes read from its structured value (`None` when there is no
      structured value). */
  datatype SchemeRef =
    | NullRef
    | SchemeRef(refName: Option<string>, scopes: Option<seq<string>>)

  datatype Method = Method(
    verb: string,
    description: Option<string>,
    displayName: Option<string>,
    queryParameters: seq<TypeDecl>,
    headers: seq<TypeDecl>,
    body: seq<TypeDecl>,
    responses: seq<Response>,
    securedBy: seq<SchemeRef>)

  datatype Resource = Resource(
    resourcePath: string,
    description: Option<string>,
    uriParameters: seq<TypeDecl>,
    methods: seq<Method>,
    resources: seq<Resource>,
    securedBy: seq<SchemeRef>)

  /** OAuth 2.0 settings as the security mapper reads them (null list
      elements already dropped). */
  datatype OAuth2Settings = OAuth2Settings(
    authorizationUri: Option<string>,
    accessTokenUri: Option<string>,
    scopes: seq<string>,
    authorizationGrants: seq<string>)

  /** The `describedBy` block of a scheme: names of its headers and query parameters. */
  datatype DescribedBy = DescribedBy(headers: seq<string>, queryParameters: seq<string>)

  datatype SecurityScheme = SecurityScheme(
    name: string,
    schemeType: Option<string>,
    description: Option<string>,
    settings: Option<OAuth2Settings>,
    describedBy: Option<DescribedBy>)

  datatype DocumentationItem = DocumentationItem(title: Option<string>, content: Option<string>)

  datatype Api = Api(
    title: Option<string>,
    version: Option<string>,
    description: Option<string>,
    baseUri: Option<string>,
    baseUriParameters: seq<TypeDecl>,
    mediaType: seq<string>,
    documentation: seq<DocumentationItem>,
    types: seq<TypeDecl>,
    securitySchemes: seq<SecurityScheme>,
    resources: seq<Resource>,
    securedBy: seq<SchemeRef>)

  /** `type.type()` as the code tests it: present and equal to `s`. */
  predicate TypeIs(t: TypeDecl, s: string) {
    t.typeExpr == Some(s)
  }
}
