# RAML 1.0 to OpenAPI 3.0 conversion core, in Dafny

This project is a Dafny model of the conversion core of `raml-to-openapi`.
That tool reads a RAML 1.0 API description and produces an OpenAPI 3.0.0
document. Each class of the core is one module here:

- `TypeConverter` turns one RAML type declaration into a schema.
- `SchemaMapper` handles the `types` section. It registers every declared
  name, maps each declaration and synthesises `<T>Array` schemas for
  `T[]` body types.
- `MethodMapper` builds one operation. That covers the operation ID,
  parameters, request body, responses and inherited `securedBy`.
- `ResponseMapper` builds responses and examples.
- `ParameterMapper` builds parameters and `PropertyMapper` builds
  property schemas.
- `SecurityMapper` builds security schemes and OAuth 2.0 flows.
- `ServerMapper` builds servers.
- `InfoMapper` builds the info object.
- `PathMapper` walks the resource tree depth-first.
- `MapperContext` is the per-conversion registry. `RamlDocuments` is the
  parsed document.
- `Converter` is `RamlToOpenApiConverter`: one pipeline, the
  strict/lenient switch, and batch conversion.
- `OutputFileGenerator` gives output file names and paths.
- `RamlFileValidator` runs the checks made on an input file.

Shared modules:

- `Wrappers`: `Option`, `Result`, and the two exceptions the core can
  raise, `ConverterException` and a null dereference.
- `Values`: example and extension values.
- `Strings`: Java `trim`, `\s`, and ASCII case folding.
- `Decimal`: integer text and `Integer.parseInt` on 32 bits.
- `OrderedMaps`: `LinkedHashMap` as a sequence of pairs, where `put` on
  an existing key replaces the value in place.
- `Seqs`, `Raml` (the parsed input tree) and `OpenApi` (the output
  objects).

Mutation is modelled functionally:

- A mapper's side effects on the output object or the context become
  part of its result.
- The strict flag and the schema-name registry are passed explicitly.
- A Java exception is the `Err` branch of an `Outcome`.
- Lenient mode logs a failure and goes on.

Some inputs are unboxed or dereferenced without a null check, such as a
boxed `required()` flag, a security scheme's `type()`, or a `securedBy`
element. The model keeps these as `Option` values. The resulting
`NullPointer` error is what makes a mapping fail, and so it is what the
strict and lenient paths react to.

Where the design documentation and the code disagree, the model follows
the code:

- A method without responses gets a single `default` response described
  as "Successful response". The documentation describes a `200` entry.
- In lenient mode a type declaration that fails to map is skipped. Its
  name stays registered, so `$ref`s to it dangle. The documentation speaks
  of a best-effort substitute schema.
- The request body of an operation builds its media types exactly as
  `ResponseMapper` does. The two classes hold textually identical copies
  of `mapMediaType` and `parseExampleValue`, so the model defines them
  once, in `ResponseMapper`.

## Model

| member | source | states |
|---|---|---|
| TypeConverter.CreateReference | raml-to-openapi/src/main/java/org/ballerina/ramltoopenapi/mapper/TypeConverter.java:520-529 | a reference schema whose target is the `replace("[]", "")` scan of the type name: only brackets are dropped and every other character stays in order; a bracket-free name is kept as it is |
| TypeConverter.ReferenceDropsArrayMarker | raml-to-openapi/src/main/java/org/ballerina/ramltoopenapi/mapper/TypeConverter.java:520-529 | a name with a trailing `[]` refers to the same schema as the name without it |
| Strings.RemoveBracketPairs | raml-to-openapi/src/main/java/org/ballerina/ramltoopenapi/mapper/TypeConverter.java:522 | `String.replace("[]", "")`: at most as long as its input; only `[` and `]` are dropped, with everything else kept in order; bracket-free text is unchanged |
| Strings.RemovedInPairs | raml-to-openapi/src/main/java/org/ballerina/ramltoopenapi/mapper/TypeConverter.java:522 | the text shrinks by exactly two characters per pair the scan matches |
| Strings.RemoveTrailingMarker | raml-to-openapi/src/main/java/org/ballerina/ramltoopenapi/mapper/TypeConverter.java:522 | a trailing `[]` is always removed, whatever precedes it |
| Strings.NestedPairKept | raml-to-openapi/src/main/java/org/ballerina/ramltoopenapi/mapper/TypeConverter.java:522 | a single non-overlapping scan leaves `[[]]` as `[]`, so a pair can remain |
| TypeConverter.ArrayMarkerBase | raml-to-openapi/src/main/java/org/ballerina/ramltoopenapi/mapper/TypeConverter.java:52-53 | a base is found exactly when the type name ends in `[]`, and appending `[]` to it gives the name back |
| TypeConverter.ConvertNullable | raml-to-openapi/src/main/java/org/ballerina/ramltoopenapi/mapper/TypeConverter.java:44-46 | a null declaration converts to a plain object schema |
| TypeConverter.ConvertType | raml-to-openapi/src/main/java/org/ballerina/ramltoopenapi/mapper/TypeConverter.java:41-112 | rule 1 (`T[]` with `T` registered) gives a reference to `TArray` when that is registered, else an inline array of references to `T`; rule 2 (registered name) gives a reference to it; otherwise the class dispatch; never a description or example |
| TypeConverter.ConvertStructural | raml-to-openapi/src/main/java/org/ballerina/ramltoopenapi/mapper/TypeConverter.java:84-111 | the class dispatch leaves description and example unset whatever the class |
| TypeConverter.ConvertStringType | raml-to-openapi/src/main/java/org/ballerina/ramltoopenapi/mapper/TypeConverter.java:117-142 | pattern and lengths copied; the enumeration set exactly when the declaration lists values, and then equal to them |
| TypeConverter.ConvertNumberType | raml-to-openapi/src/main/java/org/ballerina/ramltoopenapi/mapper/TypeConverter.java:147-169 | format and bounds copied unchanged into a number schema |
| TypeConverter.IntegerFormat | raml-to-openapi/src/main/java/org/ballerina/ramltoopenapi/mapper/TypeConverter.java:178-192 | a declared format wins; otherwise `int64` exactly when a bound falls outside 32 bits, and no format when there are no bounds |
| TypeConverter.ConvertIntegerType | raml-to-openapi/src/main/java/org/ballerina/ramltoopenapi/mapper/TypeConverter.java:174-218 | an integer schema with the inferred format; the default is set exactly when the default text parses as a 32-bit integer, and then to that integer |
| TypeConverter.ConvertArrayType | raml-to-openapi/src/main/java/org/ballerina/ramltoopenapi/mapper/TypeConverter.java:230-256 | the items schema is the converted declared item type, and is present exactly when one is declared; the item-count bounds and uniqueness are copied |
| TypeConverter.ConvertObjectType | raml-to-openapi/src/main/java/org/ballerina/ramltoopenapi/mapper/TypeConverter.java:261-278 | inheritance gives `allOf`, anything else a plain object schema |
| TypeConverter.RequiredNames | raml-to-openapi/src/main/java/org/ballerina/ramltoopenapi/mapper/TypeConverter.java:296-312 | a name is listed exactly when some property with that name is declared required |
| TypeConverter.CreateSimpleObjectSchema | raml-to-openapi/src/main/java/org/ballerina/ramltoopenapi/mapper/TypeConverter.java:283-318 | titled with the type's name and open to additional properties; its property keys are exactly the declared names; `required` present exactly when some property is required |
| TypeConverter.ConvertOwnPropertiesOnly | raml-to-openapi/src/main/java/org/ballerina/ramltoopenapi/mapper/TypeConverter.java:362-415 | untitled; property keys are the declared names; the last declaration of each name gives the converted property type with its description and example copied on; `required` is the list of required names, absent when empty |
| TypeConverter.OwnPropertiesKeepOrder | raml-to-openapi/src/main/java/org/ballerina/ramltoopenapi/mapper/TypeConverter.java:376-398 | with distinct property names, the own-properties schema holds one entry per declared property in declaration order, and each is the converted property type with the property's description and example copied on |
| TypeConverter.CreateInheritedSchema | raml-to-openapi/src/main/java/org/ballerina/ramltoopenapi/mapper/TypeConverter.java:323-355 | `allOf` opens with a reference to the parent; a second part exists exactly when the type has own properties, and it is the own-properties schema |
| TypeConverter.ConvertUnionType | raml-to-openapi/src/main/java/org/ballerina/ramltoopenapi/mapper/TypeConverter.java:420-435 | `oneOf` with one converted schema per alternative, in order |
| TypeConverter.ConvertDateTimeType | raml-to-openapi/src/main/java/org/ballerina/ramltoopenapi/mapper/TypeConverter.java:440-463 | always `date-time`; `x-raml-format` is set exactly when a format other than `rfc3339` is declared, and holds that format |
| TypeConverter.ConvertFileType | raml-to-openapi/src/main/java/org/ballerina/ramltoopenapi/mapper/TypeConverter.java:468-486 | a binary string with no pattern or enumeration; each length present exactly when declared and narrowed to 32 bits as `intValue` does; `x-raml-fileTypes` present exactly when file types are listed, holding that list |
| TypeConverter.FileLengthNarrowed | raml-to-openapi/src/main/java/org/ballerina/ramltoopenapi/mapper/TypeConverter.java:478-483 | a 32-bit size is kept; a larger one keeps its low 32 bits |
| Decimal.WrapInt32 | raml-to-openapi/src/main/java/org/ballerina/ramltoopenapi/mapper/TypeConverter.java:478-483 | the narrowing is congruent modulo 2^32, lands in the 32-bit range and keeps values already there |
| TypeConverter.ConvertRefsResolvable | raml-to-openapi/src/main/java/org/ballerina/ramltoopenapi/mapper/TypeConverter.java:41-112 | when every named type a declaration mentions is registered, every `$ref` the conversion writes names a registered schema |
| TypeConverter.StructuralRefsResolvable | raml-to-openapi/src/main/java/org/ballerina/ramltoopenapi/mapper/TypeConverter.java:84-111 | the same resolvability for the class dispatch, by induction over nested items and alternatives |
| TypeConverter.InheritedRefsResolvable | raml-to-openapi/src/main/java/org/ballerina/ramltoopenapi/mapper/TypeConverter.java:323-355 | the same for the inherited-schema branch |
| TypeConverter.OwnPropertiesResolvable | raml-to-openapi/src/main/java/org/ballerina/ramltoopenapi/mapper/TypeConverter.java:362-415 | the same for the own-properties schema |
| TypeConverter.ConvertNeverComposes | raml-to-openapi/src/main/java/org/ballerina/ramltoopenapi/mapper/TypeConverter.java:76-81 | the inheritance branch of `convertObjectType` is dead: a registered parent name is caught by rule 2 first, so no conversion yields `allOf` |
| TypeConverter.StructuralNeverComposes | raml-to-openapi/src/main/java/org/ballerina/ramltoopenapi/mapper/TypeConverter.java:261-278 | the dispatch yields no `allOf` when the type name is unregistered |
| TypeConverter.SimpleObjectProperties | raml-to-openapi/src/main/java/org/ballerina/ramltoopenapi/mapper/TypeConverter.java:283-318 | a plain object's properties are exactly its declared entries put in order |
| TypeConverter.SimpleObjectKeepsOrder | raml-to-openapi/src/main/java/org/ballerina/ramltoopenapi/mapper/TypeConverter.java:283-318 | with distinct property names, the object's properties keep declaration order, one entry per property |
| SchemaMapper.ParseExample | raml-to-openapi/src/main/java/org/ballerina/ramltoopenapi/mapper/SchemaMapper.java:326-343 | the example becomes its trimmed text, which has no blank at either end |
| SchemaMapper.ParseExampleIdempotent | raml-to-openapi/src/main/java/org/ballerina/ramltoopenapi/mapper/SchemaMapper.java:326-343 | parsing an already parsed example changes nothing |
| SchemaMapper.OwnPropertiesOnly | raml-to-openapi/src/main/java/org/ballerina/ramltoopenapi/mapper/SchemaMapper.java:247-302 | a non-object gives an empty open object; an object fails exactly when some property's `required` is null (it is unboxed), otherwise the type converter's own-properties schema |
| SchemaMapper.HandleInheritance | raml-to-openapi/src/main/java/org/ballerina/ramltoopenapi/mapper/SchemaMapper.java:206-241 | always two `allOf` parts, a reference to the parent then the own properties, titled by the display name; fails exactly when the own-properties step does |
| SchemaMapper.InheritedOwnProperties | raml-to-openapi/src/main/java/org/ballerina/ramltoopenapi/mapper/SchemaMapper.java:206-241 | a subtype with non-null `required` flags and distinct property names maps to a reference to its parent, then its own properties in order, each the converted property type with its description and example |
| SchemaMapper.DogExtendsAnimal | raml-to-openapi/src/main/java/org/ballerina/ramltoopenapi/mapper/SchemaMapper.java:206-241 | `Dog` of type `Animal` with a required string `breed` maps to `$ref Animal` and an object holding only `breed` as a plain string, listed as required |
| SchemaMapper.MapTypeDefinition | raml-to-openapi/src/main/java/org/ballerina/ramltoopenapi/mapper/SchemaMapper.java:152-186 | inheritance first; otherwise the converted type, titled and described; fails only for an inheriting object with a null `required` |
| SchemaMapper.ArrayAliasRefDangles | raml-to-openapi/src/main/java/org/ballerina/ramltoopenapi/mapper/SchemaMapper.java:191-201 | an alias such as `Products: Product[]` is taken as inheriting from `Product[]`, so its schema holds a `$ref` that names no schema |
| SchemaMapper.MappedRefsResolvable | raml-to-openapi/src/main/java/org/ballerina/ramltoopenapi/mapper/SchemaMapper.java:152-186 | a mapped type's `$ref`s all resolve when its parent and mentioned types are registered |
| SchemaMapper.RegisterNames | raml-to-openapi/src/main/java/org/ballerina/ramltoopenapi/mapper/SchemaMapper.java:52-54 | after pass 1 a name is registered exactly when it was before or some declaration carries it |
| SchemaMapper.MapTypes | raml-to-openapi/src/main/java/org/ballerina/ramltoopenapi/mapper/SchemaMapper.java:57-73 | lenient mode never fails; strict mode fails exactly when some declaration fails; the keys are exactly the names of the declarations that map |
| SchemaMapper.StrictFailureNamesFirst | raml-to-openapi/src/main/java/org/ballerina/ramltoopenapi/mapper/SchemaMapper.java:57-73 | the strict failure is the exception for the first declaration that fails |
| SchemaMapper.MapTypesValue | raml-to-openapi/src/main/java/org/ballerina/ramltoopenapi/mapper/SchemaMapper.java:57-73 | a declaration that maps, and that no later declaration renames over, ends up under its name with its mapped schema |
| SchemaMapper.MapTypesOther | raml-to-openapi/src/main/java/org/ballerina/ramltoopenapi/mapper/SchemaMapper.java:57-73 | a key no mapped declaration carries keeps its earlier value |
| SchemaMapper.BodyBases | raml-to-openapi/src/main/java/org/ballerina/ramltoopenapi/mapper/SchemaMapper.java:142-147 | a base is found exactly when some body's type is that base followed by `[]` |
| SchemaMapper.ResourceBasesSpec | raml-to-openapi/src/main/java/org/ballerina/ramltoopenapi/mapper/SchemaMapper.java:105-137 | the depth-first scan finds exactly the bases that some method in the resource tree mentions in a request or response body |
| SchemaMapper.ChildrenBasesSpec | raml-to-openapi/src/main/java/org/ballerina/ramltoopenapi/mapper/SchemaMapper.java:105-137 | over nested resources, the scan finds exactly the bases some child tree mentions |
| SchemaMapper.MethodBasesSpec | raml-to-openapi/src/main/java/org/ballerina/ramltoopenapi/mapper/SchemaMapper.java:110-129 | a method contributes exactly the bases of its request and response bodies |
| SchemaMapper.ArrayBasesToGenerate | raml-to-openapi/src/main/java/org/ballerina/ramltoopenapi/mapper/SchemaMapper.java:77-79 | each mentioned base once, and only mentioned bases |
| SchemaMapper.ArrayOfRef | raml-to-openapi/src/main/java/org/ballerina/ramltoopenapi/mapper/SchemaMapper.java:84-91 | the synthesised schema is an array whose items reference the base |
| SchemaMapper.GenerateArrays | raml-to-openapi/src/main/java/org/ballerina/ramltoopenapi/mapper/SchemaMapper.java:82-96 | pass 4 only adds to the registry, only `<base>Array` names, and registers one for every base already registered |
| SchemaMapper.GenerateArraysPuts | raml-to-openapi/src/main/java/org/ballerina/ramltoopenapi/mapper/SchemaMapper.java:82-96 | every base registered before pass 4 gets its array schema under `<base>Array` |
| SchemaMapper.GenerateArraysFrame | raml-to-openapi/src/main/java/org/ballerina/ramltoopenapi/mapper/SchemaMapper.java:82-96 | pass 4 changes no key other than the `<base>Array` keys |
| SchemaMapper.Map | raml-to-openapi/src/main/java/org/ballerina/ramltoopenapi/mapper/SchemaMapper.java:37-100 | a null API is an error; lenient mode always succeeds; strict mode fails exactly when a declaration fails; every declared name ends up registered |
| SchemaMapper.MapContents | raml-to-openapi/src/main/java/org/ballerina/ramltoopenapi/mapper/SchemaMapper.java:37-100 | every declared type that maps has a schema; the last declaration of a name that no generated array schema takes maps to exactly its own converted definition; every referenced array base that is registered gets `<base>Array` as an array of references to it |
| SchemaMapper.LenientFailureLeavesDanglingName | raml-to-openapi/src/main/java/org/ballerina/ramltoopenapi/mapper/SchemaMapper.java:63-72 | in lenient mode a failing declaration stays registered but gets no schema, so references to it dangle |
| ResponseMapper.BoolOrString | raml-to-openapi/src/main/java/org/ballerina/ramltoopenapi/mapper/ResponseMapper.java:233-241 | the words `true` and `false` in any case become booleans with that value; any other text is kept as a string |
| ResponseMapper.ParseExampleValue | raml-to-openapi/src/main/java/org/ballerina/ramltoopenapi/mapper/ResponseMapper.java:207-242 | JSON-looking text stays the trimmed string; an integer is a 32-bit value that the text spells; a double keeps its literal, which has a point; booleans match their word |
| ResponseMapper.ParseExampleValueStable | raml-to-openapi/src/main/java/org/ballerina/ramltoopenapi/mapper/ResponseMapper.java:207-242 | parsing the string a parse left gives the same value again |
| ResponseMapper.ParseIntegerExample | raml-to-openapi/src/main/java/org/ballerina/ramltoopenapi/mapper/ResponseMapper.java:207-242 | every 32-bit integer written in decimal reads back as itself |
| ResponseMapper.DottedText | raml-to-openapi/src/main/java/org/ballerina/ramltoopenapi/mapper/ResponseMapper.java:222-241 | text with a point is a double exactly when it is a decimal literal, and otherwise a boolean or string |
| ResponseMapper.ParsePriceExample | raml-to-openapi/src/main/java/org/ballerina/ramltoopenapi/mapper/ResponseMapper.java:222-231 | `19.99` reads as a double |
| ResponseMapper.ParseExponentExample | raml-to-openapi/src/main/java/org/ballerina/ramltoopenapi/mapper/ResponseMapper.java:222-231 | `-1.5e3` reads as a double |
| ResponseMapper.ParseVersionExample | raml-to-openapi/src/main/java/org/ballerina/ramltoopenapi/mapper/ResponseMapper.java:222-241 | `1.2.3` stays a string |
| ResponseMapper.ParseBooleanExample | raml-to-openapi/src/main/java/org/ballerina/ramltoopenapi/mapper/ResponseMapper.java:233-238 | the boolean words read as booleans in any letter case |
| ResponseMapper.MapExample | raml-to-openapi/src/main/java/org/ballerina/ramltoopenapi/mapper/ResponseMapper.java:139-161 | the value is set exactly when the example has one, and is its parsed value; the summary is the example's name when that is non-empty |
| ResponseMapper.MapExamples | raml-to-openapi/src/main/java/org/ballerina/ramltoopenapi/mapper/ResponseMapper.java:139-161 | the keys are exactly the example names; with distinct names, one entry per example in order |
| ResponseMapper.MapMediaType | raml-to-openapi/src/main/java/org/ballerina/ramltoopenapi/mapper/ResponseMapper.java:110-134 | the converted schema; named examples when there are any, otherwise the single example parsed |
| ResponseMapper.MapContent | raml-to-openapi/src/main/java/org/ballerina/ramltoopenapi/mapper/ResponseMapper.java:92-105 | keyed by exactly the body names, non-empty when there are bodies; the last body of each name gives exactly its mapped media type |
| ResponseMapper.MapHeader | raml-to-openapi/src/main/java/org/ballerina/ramltoopenapi/mapper/ResponseMapper.java:172-198 | fails exactly on a null `required`; otherwise the flag, description, schema and example copied |
| ResponseMapper.MapHeaders | raml-to-openapi/src/main/java/org/ballerina/ramltoopenapi/mapper/ResponseMapper.java:166-202 | fails exactly when some header's `required` is null, with a null dereference; otherwise the keys are the builder's plus the header names |
| ResponseMapper.HeaderLands | raml-to-openapi/src/main/java/org/ballerina/ramltoopenapi/mapper/ResponseMapper.java:166-202 | the last header of a name gives exactly its mapped header |
| ResponseMapper.HeaderKept | raml-to-openapi/src/main/java/org/ballerina/ramltoopenapi/mapper/ResponseMapper.java:166-202 | a name no header uses keeps the builder's entry |
| ResponseMapper.DefaultDescriptionForCode | raml-to-openapi/src/main/java/org/ballerina/ramltoopenapi/mapper/ResponseMapper.java:261-278 | a canned description for the listed status codes, and `Response` exactly for every other code |
| ResponseMapper.DefaultDescriptionsDistinct | raml-to-openapi/src/main/java/org/ballerina/ramltoopenapi/mapper/ResponseMapper.java:261-278 | two different known codes get different descriptions |
| ResponseMapper.ResponseDescription | raml-to-openapi/src/main/java/org/ballerina/ramltoopenapi/mapper/ResponseMapper.java:247-256 | the response's own description, else the canned one for its code |
| ResponseMapper.MapResponse | raml-to-openapi/src/main/java/org/ballerina/ramltoopenapi/mapper/ResponseMapper.java:64-87 | fails exactly on a null header `required`; the described or default description; content exactly when there are bodies, equal to the mapped bodies; headers exactly when declared, equal to the header loop's map |
| ResponseMapper.ResponseHeaderLands | raml-to-openapi/src/main/java/org/ballerina/ramltoopenapi/mapper/ResponseMapper.java:64-87 | inside a mapped response, the last header of a name gives exactly its mapped header |
| ResponseMapper.MapResponses | raml-to-openapi/src/main/java/org/ballerina/ramltoopenapi/mapper/ResponseMapper.java:38-59 | no responses gives a lone `default`; fails exactly on a null header `required`; otherwise keyed by exactly the declared codes, the last response of each code giving exactly its mapped response |
| ResponseMapper.MapResponsesFrom | raml-to-openapi/src/main/java/org/ballerina/ramltoopenapi/mapper/ResponseMapper.java:51-56 | the loop fails exactly on a null header `required`; otherwise it adds exactly the declared status codes to the builder |
| ResponseMapper.ResponseLands | raml-to-openapi/src/main/java/org/ballerina/ramltoopenapi/mapper/ResponseMapper.java:51-56 | the last response of a code gives exactly its mapped response |
| ResponseMapper.ResponseKept | raml-to-openapi/src/main/java/org/ballerina/ramltoopenapi/mapper/ResponseMapper.java:51-56 | a code no response uses keeps the builder's entry |
| ParameterMapper.MapParameter | raml-to-openapi/src/main/java/org/nipunaml/ramltoopenapi/mapper/ParameterMapper.java:44-65 | name, description, example and converted schema copied; path parameters always required, others keep their declared flag |
| ParameterMapper.MapUriParameters | raml-to-openapi/src/main/java/org/nipunaml/ramltoopenapi/mapper/ParameterMapper.java:33-68 | one required path parameter per URI parameter, in order, with its converted schema, description and example; each is the single-parameter mapping of its declaration |
| ParameterMapper.MapQueryParameters | raml-to-openapi/src/main/java/org/nipunaml/ramltoopenapi/mapper/ParameterMapper.java:73-109 | one query parameter per declaration, in order, keeping the declared `required` flag, description and example; each is the single-parameter mapping of its declaration |
| ParameterMapper.MapHeaders | raml-to-openapi/src/main/java/org/nipunaml/ramltoopenapi/mapper/ParameterMapper.java:114-150 | one header parameter per declaration, in order, keeping the declared `required` flag, description and example; each is the single-parameter mapping of its declaration |
| PropertyMapper.MapProperty | raml-to-openapi/src/main/java/org/ballerina/ramltoopenapi/mapper/PropertyMapper.java:28-55 | with the intended display-name rule: the converted type's body and title with the property's description, raw example and default; `x-raml-displayName` is the display name when it differs from the name, else the converted type's; every other extension key is what the annotations leave on the converted type's extensions |
| PropertyMapper.MapPropertyAsWritten | raml-to-openapi/src/main/java/org/ballerina/ramltoopenapi/mapper/PropertyMapper.java:28-55 | as written: the same schema as the intended mapping except for the extensions, which agree at every key but `x-raml-displayName`; that key holds the display name whenever one exists, and agrees with the intended mapping when the display name is absent or differs from the name |
| PropertyMapper.MapPropertyDiffersOnDefaultDisplayName | raml-to-openapi/src/main/java/org/ballerina/ramltoopenapi/mapper/PropertyMapper.java:78-80 | for a property `id` displayed as `id`, the mapping as written emits `x-raml-displayName` and the intended one does not |
| PropertyMapper.ExtractRequiredProperties | raml-to-openapi/src/main/java/org/ballerina/ramltoopenapi/mapper/PropertyMapper.java:60-71 | fails exactly when some `required` is null; none exactly when no property is required; otherwise the required names in order |
| PropertyMapper.AddAnnotations | raml-to-openapi/src/main/java/org/ballerina/ramltoopenapi/mapper/PropertyMapper.java:84-93 | only `x-raml-annotation-` keys are added, and only for annotations with a value |
| PropertyMapper.AddAnnotationsGet | raml-to-openapi/src/main/java/org/ballerina/ramltoopenapi/mapper/PropertyMapper.java:84-92 | the value at a key is that of the last annotation named after it, else what was there (reference `AnnotationValueFor`) |
| PropertyMapper.AnnotationKept | raml-to-openapi/src/main/java/org/ballerina/ramltoopenapi/mapper/PropertyMapper.java:84-93 | an annotation with a value that no later annotation renames over is present with that value |
| PropertyMapper.AnnotationsUntouched | raml-to-openapi/src/main/java/org/ballerina/ramltoopenapi/mapper/PropertyMapper.java:84-93 | a key no valued annotation produces keeps its value |
| PropertyMapper.AddRamlExtensionsAsWritten | raml-to-openapi/src/main/java/org/ballerina/ramltoopenapi/mapper/PropertyMapper.java:76-94 | as written: `x-raml-displayName` is present whenever a display name exists |
| PropertyMapper.DisplayNameEqualToNameStillAdded | raml-to-openapi/src/main/java/org/ballerina/ramltoopenapi/mapper/PropertyMapper.java:78-80 | a property whose display name equals its name still gets `x-raml-displayName` |
| PropertyMapper.AddRamlExtensions | raml-to-openapi/src/main/java/org/ballerina/ramltoopenapi/mapper/PropertyMapper.java:76-94 | as intended: nothing but the extensions change; `x-raml-displayName` is the display name when its text differs from the name, else what was there; every other key holds what the annotation pass leaves |
| MethodMapper.RequirementOf | raml-to-openapi/src/main/java/org/nipunaml/ramltoopenapi/mapper/MethodMapper.java:169-177 | a named reference stands for one requirement on that scheme, with no scopes when none are given |
| MethodMapper.MapMethodSecurity | raml-to-openapi/src/main/java/org/nipunaml/ramltoopenapi/mapper/MethodMapper.java:148-185 | a clearing entry (null, unnamed, or named `null`) anywhere gives an empty list; otherwise one requirement per entry, in order |
| MethodMapper.SecurityFrom | raml-to-openapi/src/main/java/org/nipunaml/ramltoopenapi/mapper/MethodMapper.java:154-182 | the loop over entries from a partial list: cleared to empty, or the partial list extended by one requirement per entry |
| MethodMapper.FirstDeclared | raml-to-openapi/src/main/java/org/nipunaml/ramltoopenapi/mapper/MethodMapper.java:113-143 | the reference definition of inheritance: the first non-empty level; nothing when all levels are empty |
| MethodMapper.ResolveSecurity | raml-to-openapi/src/main/java/org/nipunaml/ramltoopenapi/mapper/MethodMapper.java:113-143 | the method's, else the resource's, else the API's `securedBy`, equal to the reference definition; nothing when none declares any |
| MethodMapper.ExplicitNoSecurity | raml-to-openapi/src/main/java/org/nipunaml/ramltoopenapi/mapper/MethodMapper.java:156-160 | `securedBy: [null]` on a method gives an empty requirement list whatever is inherited |
| MethodMapper.ReplaceNonWord | raml-to-openapi/src/main/java/org/nipunaml/ramltoopenapi/mapper/MethodMapper.java:403 | only word characters remain, and exactly the word characters are kept in place |
| MethodMapper.SanitizePath | raml-to-openapi/src/main/java/org/nipunaml/ramltoopenapi/mapper/MethodMapper.java:397-411 | the path part is word characters only, with no doubled `_` and no trailing `_` |
| MethodMapper.SanitizeFixpoint | raml-to-openapi/src/main/java/org/nipunaml/ramltoopenapi/mapper/MethodMapper.java:397-411 | an already clean path part is left as it is |
| MethodMapper.SanitizeIdempotent | raml-to-openapi/src/main/java/org/nipunaml/ramltoopenapi/mapper/MethodMapper.java:397-411 | sanitizing twice is sanitizing once |
| MethodMapper.TemplateAndLiteralCollide | raml-to-openapi/src/main/java/org/nipunaml/ramltoopenapi/mapper/MethodMapper.java:397-411 | `/a/{b}` and `/a/b` give the same path part, so their operation IDs collide |
| MethodMapper.RemoveParens | raml-to-openapi/src/main/java/org/nipunaml/ramltoopenapi/mapper/MethodMapper.java:442-444 | no parenthesised group remains, nothing grows, and text without one is unchanged |
| MethodMapper.RemoveParensIdempotent | raml-to-openapi/src/main/java/org/nipunaml/ramltoopenapi/mapper/MethodMapper.java:442-444 | removing parenthesised text twice removes nothing more |
| MethodMapper.RemoveTrailingGroup | raml-to-openapi/src/main/java/org/nipunaml/ramltoopenapi/mapper/MethodMapper.java:442-444 | a trailing parenthesised group is removed whole |
| MethodMapper.Words | raml-to-openapi/src/main/java/org/nipunaml/ramltoopenapi/mapper/MethodMapper.java:442-451 | the words of the parenthesis-free, trimmed description, split on whitespace runs |
| MethodMapper.Capitalize | raml-to-openapi/src/main/java/org/nipunaml/ramltoopenapi/mapper/MethodMapper.java:468-471 | the first character upper-cased and the rest unchanged |
| MethodMapper.Meaningful | raml-to-openapi/src/main/java/org/nipunaml/ramltoopenapi/mapper/MethodMapper.java:456-473 | reference definition: the words that are not filler words, lowercased, in order |
| MethodMapper.CamelFrom | raml-to-openapi/src/main/java/org/nipunaml/ramltoopenapi/mapper/MethodMapper.java:456-473 | running the loop never shortens the identifier built so far (exact casing in `CamelExact`) |
| MethodMapper.CamelLower | raml-to-openapi/src/main/java/org/nipunaml/ramltoopenapi/mapper/MethodMapper.java:456-473 | read case-insensitively, the identifier is the kept words run together |
| MethodMapper.CamelExact | raml-to-openapi/src/main/java/org/nipunaml/ramltoopenapi/mapper/MethodMapper.java:456-473 | exact casing: the first kept word in lower case followed by every later kept word capitalised |
| MethodMapper.CamelAfterFirst | raml-to-openapi/src/main/java/org/nipunaml/ramltoopenapi/mapper/MethodMapper.java:464-472 | once the builder holds a word, every further kept word is appended capitalised |
| MethodMapper.CapitalizeAll | raml-to-openapi/src/main/java/org/nipunaml/ramltoopenapi/mapper/MethodMapper.java:468-471 | reference definition: each word capitalised, position by position |
| MethodMapper.MeaningfulNonEmpty | raml-to-openapi/src/main/java/org/nipunaml/ramltoopenapi/mapper/MethodMapper.java:456-473 | dropping filler words keeps every word non-empty |
| MethodMapper.LowerCapitalize | raml-to-openapi/src/main/java/org/nipunaml/ramltoopenapi/mapper/MethodMapper.java:464-472 | lowercasing a capitalised lowercase word gives the word back |
| MethodMapper.GenerateFromDescription | raml-to-openapi/src/main/java/org/nipunaml/ramltoopenapi/mapper/MethodMapper.java:436-483 | nothing exactly for a blank description; otherwise the camel-case identifier of the description's words when it has at least three characters, and the method name when it is shorter; the identifier reads case-insensitively as the kept words run together |
| MethodMapper.DescriptionCamel | raml-to-openapi/src/main/java/org/nipunaml/ramltoopenapi/mapper/MethodMapper.java:447-473 | the word loop accepts the words of any description, and its result is the reference definition read case-insensitively |
| MethodMapper.TwoWordDescription | raml-to-openapi/src/main/java/org/nipunaml/ramltoopenapi/mapper/MethodMapper.java:436-483 | `Create product (admin only)`-shaped descriptions give `createProduct` |
| MethodMapper.GenerateOperationId | raml-to-openapi/src/main/java/org/nipunaml/ramltoopenapi/mapper/MethodMapper.java:393-427 | a usable path gives the lowercased verb, `_`, then the path part; without one and with a description, the description's camel-case identifier when it has at least three characters and the description is not blank, else the lowercased verb; without either, the lowercased verb |
| MethodMapper.OperationIdDeterminesParts | raml-to-openapi/src/main/java/org/nipunaml/ramltoopenapi/mapper/MethodMapper.java:393-411 | a path-based ID determines the verb and the path part, so two operations collide only when their sanitized paths do |
| MethodMapper.FirstDescription | raml-to-openapi/src/main/java/org/nipunaml/ramltoopenapi/mapper/MethodMapper.java:307-310 | the first body description present, in order; nothing exactly when none has one |
| MethodMapper.BodiesFrom | raml-to-openapi/src/main/java/org/nipunaml/ramltoopenapi/mapper/MethodMapper.java:275-311 | the body loop fails exactly when some body's `required` is null |
| MethodMapper.BodiesFromValue | raml-to-openapi/src/main/java/org/nipunaml/ramltoopenapi/mapper/MethodMapper.java:275-311 | a successful loop holds the bodies' media types, the disjunction of their `required` flags and the first description |
| MethodMapper.MapRequestBody | raml-to-openapi/src/main/java/org/nipunaml/ramltoopenapi/mapper/MethodMapper.java:266-321 | fails exactly on a null `required`; content keyed by exactly the body names as for responses; required exactly when some body is; the first description |
| MethodMapper.AllParameters | raml-to-openapi/src/main/java/org/nipunaml/ramltoopenapi/mapper/MethodMapper.java:64-85 | the accumulated URI parameters, then query parameters, then headers, in order; every position is the single-parameter mapping of its declaration for its location |
| MethodMapper.OptionalBody | raml-to-openapi/src/main/java/org/nipunaml/ramltoopenapi/mapper/MethodMapper.java:88-92 | a request body exactly when bodies are declared |
| MethodMapper.MapMethod | raml-to-openapi/src/main/java/org/nipunaml/ramltoopenapi/mapper/MethodMapper.java:41-108 | fails exactly on a null `required` in bodies or response headers; otherwise the operation ID, summary, description, parameters (only when some exist), body, non-empty responses and the resolved security |
| PathMapper.SetOperation | raml-to-openapi/src/main/java/org/nipunaml/ramltoopenapi/mapper/PathMapper.java:121-150 | a supported verb (any case) fills its slot and no other; an unsupported verb changes nothing |
| PathMapper.MethodFailure | raml-to-openapi/src/main/java/org/nipunaml/ramltoopenapi/mapper/PathMapper.java:97-104 | the strict failure is a converter exception that names the method |
| PathMapper.MapMethods | raml-to-openapi/src/main/java/org/nipunaml/ramltoopenapi/mapper/PathMapper.java:91-106 | lenient mode never fails; strict mode fails exactly when some method fails; the description is kept |
| PathMapper.MethodLands | raml-to-openapi/src/main/java/org/nipunaml/ramltoopenapi/mapper/PathMapper.java:91-106 | a mapped method with a supported verb that no later method repeats ends up in its slot |
| PathMapper.SlotKept | raml-to-openapi/src/main/java/org/nipunaml/ramltoopenapi/mapper/PathMapper.java:91-106 | methods with other verbs leave a slot alone |
| PathMapper.AnyRaisesExists | raml-to-openapi/src/main/java/org/nipunaml/ramltoopenapi/mapper/PathMapper.java:91-106 | the recursive failure test means "some method at some position fails" |
| PathMapper.MapMethodsReportsFirst | raml-to-openapi/src/main/java/org/nipunaml/ramltoopenapi/mapper/PathMapper.java:97-104 | a strict failure reports the first method that fails |
| PathMapper.ChildrenRaiseExists | raml-to-openapi/src/main/java/org/nipunaml/ramltoopenapi/mapper/PathMapper.java:110-115 | the recursive nested-resource failure test means "some child tree at some position fails" |
| PathMapper.MapOwnMethods | raml-to-openapi/src/main/java/org/nipunaml/ramltoopenapi/mapper/PathMapper.java:77-107 | a resource with methods adds exactly its own path, with its description, and the item there is the method loop run on the existing item (or a new one); fails in strict mode exactly when one of its methods does |
| PathMapper.MapResource | raml-to-openapi/src/main/java/org/nipunaml/ramltoopenapi/mapper/PathMapper.java:64-116 | adds exactly the paths of the resources in the tree that have methods; strict mode fails exactly when some method in the tree does |
| PathMapper.MapChildren | raml-to-openapi/src/main/java/org/nipunaml/ramltoopenapi/mapper/PathMapper.java:110-115 | the nested loop adds exactly the children's paths and fails exactly when a child tree does |
| PathMapper.MapTop | raml-to-openapi/src/main/java/org/nipunaml/ramltoopenapi/mapper/PathMapper.java:47-53 | the top-level loop adds exactly the top-level trees' paths and fails exactly when one of them does |
| PathMapper.Map | raml-to-openapi/src/main/java/org/nipunaml/ramltoopenapi/mapper/PathMapper.java:35-59 | a null API is an error; lenient mode never fails; the keys are exactly the paths of resources with methods |
| PathMapper.PathItemOfResource | raml-to-openapi/src/main/java/org/nipunaml/ramltoopenapi/mapper/PathMapper.java:35-116 | a resource alone at its path gets there its description and, per verb, the operation of its last method with that verb, mapped under all ancestors' URI parameters followed by its own (top-level resources start from none); other slots stay empty; the recorded ancestors link it to a top-level resource |
| PathMapper.ExistingItemReused | raml-to-openapi/src/main/java/org/nipunaml/ramltoopenapi/mapper/PathMapper.java:78-88 | a path that already has an item keeps it: slots of verbs the resource does not map, and the description when none is declared, are untouched |
| PathMapper.WalkTopLinked | raml-to-openapi/src/main/java/org/nipunaml/ramltoopenapi/mapper/PathMapper.java:50-52 | every resource the walk meets hangs below a top-level resource through nested resources |
| PathMapper.WalkLinked | raml-to-openapi/src/main/java/org/nipunaml/ramltoopenapi/mapper/PathMapper.java:110-115 | each visit's recorded ancestors extend the chain it was reached through |
| PathMapper.ResourceLands | raml-to-openapi/src/main/java/org/nipunaml/ramltoopenapi/mapper/PathMapper.java:64-116 | the resource of a tree that alone owns a fresh path leaves there the item its methods build |
| PathMapper.ChildrenLands | raml-to-openapi/src/main/java/org/nipunaml/ramltoopenapi/mapper/PathMapper.java:110-115 | the nested loop keeps the item of the child tree that owns a fresh path |
| PathMapper.TopLands | raml-to-openapi/src/main/java/org/nipunaml/ramltoopenapi/mapper/PathMapper.java:50-52 | the top-level loop keeps the item of the tree that owns a fresh path |
| PathMapper.ResourceFrame | raml-to-openapi/src/main/java/org/nipunaml/ramltoopenapi/mapper/PathMapper.java:64-116 | a path no resource of the tree owns keeps its item |
| PathMapper.ChildrenFrame | raml-to-openapi/src/main/java/org/nipunaml/ramltoopenapi/mapper/PathMapper.java:110-115 | a path no child tree owns keeps its item |
| PathMapper.TopFrame | raml-to-openapi/src/main/java/org/nipunaml/ramltoopenapi/mapper/PathMapper.java:50-52 | a path no top-level tree owns keeps its item |
| PathMapper.ItemLanded | raml-to-openapi/src/main/java/org/nipunaml/ramltoopenapi/mapper/PathMapper.java:85-106 | the method loop on a fresh item fills each verb's slot from the last method with that verb and leaves the rest empty |
| PathMapper.StartItem | raml-to-openapi/src/main/java/org/nipunaml/ramltoopenapi/mapper/PathMapper.java:79-88 | the existing item or a new one, with the declared description |
| SecurityMapper.ScopeDescription | raml-to-openapi/src/main/java/org/ballerina/ramltoopenapi/mapper/SecurityMapper.java:282 | every `:` becomes ` - ` and every `_` a space, character by character (the reference `DescribedChars`); other characters are kept |
| SecurityMapper.TwoReplacementsPerChar | raml-to-openapi/src/main/java/org/ballerina/ramltoopenapi/mapper/SecurityMapper.java:282 | the two `replace` calls act character by character as the reference definition |
| SecurityMapper.CreateOAuthFlow | raml-to-openapi/src/main/java/org/ballerina/ramltoopenapi/mapper/SecurityMapper.java:264-289 | each URL is set exactly when present and non-empty; the scope keys are exactly the scopes |
| SecurityMapper.FlowScopes | raml-to-openapi/src/main/java/org/ballerina/ramltoopenapi/mapper/SecurityMapper.java:277-286 | every scope of a created flow is described by its generated description |
| SecurityMapper.ApplyGrant | raml-to-openapi/src/main/java/org/ballerina/ramltoopenapi/mapper/SecurityMapper.java:227-250 | a known grant type, in any case, sets its flow and only that flow; an unknown one changes nothing |
| SecurityMapper.ApplyGrants | raml-to-openapi/src/main/java/org/ballerina/ramltoopenapi/mapper/SecurityMapper.java:225-256 | a flow is set exactly when some grant names it, whatever the order or repetition |
| SecurityMapper.OAuth2Flows | raml-to-openapi/src/main/java/org/ballerina/ramltoopenapi/mapper/SecurityMapper.java:122-259 | with no grants, only the authorization-code flow; otherwise each flow is present exactly when its grant is listed, and then is exactly the flow built from the settings |
| SecurityMapper.PassThroughKey | raml-to-openapi/src/main/java/org/ballerina/ramltoopenapi/mapper/SecurityMapper.java:335-367 | exactly the first declared header in the header; else exactly the first query parameter in the query; else `api_key` in the header |
| SecurityMapper.MapSecurityScheme | raml-to-openapi/src/main/java/org/ballerina/ramltoopenapi/mapper/SecurityMapper.java:75-117 | fails exactly when the scheme has no type; the description is kept and the kind is chosen from the lowercased type |
| SecurityMapper.TypeCaseInsensitive | raml-to-openapi/src/main/java/org/ballerina/ramltoopenapi/mapper/SecurityMapper.java:91-114 | changing only the case of a known type name changes nothing |
| SecurityMapper.MapSchemes | raml-to-openapi/src/main/java/org/ballerina/ramltoopenapi/mapper/SecurityMapper.java:42-66 | lenient mode never fails; strict mode fails exactly when some scheme has no type; the keys are exactly the names of typed schemes |
| SecurityMapper.MapSchemesReportsFirst | raml-to-openapi/src/main/java/org/ballerina/ramltoopenapi/mapper/SecurityMapper.java:54-62 | a strict failure reports the first untyped scheme |
| SecurityMapper.SchemeLands | raml-to-openapi/src/main/java/org/ballerina/ramltoopenapi/mapper/SecurityMapper.java:45-63 | a typed scheme whose name no later scheme reuses ends up under its name with its mapped value |
| SecurityMapper.SchemeKept | raml-to-openapi/src/main/java/org/ballerina/ramltoopenapi/mapper/SecurityMapper.java:45-63 | a name no scheme uses keeps its value |
| SecurityMapper.Map | raml-to-openapi/src/main/java/org/ballerina/ramltoopenapi/mapper/SecurityMapper.java:30-70 | a null API is an error; otherwise the scheme loop over the declared schemes |
| SecurityMapper.RequirementsFrom | raml-to-openapi/src/main/java/org/ballerina/ramltoopenapi/mapper/SecurityMapper.java:389-416 | fails exactly on a null element, with a null dereference; otherwise one scope-less requirement per named reference, in order, repeats included |
| SecurityMapper.MapSecurityRequirements | raml-to-openapi/src/main/java/org/ballerina/ramltoopenapi/mapper/SecurityMapper.java:389-416 | fails exactly on a null element; nothing exactly when no reference has a name; otherwise one scope-less requirement per named reference, in order |
| SecurityMapper.RequirementsNames | raml-to-openapi/src/main/java/org/ballerina/ramltoopenapi/mapper/SecurityMapper.java:389-416 | the loop succeeds exactly when no element is null; then the requirements are scope-less, empty exactly when no reference has a name, and name exactly the referenced schemes |
| SecurityMapper.RefNames | raml-to-openapi/src/main/java/org/ballerina/ramltoopenapi/mapper/SecurityMapper.java:396-408 | reference definition: the names of the named references, in order |
| SecurityMapper.RefNamesAppend | raml-to-openapi/src/main/java/org/ballerina/ramltoopenapi/mapper/SecurityMapper.java:396-408 | the names of two lists run together are the two lists of names run together |
| SecurityMapper.RepeatedReferenceKept | raml-to-openapi/src/main/java/org/ballerina/ramltoopenapi/mapper/SecurityMapper.java:396-408 | a scheme referenced twice gives two requirements |
| ServerMapper.GuessDefault | raml-to-openapi/src/main/java/org/ballerina/ramltoopenapi/mapper/ServerMapper.java:150-164 | the default is chosen by the first fragment in the order `version`, `env`, `region`, `host` that the lowercased name contains, else `default`; each default exactly when its fragment is the first present |
| ServerMapper.GuessFirstFragmentWins | raml-to-openapi/src/main/java/org/ballerina/ramltoopenapi/mapper/ServerMapper.java:150-164 | `hostRegion` gives `us-east-1` and `envVersion` gives `v1`: the earlier test wins |
| ServerMapper.EnvironmentTestSubsumed | raml-to-openapi/src/main/java/org/ballerina/ramltoopenapi/mapper/ServerMapper.java:155 | the `environment` test is dead: every name containing it contains `env` |
| ServerMapper.EnumValues | raml-to-openapi/src/main/java/org/ballerina/ramltoopenapi/mapper/ServerMapper.java:131-145 | an enumeration exactly for a string parameter with values, equal to them |
| ServerMapper.MapVariable | raml-to-openapi/src/main/java/org/ballerina/ramltoopenapi/mapper/ServerMapper.java:77-110 | the default is the declared default, else the example, else the name-based guess; description and enumeration copied |
| ServerMapper.MapVariables | raml-to-openapi/src/main/java/org/ballerina/ramltoopenapi/mapper/ServerMapper.java:77-110 | one variable per parameter name |
| ServerMapper.VariableLands | raml-to-openapi/src/main/java/org/ballerina/ramltoopenapi/mapper/ServerMapper.java:77-110 | a parameter whose name no later parameter reuses is the variable under that name |
| ServerMapper.VariableKept | raml-to-openapi/src/main/java/org/ballerina/ramltoopenapi/mapper/ServerMapper.java:77-110 | a name no parameter uses keeps its value |
| ServerMapper.Map | raml-to-openapi/src/main/java/org/ballerina/ramltoopenapi/mapper/ServerMapper.java:29-72 | a null API is an error; always exactly one server, the default `/` without a usable base URI |
| InfoMapper.SanitizeExtensionName | raml-to-openapi/src/main/java/org/nipunaml/ramltoopenapi/mapper/InfoMapper.java:87-92 | the suffix is `[a-z0-9-]` only, with no `--` and no dash at either end |
| InfoMapper.SanitizeFixpoint | raml-to-openapi/src/main/java/org/nipunaml/ramltoopenapi/mapper/InfoMapper.java:87-92 | a clean suffix is left as it is |
| InfoMapper.SanitizeIdempotent | raml-to-openapi/src/main/java/org/nipunaml/ramltoopenapi/mapper/InfoMapper.java:87-92 | sanitizing twice is sanitizing once |
| InfoMapper.NoAlnumsSanitizeEmpty | raml-to-openapi/src/main/java/org/nipunaml/ramltoopenapi/mapper/InfoMapper.java:87-92 | a title without letters or digits sanitizes to nothing, so all such titles share one key |
| InfoMapper.AddDoc | raml-to-openapi/src/main/java/org/nipunaml/ramltoopenapi/mapper/InfoMapper.java:69-80 | a titled item puts its content, or empty text, under its key and changes no other key; an untitled item changes nothing |
| InfoMapper.DocKey | raml-to-openapi/src/main/java/org/nipunaml/ramltoopenapi/mapper/InfoMapper.java:78-79 | the key is the documentation prefix followed by a clean suffix |
| InfoMapper.DocumentationExtensions | raml-to-openapi/src/main/java/org/nipunaml/ramltoopenapi/mapper/InfoMapper.java:68-82 | the keys added are exactly those of the titled items |
| InfoMapper.DocumentationLands | raml-to-openapi/src/main/java/org/nipunaml/ramltoopenapi/mapper/InfoMapper.java:68-82 | a titled item whose key no later item repeats contributes its content |
| InfoMapper.DocumentationKept | raml-to-openapi/src/main/java/org/nipunaml/ramltoopenapi/mapper/InfoMapper.java:68-82 | a key no item produces keeps its value |
| InfoMapper.Map | raml-to-openapi/src/main/java/org/nipunaml/ramltoopenapi/mapper/InfoMapper.java:20-62 | a null API is an error; title and version fall back to `Untitled API` and `1.0.0`; the extension keys are exactly the documentation keys plus the media-type key when a media type exists |
| MapperContext.NewContext | raml-to-openapi/src/main/java/org/nipunaml/ramltoopenapi/mapper/MapperContext.java:22-27 | a fresh context keeps the strict flag and has nothing registered and no properties |
| MapperContext.AddSchemaName | raml-to-openapi/src/main/java/org/nipunaml/ramltoopenapi/mapper/MapperContext.java:90-92 | registers exactly the name and changes nothing else |
| MapperContext.GetSchemaNames | raml-to-openapi/src/main/java/org/nipunaml/ramltoopenapi/mapper/MapperContext.java:104-106 | the copy holds exactly the registered names |
| MapperContext.GetProperty | raml-to-openapi/src/main/java/org/nipunaml/ramltoopenapi/mapper/MapperContext.java:53-55 | nothing for a missing key |
| MapperContext.GetPropertyOr | raml-to-openapi/src/main/java/org/nipunaml/ramltoopenapi/mapper/MapperContext.java:61-64 | the default exactly when the lookup gives nothing |
| MapperContext.SetProperty | raml-to-openapi/src/main/java/org/nipunaml/ramltoopenapi/mapper/MapperContext.java:46-48 | the key reads back the value set; other keys and the registry unchanged |
| MapperContext.RemoveProperty | raml-to-openapi/src/main/java/org/nipunaml/ramltoopenapi/mapper/MapperContext.java:76-78 | the key is gone; other keys and the registry unchanged |
| MapperContext.ClearProperties | raml-to-openapi/src/main/java/org/nipunaml/ramltoopenapi/mapper/MapperContext.java:83-85 | no property remains; the registry unchanged |
| MapperContext.RegistryGrowsOnly | raml-to-openapi/src/main/java/org/nipunaml/ramltoopenapi/mapper/MapperContext.java:19-27 | whatever mutators run, the strict flag is fixed and the registry only grows, holding every name added |
| MapperContext.RegistryIsRegisteredNames | raml-to-openapi/src/main/java/org/nipunaml/ramltoopenapi/mapper/MapperContext.java:90-92 | the registry is exactly the starting names plus the names added |
| RamlDocuments.LastSeparator | raml-to-openapi/src/main/java/org/ballerina/ramltoopenapi/model/raml/RamlDocument.java:143 | the last `/` or `\`, with no separator after it |
| RamlDocuments.LastSeparatorIsMax | raml-to-openapi/src/main/java/org/ballerina/ramltoopenapi/model/raml/RamlDocument.java:143 | it is the later of the last `/` and the last `\` |
| RamlDocuments.ExtractFileName | raml-to-openapi/src/main/java/org/ballerina/ramltoopenapi/model/raml/RamlDocument.java:139-145 | `unknown` for no path; otherwise a separator-free suffix of the path, the whole path when it has no separator |
| RamlDocuments.ExtractAfterDirectory | raml-to-openapi/src/main/java/org/ballerina/ramltoopenapi/model/raml/RamlDocument.java:139-145 | a name after a directory part is extracted exactly, whatever the separator |
| RamlDocuments.NewRamlDocument | raml-to-openapi/src/main/java/org/ballerina/ramltoopenapi/model/raml/RamlDocument.java:15-19 | the file name is extracted once, from the source path |
| RamlDocuments.Title | raml-to-openapi/src/main/java/org/ballerina/ramltoopenapi/model/raml/RamlDocument.java:45-47 | the title, `Untitled API` when missing |
| RamlDocuments.Version | raml-to-openapi/src/main/java/org/ballerina/ramltoopenapi/model/raml/RamlDocument.java:52-54 | the version, `1.0` when missing |
| RamlDocuments.MediaType | raml-to-openapi/src/main/java/org/ballerina/ramltoopenapi/model/raml/RamlDocument.java:73-77 | the first media type, present exactly when one is declared |
| RamlDocuments.ResourceCount | raml-to-openapi/src/main/java/org/ballerina/ramltoopenapi/model/raml/RamlDocument.java:82-91 | the count is positive exactly when `hasResources` holds |
| RamlDocuments.TypeCount | raml-to-openapi/src/main/java/org/ballerina/ramltoopenapi/model/raml/RamlDocument.java:96-105 | the count is positive exactly when `hasTypes` holds |
| Converter.Attached | raml-to-openapi/src/main/java/org/nipunaml/ramltoopenapi/converter/RamlToOpenApiConverter.java:91-112 | a map is attached exactly when it is non-empty |
| Converter.GenerateTargetFileName | raml-to-openapi/src/main/java/org/nipunaml/ramltoopenapi/converter/RamlToOpenApiConverter.java:177-188 | `openapi.yaml` for no name; a `.raml` suffix in any case replaced by `.yaml`; otherwise `.yaml` appended |
| Converter.TargetOfRamlName | raml-to-openapi/src/main/java/org/nipunaml/ramltoopenapi/converter/RamlToOpenApiConverter.java:183-184 | a RAML name with any case of extension becomes its stem plus `.yaml` |
| Converter.Pipeline | raml-to-openapi/src/main/java/org/nipunaml/ramltoopenapi/converter/RamlToOpenApiConverter.java:69-112 | lenient mode always succeeds, with version `3.0.0` and the mapped info and servers |
| Converter.PipelineFailure | raml-to-openapi/src/main/java/org/nipunaml/ramltoopenapi/converter/RamlToOpenApiConverter.java:86-112 | a strict conversion fails exactly when a type declaration, a security scheme or a resource tree fails |
| Converter.PipelineComponents | raml-to-openapi/src/main/java/org/nipunaml/ramltoopenapi/converter/RamlToOpenApiConverter.java:86-112 | schemas, security schemes and paths attached only when non-empty; paths mapped under the registry schema mapping left |
| Converter.PathRegistry | raml-to-openapi/src/main/java/org/nipunaml/ramltoopenapi/converter/RamlToOpenApiConverter.java:86-108 | the paths see every declared type name |
| Converter.Rethrow | raml-to-openapi/src/main/java/org/nipunaml/ramltoopenapi/converter/RamlToOpenApiConverter.java:129-135 | the result is always a converter exception, and a converter exception passes unchanged |
| Converter.Convert | raml-to-openapi/src/main/java/org/nipunaml/ramltoopenapi/converter/RamlToOpenApiConverter.java:59-136 | no document is an error; no API fails before the mappers; lenient mode succeeds; the result carries the pipeline's document and the source and target names |
| Converter.Annotate | raml-to-openapi/src/main/java/org/nipunaml/ramltoopenapi/converter/RamlToOpenApiConverter.java:160-165 | a converter exception is reported with the document's file name; a missing document's name cannot be read |
| Converter.Outcomes | raml-to-openapi/src/main/java/org/nipunaml/ramltoopenapi/converter/RamlToOpenApiConverter.java:156-167 | each document converted on its own |
| Converter.Collect | raml-to-openapi/src/main/java/org/nipunaml/ramltoopenapi/converter/RamlToOpenApiConverter.java:156-167 | succeeds exactly when every document converts, and then holds every result in order |
| Converter.CollectReportsFirst | raml-to-openapi/src/main/java/org/nipunaml/ramltoopenapi/converter/RamlToOpenApiConverter.java:156-167 | the loop reports the first failing document, annotated |
| Converter.ConvertMultiple | raml-to-openapi/src/main/java/org/nipunaml/ramltoopenapi/converter/RamlToOpenApiConverter.java:145-172 | an empty list is an error; otherwise succeeds exactly when each document converts, and lenient batches of documents with APIs always succeed |
| Converter.ConvertMultipleReportsFirst | raml-to-openapi/src/main/java/org/nipunaml/ramltoopenapi/converter/RamlToOpenApiConverter.java:145-172 | a batch reports the first document that fails |
| OutputFileGenerator.FormatExtension | raml-to-openapi/src/main/java/org/nipunaml/ramltoopenapi/writer/OutputFileGenerator.java:70-81 | `.json` exactly for `json` in any case, `.yaml` otherwise |
| OutputFileGenerator.GenerateFileName | raml-to-openapi/src/main/java/org/nipunaml/ramltoopenapi/writer/OutputFileGenerator.java:70-81 | the name without its `.raml` suffix in any case, followed by the format's extension |
| OutputFileGenerator.GenerateFileNameOfRaml | raml-to-openapi/src/main/java/org/nipunaml/ramltoopenapi/writer/OutputFileGenerator.java:70-81 | a RAML name becomes its stem plus the format's extension |
| OutputFileGenerator.GenerateFileNameAgreesWithTarget | raml-to-openapi/src/main/java/org/nipunaml/ramltoopenapi/writer/OutputFileGenerator.java:70-81 | for YAML output the writer names files as the converter names targets, except for an empty name |
| OutputFileGenerator.EnsureCorrectExtension | raml-to-openapi/src/main/java/org/nipunaml/ramltoopenapi/writer/OutputFileGenerator.java:86-102 | the path is kept when it has the format's extension (`.yml` counts for YAML), otherwise extended; nothing is removed |
| OutputFileGenerator.EnsureCorrectExtensionIdempotent | raml-to-openapi/src/main/java/org/nipunaml/ramltoopenapi/writer/OutputFileGenerator.java:86-102 | fixing the extension twice is fixing it once |
| OutputFileGenerator.GetExtension | raml-to-openapi/src/main/java/org/nipunaml/ramltoopenapi/writer/OutputFileGenerator.java:146-152 | from the last dot that is not the first character, and empty exactly when there is no such dot |
| OutputFileGenerator.BasePath | raml-to-openapi/src/main/java/org/nipunaml/ramltoopenapi/writer/OutputFileGenerator.java:128-130 | the base followed by the extension is the path |
| OutputFileGenerator.Numbered | raml-to-openapi/src/main/java/org/nipunaml/ramltoopenapi/writer/OutputFileGenerator.java:134-137 | the `n`-th alternative keeps the base and the extension (the middle is the counter's decimal text, in `NumberedMiddle`) |
| OutputFileGenerator.NumberedMiddle | raml-to-openapi/src/main/java/org/nipunaml/ramltoopenapi/writer/OutputFileGenerator.java:134-137 | between the base plus `_` and the extension stands exactly the counter's decimal text |
| OutputFileGenerator.NumberedInjective | raml-to-openapi/src/main/java/org/nipunaml/ramltoopenapi/writer/OutputFileGenerator.java:134-137 | different counters give different names |
| OutputFileGenerator.HandleExistingFile | raml-to-openapi/src/main/java/org/nipunaml/ramltoopenapi/writer/OutputFileGenerator.java:122-141 | a new or overwritable file is used as it is; otherwise the first numbered alternative that does not exist, with every earlier one taken |
| OutputFileGenerator.GenerateOutputPath | raml-to-openapi/src/main/java/org/nipunaml/ramltoopenapi/writer/OutputFileGenerator.java:27-65 | an explicit output file only gets its extension fixed; otherwise the generated name joined by `Child` to the input file's parent (or alone without one) or to the input directory; the result always carries the format's extension |
| OutputFileGenerator.Child | raml-to-openapi/src/main/java/org/nipunaml/ramltoopenapi/writer/OutputFileGenerator.java:52-64 | `new File(dir, name)`: an empty directory resolves against `/`; otherwise the two are joined by one `/` unless the name already starts with one |
| OutputFileGenerator.OutputBesideInput | raml-to-openapi/src/main/java/org/nipunaml/ramltoopenapi/writer/OutputFileGenerator.java:46-56 | for `dir/f`, the output is `dir/` followed by the generated name |
| OutputFileGenerator.OutputInsideDirectory | raml-to-openapi/src/main/java/org/nipunaml/ramltoopenapi/writer/OutputFileGenerator.java:61-65 | for a directory input, the output is the directory, `/`, then the generated name |
| RamlFileValidator.FirstLine | raml-to-openapi/src/main/java/org/nipunaml/ramltoopenapi/parser/RamlFileValidator.java:72-76 | the text up to the first line break; nothing exactly for empty text |
| RamlFileValidator.FirstLineOf | raml-to-openapi/src/main/java/org/nipunaml/ramltoopenapi/parser/RamlFileValidator.java:72-76 | a line followed by a break is read back as it is |
| RamlFileValidator.MatchHeader | raml-to-openapi/src/main/java/org/nipunaml/ramltoopenapi/parser/RamlFileValidator.java:22 | the scan reports only the two supported version texts |
| RamlFileValidator.MatchHeaderSound | raml-to-openapi/src/main/java/org/nipunaml/ramltoopenapi/parser/RamlFileValidator.java:22 | a line the scan accepts has the header's shape |
| RamlFileValidator.MatchHeaderComplete | raml-to-openapi/src/main/java/org/nipunaml/ramltoopenapi/parser/RamlFileValidator.java:22 | every line of the header's shape is accepted with its version |
| RamlFileValidator.ExtractVersion | raml-to-openapi/src/main/java/org/nipunaml/ramltoopenapi/parser/RamlFileValidator.java:109-116 | the second word of the line, free of whitespace |
| RamlFileValidator.ExtractVersionOfHeader | raml-to-openapi/src/main/java/org/nipunaml/ramltoopenapi/parser/RamlFileValidator.java:78-91 | on a matching trimmed line, the second word is the version the pattern captured |
| RamlFileValidator.ValidateHeader | raml-to-openapi/src/main/java/org/nipunaml/ramltoopenapi/parser/RamlFileValidator.java:70-104 | succeeds exactly for a readable non-empty file whose trimmed first line matches with version 1.0; an empty file is reported as such |
| RamlFileValidator.UnsupportedVersionReported | raml-to-openapi/src/main/java/org/nipunaml/ramltoopenapi/parser/RamlFileValidator.java:88-97 | a matching header with a version other than 1.0 is reported as unsupported |
| RamlFileValidator.Raml08Rejected | raml-to-openapi/src/main/java/org/nipunaml/ramltoopenapi/parser/RamlFileValidator.java:72-97 | a well-formed 0.8 header is rejected as unsupported |
| RamlFileValidator.Validate | raml-to-openapi/src/main/java/org/nipunaml/ramltoopenapi/parser/RamlFileValidator.java:33-57 | the checks run in order (null, existence, regular file, readability, extension, header), each with its message; success exactly when all pass |
| RamlFileValidator.ValidImpliesRamlFile | raml-to-openapi/src/main/java/org/nipunaml/ramltoopenapi/parser/RamlFileValidator.java:121-126 | a file that validates passes the quick check |
| RamlFileValidator.QuickCheckIgnoresContent | raml-to-openapi/src/main/java/org/nipunaml/ramltoopenapi/parser/RamlFileValidator.java:121-126 | an empty `.raml` file passes the quick check but fails validation |
| Decimal.NatToStringNoLeadingZero | raml-to-openapi/src/main/java/org/nipunaml/ramltoopenapi/writer/OutputFileGenerator.java:134-137 | the counter's text as Java prints it has no leading zero, except for 0 itself (its digits and value are in `NatToStringRoundTrip`) |
| Decimal.NatToStringRoundTrip | raml-to-openapi/src/main/java/org/ballerina/ramltoopenapi/mapper/TypeConverter.java:208-215 | a natural number's decimal text reads back as the number |
| Decimal.ParseInt32 | raml-to-openapi/src/main/java/org/ballerina/ramltoopenapi/mapper/TypeConverter.java:208-215 | `Integer.parseInt` on ASCII digits: a value exactly for an optional sign followed by one or more digits whose signed value is within 32 bits, and that value is the literal's signed value |
| Decimal.ParseInt32Examples | raml-to-openapi/src/main/java/org/ballerina/ramltoopenapi/mapper/TypeConverter.java:208-215 | `+5`, `007` and `-0` parse, as does the least 32-bit value; a bare `-`, letters and `2147483648` do not |
| Decimal.ParseInt32RoundTrip | raml-to-openapi/src/main/java/org/ballerina/ramltoopenapi/mapper/ResponseMapper.java:226-228 | every 32-bit integer's decimal text parses back to it |

## Left out

- Logging, the SLF4J logger, and the `try`/`catch` blocks that only log are not modelled.
- Parsing RAML text into the API tree is not modelled. The parser library is foreign code. The model starts from its output, the `Raml` datatypes.
- Serialising to YAML or JSON and writing files are not modelled. `ensureDirectoryExists` touches the file system.
- The file system is a parameter. For `handleExistingFile` it is the set of existing paths. For the validator it is a record of existence, regularity, readability and the text. `java.io.File` is modelled as Unix paths that are already normalised.
- `extractScopes` and `extractScopeValue` in `MethodMapper` read scopes from the parser's structured value by reflection. The model takes a reference's scopes as given.
- The OAuth 2.0 settings that `SecurityMapper` reads by reflection are given as a record.
- `toCamelCase` in `MethodMapper` is never called.
- `getConversionStats`, `RamlDocument.getSummary` and `toString` only build log text.
- `getDescription`, `getBaseUri` and `getSourceFile` of `RamlDocument` are plain field reads.
- `SecurityMapper.MapSecurityRequirements` is modelled but nothing in the pipeline calls it. The converter never does.
- OAuth 1.0, basic, digest and custom schemes are modelled through `MapSecurityScheme`'s contract, which fixes the type, scheme, location, name and description each one sets. They need no separate member.
- `TypeConverter.Describe`, `PropertyMapper.MapProperty` and `SchemaMapper.MapTypeDefinition`: an example or default is stored as its text. In the source it is passed to `setExample` or `setDefault` of the typed schema that `convertType` built (TypeConverter.java:394, PropertyMapper.java:43 and 48, SchemaMapper.java:179 and 280). The schema library casts that value by schema class: an integer schema holds a parsed number, or null when the text does not parse; a number schema holds a decimal or null; a boolean schema holds the parsed boolean. That cast belongs to the schema library, which is not part of this model. So `example: "42"` on an integer property holds the number 42 in the program but the text `42` here.
- `ResponseMapper.ParseExampleValue`: `Double.parseDouble` also accepts hexadecimal floating literals such as `0x1.8p1`. The model rejects them, so such text stays a string. A double is kept as its literal text, not as a binary floating-point value. (`NaN` and `Infinity` never reach the double branch, which needs a point.)
- `Strings.ToLower`: Java's `toLowerCase` and `toUpperCase` fold all of Unicode. The model folds ASCII only. The same holds for `equalsIgnoreCase`, which also matches characters whose upper-case forms agree. For example `jſon` (with a long s) equals `json` in Java but not in the model. This affects `OutputFileGenerator.FormatExtension`, `Converter.GenerateTargetFileName` and `OutputFileGenerator.EnsureCorrectExtension`.
- `SchemaMapper.ArrayBasesToGenerate`: the source collects bases in a `HashSet`, whose iteration order is unspecified. The model uses first-occurrence order. The keys produced are the same, but the entry order may differ.
- Null lists and empty lists are merged into an empty `seq`. The source treats the two alike everywhere they reach.
- `ServerMapper.Map`: a `title()` that is present but holds a null value is merged with a missing title. The source prints it as `null` in the server description.
- `InfoMapper.Map`: a wrapper whose value is null is merged with an absent wrapper. Such an API title becomes `Untitled API`, where the source sets a null title. A documentation item whose title wrapper holds null is skipped, where the source raises a null dereference on `isEmpty`.
- `RamlDocuments.Title`: the getters dereference the API without a check, so these getters require an API. `Converter.Convert` models the failure itself as a null dereference.
- `OutputFileGenerator.HandleExistingFile`: the `int` counter's wrap-around after 2^31 attempts is not modelled. The counter is unbounded.
- `OutputFileGenerator.GenerateOutputPath`: the output format and the input file are taken as non-null. The command line always supplies them.
- `Wrappers.Message`: a null dereference's message is rendered `null`. That is what `getMessage()` returns before Java 15. From Java 15 on, helpful NullPointerException messages describe the failed dereference instead. The failure texts of `SchemaMapper.MapTypes`, `PathMapper.MethodFailure`, `SecurityMapper.SchemeFailure` and `Converter.Annotate` follow the older behaviour.
- `MethodMapper.GenerateFromDescription`: the three-character minimum counts characters, while Java's `length()` counts UTF-16 code units. An identifier such as `𝒜𝒜` (two characters outside the Basic Multilingual Plane) has length 4 in Java and is kept there, but the model replaces it with the method name.
- `PropertyMapper.MapProperty`: it uses the intended display-name rule of `AddRamlExtensions`. As written, the source adds `x-raml-displayName` whenever a display name exists, even one equal to the name. `MapPropertyAsWritten` models that behaviour, and its contract states where the two differ.
- `Decimal.ParseInt32`: only ASCII digits are read. `Integer.parseInt` also accepts other Unicode decimal digits, such as the Arabic-Indic `١٢`.
- `TypeConverter.ConvertFileType`: sizes are integers. The narrowing of an integral size by `intValue` is modelled. A fractional size, which `Double.intValue` would truncate and clamp, is not.
- `PathMapper.PathItemOfResource`: the exact item is stated only for a path that one resource with methods owns. When several resources share a path, `PathMapper.ExistingItemReused` states only that the later one reuses the earlier item, keeping the slots it does not fill.
- `PropertyMapper.AddRamlExtensions`: the source stores the display-name wrapper object itself as the extension value. The model stores its text.

## Findings

| source | as written | input that shows it | evidently intended | confidence | as-written member | corrected member |
|---|---|---|---|---|---|---|
| raml-to-openapi/src/main/java/org/ballerina/ramltoopenapi/mapper/PropertyMapper.java:78-80 | the `displayName()` wrapper object is compared with the `String` name, which is never equal, so `x-raml-displayName` is added whenever a display name exists | a property `id` whose display name defaults to `id` | add `x-raml-displayName` only when the display name's text differs from the name | high; not executed | PropertyMapper.DisplayNameEqualToNameStillAdded | PropertyMapper.AddRamlExtensions |
