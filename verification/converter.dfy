/** `RamlToOpenApiConverter`: one conversion runs the mappers in a fixed
    order over a fresh context (info, servers, schemas, security schemes,
    paths) and wraps the result with the source and target file names. */
module Converter {
  import opened Wrappers
  import opened Strings
  import opened OrderedMaps
  import opened Raml
  import opened OpenApi
  import opened MapperContext
  import opened RamlDocuments
  import InfoMapper
  import ServerMapper
  import SchemaMapper
  import SecurityMapper
  import PathMapper

  const OPENAPI_VERSION := "3.0.0"

  /** A converted document with the names it was converted from and to. */
  datatype OpenApiDocument = OpenApiDocument(openApi: Document, sourceFileName: string, targetFileName: string)

  /** A map is attached to the document only when it has entries. */
  function Attached<V>(m: OMap<V>): (r: Option<OMap<V>>)
    ensures r.Some? <==> m != []
    ensures r.Some? ==> r.value == m
  {
    if m != [] then Some(m) else None
  }

  /** `generateTargetFileName`: `openapi.yaml` for a missing or empty name;
      a `.raml` suffix in any case becomes `.yaml`; any other name gets
      `.yaml` appended. */
  function GenerateTargetFileName(source: Option<string>): (r: string)
    ensures EndsWith(r, ".yaml")
    ensures source.None? || source.value == [] ==> r == "openapi.yaml"
    ensures source.Some? && source.value != [] && !EndsWithIgnoreCase(source.value, ".raml") ==> r == source.value + ".yaml"
    ensures source.Some? && EndsWithIgnoreCase(source.value, ".raml") ==>
      |source.value| >= 5 && r == source.value[..|source.value| - 5] + ".yaml"
  {
    if source.None? || source.value == [] then "openapi.yaml"
    else
      var s := source.value;
      var r := if EndsWithIgnoreCase(s, ".raml") then s[..|s| - 5] + ".yaml" else s + ".yaml";
      assert r[|r| - 5..] == ".yaml";
      r
  }

  /** A RAML file name, whatever the case of its extension, turns into the
      same stem with `.yaml`. */
  lemma TargetOfRamlName(stem: string, ext: string)
    requires |ext| == 5 && ToLower(ext) == ".raml"
    ensures GenerateTargetFileName(Some(stem + ext)) == stem + ".yaml"
  {
    var s := stem + ext;
    ToLowerAppend(stem, ext);
    assert ToLower(s)[|s| - 5..] == ToLower(ext);
    assert s[..|s| - 5] == stem;
  }

  /** The registry the path mapper runs under: the one schema mapping
      leaves behind, starting from a fresh context. */
  function PathRegistry(api: Api, strict: bool): (r: set<string>)
    requires SchemaMapper.Map(Some(api), NewContext(strict)).Ok?
    ensures forall t | t in api.types :: t.name in r
  {
    var c := NewContext(strict);
    var out := SchemaMapper.Map(Some(api), c);
    assert forall t | t in api.types :: t.name in SchemaMapper.DeclaredRegistry(c, api);
    out.value.1.schemaNames
  }

  /** The mapper pipeline inside the `try` block: info and servers, then
      schemas (registering their names), security schemes and paths, each
      failure ending the conversion. The paths see every declared type name. */
  function Pipeline(api: Api, strict: bool): (r: Outcome<Document>)
    ensures !strict ==> r.Ok?
    ensures r.Ok? ==>
      && r.value.openapi == OPENAPI_VERSION
      && r.value.info == InfoMapper.Map(Some(api)).value
      && r.value.servers == ServerMapper.Map(Some(api)).value
  {
    var c := NewContext(strict);
    var info := InfoMapper.Map(Some(api)).value;
    var servers := ServerMapper.Map(Some(api)).value;
    match SchemaMapper.Map(Some(api), c)
    case Err(e) => Err(e)
    case Ok(schemaOut) =>
      match SecurityMapper.Map(Some(api), c.strict)
      case Err(e) => Err(e)
      case Ok(schemes) =>
        match PathMapper.Map(Some(api), schemaOut.1.strict, schemaOut.1.schemaNames)
        case Err(e) => Err(e)
        case Ok(paths) =>
          Ok(Document(OPENAPI_VERSION, info, servers, Components(Attached(schemaOut.0), Attached(schemes)), Attached(paths)))
  }

  /** A strict conversion fails exactly when a type declaration, a security
      scheme or a resource tree fails. */
  lemma PipelineFailure(api: Api)
    ensures Pipeline(api, true).Err? <==>
      || SchemaMapper.Map(Some(api), NewContext(true)).Err?
      || (exists i :: 0 <= i < |api.securitySchemes| && api.securitySchemes[i].schemeType.None?)
      || (exists j :: 0 <= j < |api.resources| && PathMapper.TreeRaises(api.resources[j]))
  {
    var c := NewContext(true);
    var so := SchemaMapper.Map(Some(api), c);
    var sec := SecurityMapper.Map(Some(api), true);
    if so.Ok? && sec.Ok? {
      var ctx := so.value.1;
      assert ctx.strict;
      var pm := PathMapper.Map(Some(api), ctx.strict, ctx.schemaNames);
      assert Pipeline(api, true).Err? <==> pm.Err?;
    } else {
      assert Pipeline(api, true).Err?;
    }
  }

  /** What a successful pipeline attaches: the mapped schemas, the mapped
      security schemes (one per typed scheme) and the path items (one per
      top-level path), each only when non-empty; the paths were mapped
      under the registry schema mapping left. */
  lemma PipelineComponents(api: Api, strict: bool)
    requires Pipeline(api, strict).Ok?
    ensures SchemaMapper.Map(Some(api), NewContext(strict)).Ok?
    ensures
      var d := Pipeline(api, strict).value;
      && d.components.schemas == Attached(SchemaMapper.Map(Some(api), NewContext(strict)).value.0)
      && d.components.securitySchemes == Attached(SecurityMapper.Map(Some(api), strict).value)
      && (d.components.securitySchemes.Some? ==>
            Keys(d.components.securitySchemes.value) == SecurityMapper.MappedNames(api.securitySchemes))
      && d.paths == Attached(PathMapper.Map(Some(api), strict, PathRegistry(api, strict)).value)
      && (d.paths.Some? ==> Keys(d.paths.value) == PathMapper.TopPaths(api.resources, 0))
  {
    var so := SchemaMapper.Map(Some(api), NewContext(strict));
    assert so.Ok?;
    assert so.value.1.strict == strict;
  }

  /** The `catch` of `convert`: a converter exception passes through; any
      other exception becomes one naming the document. */
  function Rethrow(e: Error, fileName: string): (r: Error)
    ensures r.ConverterException?
    ensures e.ConverterException? ==> r == e
  {
    match e
    case ConverterException(_) => e
    case NullPointer => ConverterException("Failed to convert RAML document '" + fileName + "'")
  }

  /** `convert`. A missing document is an error. A document without an API
      fails before the mappers run: the title is read for a log line
      outside the `try` block. Otherwise the pipeline runs over a fresh
      context, and a lenient conversion always succeeds. */
  function Convert(doc: Option<RamlDocument>, strict: bool): (r: Outcome<OpenApiDocument>)
    ensures doc.None? ==> r == Err(ConverterException("Cannot convert null RAML document"))
    ensures doc.Some? && doc.value.api.None? ==> r == Err(NullPointer)
    ensures doc.Some? && doc.value.api.Some? ==>
      && (!strict ==> r.Ok?)
      && (r.Err? ==> r.error.ConverterException?)
      && (r.Ok? <==> Pipeline(doc.value.api.value, strict).Ok?)
    ensures r.Ok? ==>
      && r.value.openApi.openapi == OPENAPI_VERSION
      && r.value.openApi == Pipeline(doc.value.api.value, strict).value
      && r.value.sourceFileName == doc.value.fileName
      && r.value.targetFileName == GenerateTargetFileName(Some(doc.value.fileName))
  {
    if doc.None? then Err(ConverterException("Cannot convert null RAML document"))
    else
      var d := doc.value;
      if d.api.None? then Err(NullPointer)
      else
        match Pipeline(d.api.value, strict)
        case Err(e) => Err(Rethrow(e, d.fileName))
        case Ok(o) => Ok(OpenApiDocument(o, d.fileName, GenerateTargetFileName(Some(d.fileName))))
  }

  /** The `catch` of `convertMultiple`: a converter exception is reported
      with the document's file name. For a missing document that name is
      read from null, which throws. Other exceptions pass through. */
  function Annotate(doc: Option<RamlDocument>, e: Error): (r: Error)
    ensures e.NullPointer? || doc.None? ==> r == NullPointer
    ensures e.ConverterException? && doc.Some? ==>
      r == ConverterException("Failed to convert '" + doc.value.fileName + "': " + e.message)
  {
    match e
    case NullPointer => NullPointer
    case ConverterException(m) =>
      if doc.None? then NullPointer
      else ConverterException("Failed to convert '" + doc.value.fileName + "': " + m)
  }

  /** The outcome of converting each document on its own. */
  function Outcomes(docs: seq<Option<RamlDocument>>, strict: bool): (outs: seq<Outcome<OpenApiDocument>>)
    ensures |outs| == |docs|
    ensures forall i :: 0 <= i < |docs| ==> outs[i] == Convert(docs[i], strict)
  {
    seq(|docs|, i requires 0 <= i < |docs| => Convert(docs[i], strict))
  }

  /** The conversion loop over the per-document outcomes: every document in
      order, stopping at the first that fails. */
  function Collect(docs: seq<Option<RamlDocument>>, outs: seq<Outcome<OpenApiDocument>>): (r: Outcome<seq<OpenApiDocument>>)
    requires |outs| == |docs|
    ensures r.Ok? <==> forall i :: 0 <= i < |outs| ==> outs[i].Ok?
    ensures r.Ok? ==> |r.value| == |outs| && forall i :: 0 <= i < |outs| ==> r.value[i] == outs[i].value
    decreases |docs|
  {
    if |docs| == 0 then Ok([])
    else
      assert forall i :: 1 <= i < |outs| ==> outs[1..][i - 1] == outs[i];
      if outs[0].Err? then Err(Annotate(docs[0], outs[0].error))
      else
        match Collect(docs[1..], outs[1..])
        case Err(e) => Err(e)
        case Ok(rest) => Ok([outs[0].value] + rest)
  }

  /** Position of the first failing outcome. */
  function FirstFailing(outs: seq<Outcome<OpenApiDocument>>): (k: nat)
    requires exists i :: 0 <= i < |outs| && outs[i].Err?
    ensures k < |outs| && outs[k].Err?
    ensures forall j :: 0 <= j < k ==> outs[j].Ok?
    decreases |outs|
  {
    if outs[0].Err? then 0
    else
      var i :| 0 <= i < |outs| && outs[i].Err?;
      assert outs[1..][i - 1] == outs[i];
      1 + FirstFailing(outs[1..])
  }

  /** The loop reports the first failure, annotated with its document. */
  lemma {:induction false} CollectReportsFirst(docs: seq<Option<RamlDocument>>, outs: seq<Outcome<OpenApiDocument>>)
    requires |outs| == |docs|
    requires exists i :: 0 <= i < |outs| && outs[i].Err?
    ensures Collect(docs, outs) == Err(Annotate(docs[FirstFailing(outs)], outs[FirstFailing(outs)].error))
    decreases |docs|
  {
    if outs[0].Ok? {
      var i :| 0 <= i < |outs| && outs[i].Err?;
      assert outs[1..][i - 1] == outs[i];
      CollectReportsFirst(docs[1..], outs[1..]);
      assert docs[1..][FirstFailing(outs[1..])] == docs[FirstFailing(outs)];
    }
  }

  /** `convertMultiple`: an empty list is an error; otherwise one converted
      document per input, in order, or the first failure. */
  function ConvertMultiple(docs: seq<Option<RamlDocument>>, strict: bool): (r: Outcome<seq<OpenApiDocument>>)
    ensures docs == [] ==> r == Err(ConverterException("No RAML documents provided for conversion"))
    ensures docs != [] ==> (r.Ok? <==> forall i :: 0 <= i < |docs| ==> Convert(docs[i], strict).Ok?)
    ensures r.Ok? ==> |r.value| == |docs| && forall i :: 0 <= i < |docs| ==> r.value[i] == Convert(docs[i], strict).value
    ensures !strict && docs != [] && (forall i :: 0 <= i < |docs| ==> docs[i].Some? && docs[i].value.api.Some?) ==> r.Ok?
  {
    if docs == [] then Err(ConverterException("No RAML documents provided for conversion"))
    else Collect(docs, Outcomes(docs, strict))
  }

  /** `convertMultiple` reports the first document that fails. */
  lemma ConvertMultipleReportsFirst(docs: seq<Option<RamlDocument>>, strict: bool)
    requires exists i :: 0 <= i < |docs| && Convert(docs[i], strict).Err?
    ensures
      var k := FirstFailing(Outcomes(docs, strict));
      && k < |docs|
      && ConvertMultiple(docs, strict) == Err(Annotate(docs[k], Convert(docs[k], strict).error))
  {
    var outs := Outcomes(docs, strict);
    var i :| 0 <= i < |docs| && Convert(docs[i], strict).Err?;
    assert outs[i].Err?;
    CollectReportsFirst(docs, outs);
  }
}
