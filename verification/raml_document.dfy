/** `RamlDocument`: a parsed API together with the path it was read from
    and the file name taken from that path. */
module RamlDocuments {
  import opened Wrappers
  import opened Strings
  import opened Raml

  /** `api` is `None` for a document built around a null API. */
  datatype RamlDocument = RamlDocument(api: Option<Api>, sourceFile: Option<string>, fileName: string)

  predicate IsSeparator(c: char) {
    c == '/' || c == '\\'
  }

  /** The position of the last path separator, or -1. */
  function LastSeparator(p: string): (k: int)
    ensures -1 <= k < |p|
    ensures k >= 0 ==> IsSeparator(p[k])
    ensures forall j :: k < j < |p| ==> !IsSeparator(p[j])
    decreases |p|
  {
    if |p| == 0 then -1
    else if IsSeparator(p[|p| - 1]) then |p| - 1
    else LastSeparator(p[..|p| - 1])
  }

  /** The last separator is the later of the last `/` and the last `\`. */
  lemma LastSeparatorIsMax(p: string)
    ensures LastSeparator(p) ==
      (if LastIndexOf(p, '/') > LastIndexOf(p, '\\') then LastIndexOf(p, '/') else LastIndexOf(p, '\\'))
  {
    var k := LastSeparator(p);
    var slash := LastIndexOf(p, '/');
    var backslash := LastIndexOf(p, '\\');
    assert slash <= k && backslash <= k;
    assert k >= 0 ==> (p[k] == '/' && slash == k) || (p[k] == '\\' && backslash == k);
  }

  /** `extractFileName`: `unknown` for a missing path; otherwise what
      follows the last `/` or `\`, or the whole path when it has neither. */
  function ExtractFileName(path: Option<string>): (r: string)
    ensures path.None? ==> r == "unknown"
    ensures path.Some? ==> forall i :: 0 <= i < |r| ==> !IsSeparator(r[i])
    ensures path.Some? ==> EndsWith(path.value, r)
    ensures path.Some? && (forall i :: 0 <= i < |path.value| ==> !IsSeparator(path.value[i])) ==> r == path.value
  {
    if path.None? then "unknown"
    else
      var p := path.value;
      var k := LastSeparator(p);
      var r := if k >= 0 then p[k + 1..] else p;
      assert r == p[|p| - |r|..];
      assert forall i :: 0 <= i < |r| ==> r[i] == p[|p| - |r| + i];
      r
  }

  /** A name after a directory part is extracted exactly, whatever the
      separator. */
  lemma ExtractAfterDirectory(dir: string, sep: char, name: string)
    requires sep == '/' || sep == '\\'
    requires forall i :: 0 <= i < |name| ==> !IsSeparator(name[i])
    ensures ExtractFileName(Some(dir + [sep] + name)) == name
  {
    var p := dir + [sep] + name;
    var i := |dir|;
    assert p[i] == sep;
    assert p[i + 1..] == name;
    assert forall j :: i < j < |p| ==> p[j] == name[j - i - 1];
  }

  /** `new RamlDocument(api, sourceFile)`: the file name is extracted once,
      at construction. */
  function NewRamlDocument(api: Option<Api>, sourceFile: Option<string>): (d: RamlDocument)
    ensures d.api == api && d.sourceFile == sourceFile
    ensures d.fileName == ExtractFileName(sourceFile)
    ensures sourceFile.Some? ==> forall i :: 0 <= i < |d.fileName| ==> !IsSeparator(d.fileName[i])
  {
    RamlDocument(api, sourceFile, ExtractFileName(sourceFile))
  }

  // The getters read the API; on a document without one they throw, so
  // they ask for one.

  /** `getTitle`: the title, `Untitled API` when missing. */
  function Title(d: RamlDocument): (r: string)
    requires d.api.Some?
    ensures d.api.value.title.Some? ==> r == d.api.value.title.value
    ensures d.api.value.title.None? ==> r == "Untitled API"
  {
    d.api.value.title.GetOr("Untitled API")
  }

  /** `getVersion`: the version, `1.0` when missing (the info object uses
      `1.0.0` instead). */
  function Version(d: RamlDocument): (r: string)
    requires d.api.Some?
    ensures d.api.value.version.Some? ==> r == d.api.value.version.value
    ensures d.api.value.version.None? ==> r == "1.0"
  {
    d.api.value.version.GetOr("1.0")
  }

  /** `getMediaType`: the first declared media type, if any. */
  function MediaType(d: RamlDocument): (r: Option<string>)
    requires d.api.Some?
    ensures r.Some? <==> d.api.value.mediaType != []
    ensures r.Some? ==> r.value == d.api.value.mediaType[0]
  {
    if d.api.value.mediaType != [] then Some(d.api.value.mediaType[0]) else None
  }

  predicate HasResources(d: RamlDocument)
    requires d.api.Some?
  {
    d.api.value.resources != []
  }

  /** `getResourceCount`, consistent with `hasResources`. */
  function ResourceCount(d: RamlDocument): (n: nat)
    requires d.api.Some?
    ensures n > 0 <==> HasResources(d)
    ensures n == |d.api.value.resources|
  {
    |d.api.value.resources|
  }

  predicate HasTypes(d: RamlDocument)
    requires d.api.Some?
  {
    d.api.value.types != []
  }

  /** `getTypeCount`, consistent with `hasTypes`. */
  function TypeCount(d: RamlDocument): (n: nat)
    requires d.api.Some?
    ensures n > 0 <==> HasTypes(d)
    ensures n == |d.api.value.types|
  {
    |d.api.value.types|
  }

  predicate HasSecuritySchemes(d: RamlDocument)
    requires d.api.Some?
  {
    d.api.value.securitySchemes != []
  }
}
