/** `InfoMapper`: the API's title, version, description, documentation and
    media type to the OpenAPI `info` object. */
module InfoMapper {
  import opened Wrappers
  import opened Values
  import opened Strings
  import opened OrderedMaps
  import opened Raml
  import opened OpenApi

  const DOC_PREFIX := "x-raml-documentation-"
  const MEDIA_TYPE_KEY := "x-raml-mediaType"

  /** The characters an extension-name suffix keeps: `[a-z0-9-]`. */
  predicate IsNameChar(c: char) {
    IsAsciiLower(c) || IsAsciiDigit(c) || c == '-'
  }

  predicate AllNameChars(s: string) {
    forall i :: 0 <= i < |s| ==> IsNameChar(s[i])
  }

  /** A clean suffix: name characters only, no `--`, no `-` at either end. */
  predicate CleanName(s: string) {
    AllNameChars(s) && NoDoubled(s, '-') && (|s| > 0 ==> s[0] != '-' && s[|s| - 1] != '-')
  }

  /** `replaceAll("[^a-z0-9-]", "-")`. */
  function ReplaceNonName(s: string): (r: string)
    ensures |r| == |s| && AllNameChars(r)
    ensures forall i :: 0 <= i < |s| ==> (IsNameChar(s[i]) <==> r[i] == s[i])
  {
    seq(|s|, i requires 0 <= i < |s| => if IsNameChar(s[i]) then s[i] else '-')
  }

  /** `replaceAll("^-|-$", "")`: one leading and one trailing dash removed;
      a lone `-` becomes empty. */
  function DropEdgeDashes(s: string): (r: string)
    ensures |s| > 0 && s[0] == '-' ==> r == DropTrailing(s[1..], '-')
    ensures (|s| == 0 || s[0] != '-') ==> r == DropTrailing(s, '-')
  {
    if |s| > 0 && s[0] == '-' then DropTrailing(s[1..], '-') else DropTrailing(s, '-')
  }

  /** Dropping the edge dashes of a collapsed string leaves a clean one. */
  lemma DropEdgeClean(s: string)
    requires AllNameChars(s) && NoDoubled(s, '-')
    ensures CleanName(DropEdgeDashes(s))
  {
    var t := if |s| > 0 && s[0] == '-' then s[1..] else s;
    assert AllNameChars(t) && NoDoubled(t, '-');
    assert |s| > 1 && s[0] == '-' ==> s[1] != '-';
    var r := DropTrailing(t, '-');
    if |r| > 0 {
      assert r[0] == t[0];
      if |t| > 0 && t[|t| - 1] == '-' {
        assert r[|r| - 1] == t[|t| - 2];
      }
    }
  }

  /** `sanitizeExtensionName`: lowercased, every other character a dash,
      dash runs collapsed, edge dashes dropped. */
  function SanitizeExtensionName(name: string): (r: string)
    ensures CleanName(r)
  {
    var a := ReplaceNonName(ToLower(name));
    var b := CollapseRuns(a, '-');
    assert AllNameChars(b) by {
      forall i | 0 <= i < |b| ensures IsNameChar(b[i]) {
        var j :| 0 <= j < |a| && a[j] == b[i];
      }
    }
    DropEdgeClean(b);
    DropEdgeDashes(b)
  }

  /** A clean suffix is left as it is. */
  lemma SanitizeFixpoint(s: string)
    requires CleanName(s)
    ensures SanitizeExtensionName(s) == s
  {
    NameCharsKept(s);
    assert CollapseRuns(s, '-') == s;
  }

  /** Name characters survive lowercasing and the replacement unchanged. */
  lemma NameCharsKept(s: string)
    requires AllNameChars(s)
    ensures ReplaceNonName(ToLower(s)) == s
  {
    forall i | 0 <= i < |s| ensures LowerChar(s[i]) == s[i] {
      assert IsNameChar(s[i]);
    }
    assert ToLower(s) == s;
  }

  /** Sanitizing twice is sanitizing once. */
  lemma SanitizeIdempotent(name: string)
    ensures SanitizeExtensionName(SanitizeExtensionName(name)) == SanitizeExtensionName(name)
  {
    SanitizeFixpoint(SanitizeExtensionName(name));
  }

  /** A title without letters or digits sanitizes to nothing, so every such
      title yields the same key `x-raml-documentation-`. */
  lemma NoAlnumsSanitizeEmpty(name: string)
    requires forall i :: 0 <= i < |name| ==> !IsAsciiAlnum(name[i])
    ensures SanitizeExtensionName(name) == []
  {
    var a := ReplaceNonName(ToLower(name));
    assert forall i :: 0 <= i < |a| ==> a[i] == '-' by {
      forall i | 0 <= i < |a| ensures a[i] == '-' {
        assert !IsAsciiAlnum(name[i]);
      }
    }
    var b := CollapseRuns(a, '-');
    assert forall i :: 0 <= i < |b| ==> b[i] == '-' by {
      forall i | 0 <= i < |b| ensures b[i] == '-' {
        var j :| 0 <= j < |a| && a[j] == b[i];
      }
    }
    var t := if |b| > 0 && b[0] == '-' then b[1..] else b;
    assert forall i :: 0 <= i < |t| ==> t[i] == '-';
    var r := DropTrailing(t, '-');
    assert forall i :: 0 <= i < |r| ==> r[i] == '-';
    assert r == SanitizeExtensionName(name);
  }

  /** The documentation loop: a titled item adds its content (empty when
      missing) under a key derived from its title; untitled items are
      skipped. A repeated key takes the later content. */
  function DocumentationExtensions(docs: seq<DocumentationItem>, acc: OMap<Value>): (r: OMap<Value>)
    ensures Keys(r) == Keys(acc) + DocKeys(docs)
    decreases |docs|
  {
    if |docs| == 0 then acc
    else
      DocKeysCons(docs);
      DocumentationExtensions(docs[1..], AddDoc(acc, docs[0]))
  }

  /** One documentation item: a titled item puts its content (empty when
      missing) under its key; an untitled one changes nothing. */
  function AddDoc(acc: OMap<Value>, d: DocumentationItem): (r: OMap<Value>)
    ensures d.title.Some? && d.title.value != [] ==> Get(r, DocKey(d.title.value)) == Some(VString(d.content.GetOr("")))
    ensures forall k :: (d.title.None? || d.title.value == [] || k != DocKey(d.title.value)) ==> Get(r, k) == Get(acc, k)
  {
    var title := d.title.GetOr("");
    if title != [] then
      var v := VString(d.content.GetOr(""));
      assert Get(Put(acc, DocKey(title), v), DocKey(title)) == Some(v) by { GetPut(acc, DocKey(title), v, DocKey(title)); }
      assert forall k :: k != DocKey(title) ==> Get(Put(acc, DocKey(title), v), k) == Get(acc, k) by {
        forall k | k != DocKey(title) ensures Get(Put(acc, DocKey(title), v), k) == Get(acc, k) { GetPut(acc, DocKey(title), v, k); }
      }
      Put(acc, DocKey(title), v)
    else acc
  }

  /** The extension key of a documentation title. */
  function DocKey(title: string): (r: string)
    ensures StartsWith(r, DOC_PREFIX) && CleanName(r[|DOC_PREFIX|..])
  {
    var r := DOC_PREFIX + SanitizeExtensionName(title);
    assert r[..|DOC_PREFIX|] == DOC_PREFIX;
    assert r[|DOC_PREFIX|..] == SanitizeExtensionName(title);
    r
  }

  /** The keys of the titled items of a documentation list. */
  function DocKeys(docs: seq<DocumentationItem>): set<string> {
    set i | 0 <= i < |docs| && docs[i].title.Some? && docs[i].title.value != [] :: DocKey(docs[i].title.value)
  }

  lemma DocKeysCons(docs: seq<DocumentationItem>)
    requires |docs| > 0
    ensures DocKeys(docs) ==
      (if docs[0].title.Some? && docs[0].title.value != [] then {DocKey(docs[0].title.value)} else {}) + DocKeys(docs[1..])
  {
    var rest := docs[1..];
    assert forall i :: 0 <= i < |rest| ==> rest[i] == docs[i + 1];
    forall k | k in DocKeys(docs)
      ensures k in (if docs[0].title.Some? && docs[0].title.value != [] then {DocKey(docs[0].title.value)} else {}) + DocKeys(rest)
    {
      var i :| 0 <= i < |docs| && docs[i].title.Some? && docs[i].title.value != [] && DocKey(docs[i].title.value) == k;
      if i > 0 {
        assert rest[i - 1] == docs[i];
      }
    }
  }

  /** `map`: a missing API is an error. Otherwise the title (`Untitled API`
      when missing), the version (`1.0.0` when missing) and the description;
      the documentation extensions, then the first media type under
      `x-raml-mediaType`. */
  function Map(api: Option<Api>): (r: Outcome<Info>)
    ensures api.None? ==> r == Err(ConverterException("Cannot map null API to Info"))
    ensures api.Some? ==> r.Ok?
    ensures r.Ok? ==>
      var a := api.value;
      && r.value.title == a.title.GetOr("Untitled API")
      && r.value.version == a.version.GetOr("1.0.0")
      && r.value.description == a.description
      && Keys(r.value.extensions) == DocKeys(a.documentation) + (if a.mediaType != [] then {MEDIA_TYPE_KEY} else {})
      && (a.mediaType != [] ==> Get(r.value.extensions, MEDIA_TYPE_KEY) == Some(VString(a.mediaType[0])))
  {
    if api.None? then Err(ConverterException("Cannot map null API to Info"))
    else
      var a := api.value;
      var docs := DocumentationExtensions(a.documentation, []);
      var ext := if a.mediaType != [] then Put(docs, MEDIA_TYPE_KEY, VString(a.mediaType[0])) else docs;
      assert a.mediaType != [] ==> Get(ext, MEDIA_TYPE_KEY) == Some(VString(a.mediaType[0])) by {
        if a.mediaType != [] {
          GetPut(docs, MEDIA_TYPE_KEY, VString(a.mediaType[0]), MEDIA_TYPE_KEY);
        }
      }
      Ok(Info(a.title.GetOr("Untitled API"), a.version.GetOr("1.0.0"), a.description, ext))
  }

  /** A titled item whose key no later item repeats contributes its content. */
  lemma {:induction false} DocumentationLands(docs: seq<DocumentationItem>, acc: OMap<Value>, i: nat)
    requires i < |docs| && docs[i].title.Some? && docs[i].title.value != []
    requires forall j :: i < j < |docs| && docs[j].title.Some? ==> DocKey(docs[j].title.value) != DocKey(docs[i].title.value)
    ensures Get(DocumentationExtensions(docs, acc), DocKey(docs[i].title.value)) == Some(VString(docs[i].content.GetOr("")))
    decreases |docs|
  {
    var rest := docs[1..];
    assert forall j :: 0 <= j < |rest| ==> rest[j] == docs[j + 1];
    if i == 0 {
      DocumentationKept(rest, AddDoc(acc, docs[0]), DocKey(docs[0].title.value));
    } else {
      DocumentationLands(rest, AddDoc(acc, docs[0]), i - 1);
    }
  }

  /** A key no titled item produces keeps its value. */
  lemma {:induction false} DocumentationKept(docs: seq<DocumentationItem>, acc: OMap<Value>, key: string)
    requires forall j :: 0 <= j < |docs| && docs[j].title.Some? ==> DocKey(docs[j].title.value) != key
    ensures Get(DocumentationExtensions(docs, acc), key) == Get(acc, key)
    decreases |docs|
  {
    if |docs| > 0 {
      var rest := docs[1..];
      assert forall j :: 0 <= j < |rest| ==> rest[j] == docs[j + 1];
      DocumentationKept(rest, AddDoc(acc, docs[0]), key);
    }
  }
}
