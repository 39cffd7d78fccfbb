/** `ResponseMapper`: RAML responses to OpenAPI responses, and the example
    handling that request bodies share with them. */
module ResponseMapper {
  import opened Wrappers
  import opened Values
  import opened Strings
  import opened Decimal
  import opened OrderedMaps
  import opened Raml
  import opened OpenApi
  import TypeConverter

  /** The text after an optional leading sign. */
  function StripSign(s: string): (r: string)
    ensures |r| <= |s| && (|r| < |s| ==> s[0] == '+' || s[0] == '-')
  {
    if |s| > 0 && (s[0] == '+' || s[0] == '-') then s[1..] else s
  }

  /** Index of the first character of `s` in `cs`, or `|s|`. */
  function IndexOfAny(s: string, cs: set<char>): (k: nat)
    ensures k <= |s|
    ensures forall i :: 0 <= i < k ==> s[i] !in cs
    ensures k < |s| ==> s[k] in cs
    decreases |s|
  {
    if |s| == 0 || s[0] in cs then 0 else 1 + IndexOfAny(s[1..], cs)
  }

  predicate IsDigits(s: string) {
    |s| > 0 && AllDigits(s)
  }

  /** Digits with at most one point and at least one digit. */
  predicate IsMantissa(m: string) {
    var d := IndexOfAny(m, {'.'});
    if d == |m| then IsDigits(m)
    else AllDigits(m[..d]) && AllDigits(m[d + 1..]) && |m| >= 2
  }

  /** The decimal floating-point literals `Double.parseDouble` accepts
      (after trimming): an optional sign, a mantissa, an optional exponent
      and an optional `f`/`d` suffix. */
  predicate IsDoubleLiteral(s: string) {
    var t := StripSign(s);
    var u := if |t| > 0 && t[|t| - 1] in {'f', 'F', 'd', 'D'} then t[..|t| - 1] else t;
    var k := IndexOfAny(u, {'e', 'E'});
    IsMantissa(u[..k]) && (k == |u| || IsDigits(StripSign(u[k + 1..])))
  }

  /** The boolean words, case-insensitively, else the text itself. */
  function BoolOrString(v: string): (r: Value)
    ensures r.VBool? <==> EqualsIgnoreCase(v, "true") || EqualsIgnoreCase(v, "false")
    ensures r.VBool? ==> EqualsIgnoreCase(v, if r.b then "true" else "false")
    ensures !r.VBool? ==> r == VString(v)
  {
    if EqualsIgnoreCase(v, "true") then VBool(true)
    else if EqualsIgnoreCase(v, "false") then VBool(false)
    else VString(v)
  }

  /** `parseExampleValue`: trimmed; text that opens like JSON stays a
      string; text with a point is a double when it parses as one; other
      text is an `int` when it parses as one; then the boolean words; else
      the trimmed text. */
  function ParseExampleValue(text: string): (r: Value)
    ensures r.VString? || r.VInt? || r.VDouble? || r.VBool?
    ensures r.VString? ==> r.s == Trim(text)
    ensures StartsWith(Trim(text), "{") || StartsWith(Trim(text), "[") ==> r == VString(Trim(text))
    ensures r.VInt? ==> ParseInt32(Trim(text)) == Some(r.i) && INT_MIN <= r.i <= INT_MAX
    ensures r.VDouble? ==> r.literal == Trim(text) && '.' in r.literal && IsDoubleLiteral(r.literal)
    ensures r.VBool? ==> EqualsIgnoreCase(Trim(text), if r.b then "true" else "false")
  {
    ParseTrimmed(Trim(text))
  }

  /** The decision of `parseExampleValue` on the trimmed text. */
  function ParseTrimmed(v: string): Value {
    if StartsWith(v, "{") || StartsWith(v, "[") then VString(v)
    else if '.' in v then
      if IsDoubleLiteral(v) then VDouble(v) else BoolOrString(v)
    else
      match ParseInt32(v)
      case Some(i) => VInt(i)
      case None => BoolOrString(v)
  }

  /** A string example read back gives the same string: parsing is stable. */
  lemma ParseExampleValueStable(text: string)
    requires ParseExampleValue(text).VString?
    ensures ParseExampleValue(ParseExampleValue(text).s) == ParseExampleValue(text)
  {
    var v := Trim(text);
    assert Trim(v) == v;
    assert ParseExampleValue(text).s == v;
  }

  /** Every 32-bit integer written in decimal reads back as that integer. */
  lemma ParseIntegerExample(n: int)
    requires INT_MIN <= n <= INT_MAX
    ensures ParseExampleValue(IntToString(n)) == VInt(n)
  {
    var s := IntToString(n);
    ParseInt32RoundTrip(n);
    IntTextEnds(n);
    assert Trim(s) == s;
    assert !StartsWith(s, "{") && !StartsWith(s, "[");
  }

  /** Decimal text starts with a sign or a digit and ends with a digit. */
  lemma IntTextEnds(n: int)
    ensures var s := IntToString(n);
      (s[0] == '-' || IsAsciiDigit(s[0])) && IsAsciiDigit(s[|s| - 1])
  {
    var s := IntToString(n);
    var d := if n < 0 then NatToString(-n) else NatToString(n);
    NatToStringRoundTrip(if n < 0 then -n else n);
    assert s == (if n < 0 then "-" else "") + d;
    assert IsAsciiDigit(d[0]) && IsAsciiDigit(d[|d| - 1]);
    assert s[|s| - 1] == d[|d| - 1];
  }

  /** Trimmed text with a point that is not JSON-like reads as a double
      exactly when it is a double literal. */
  lemma DottedText(v: string)
    requires Trim(v) == v && '.' in v && v[0] != '{' && v[0] != '['
    ensures IsDoubleLiteral(v) ==> ParseExampleValue(v) == VDouble(v)
    ensures !IsDoubleLiteral(v) ==> ParseExampleValue(v) == BoolOrString(v)
  {
    assert !StartsWith(v, "{") && !StartsWith(v, "[");
  }

  /** A price with a point is a double. */
  lemma ParsePriceExample()
    ensures ParseExampleValue("19.99") == VDouble("19.99")
  {
    var v := "19.99";
    assert v[0] == '1' && v[4] == '9' && v[2] == '.';
    PriceIsDouble();
    DottedText(v);
  }

  lemma PriceIsDouble()
    ensures IsDoubleLiteral("19.99")
  {
    var v := "19.99";
    assert StripSign(v) == v;
    assert IndexOfAny(v, {'e', 'E'}) == 5;
    assert v[..5] == v;
    assert IndexOfAny(v, {'.'}) == 2;
    assert v[..2] == "19" && v[3..] == "99";
  }

  /** A signed literal with an exponent is a double. */
  lemma ParseExponentExample()
    ensures ParseExampleValue("-1.5e3") == VDouble("-1.5e3")
  {
    var v := "-1.5e3";
    assert v[0] == '-' && v[5] == '3' && v[2] == '.';
    ExponentIsDouble();
    DottedText(v);
  }

  lemma ExponentIsDouble()
    ensures IsDoubleLiteral("-1.5e3")
  {
    assert StripSign("-1.5e3") == "1.5e3";
    assert IndexOfAny("1.5e3", {'e', 'E'}) == 3;
    assert "1.5e3"[..3] == "1.5" && "1.5e3"[4..] == "3";
    assert IndexOfAny("1.5", {'.'}) == 1;
    assert "1.5"[..1] == "1" && "1.5"[2..] == "5";
  }

  /** A version label with two points stays a string. */
  lemma ParseVersionExample()
    ensures ParseExampleValue("1.2.3") == VString("1.2.3")
  {
    var v := "1.2.3";
    assert v[0] == '1' && v[4] == '3' && v[1] == '.';
    VersionIsNotDouble();
    assert !EqualsIgnoreCase(v, "true") && !EqualsIgnoreCase(v, "false");
    DottedText(v);
  }

  lemma VersionIsNotDouble()
    ensures !IsDoubleLiteral("1.2.3")
  {
    var v := "1.2.3";
    assert StripSign(v) == v;
    assert IndexOfAny(v, {'e', 'E'}) == 5;
    assert v[..5] == v;
    assert IndexOfAny(v, {'.'}) == 1;
    assert v[2..] == "2.3";
    assert !AllDigits("2.3") by { assert "2.3"[1] == '.'; }
  }

  /** The boolean words read as booleans in any letter case. */
  lemma ParseBooleanExample(text: string, b: bool)
    requires EqualsIgnoreCase(text, if b then "true" else "false")
    ensures ParseExampleValue(text) == VBool(b)
  {
    BooleanWordShape(text, if b then "true" else "false");
    assert !StartsWith(text, "{") && !StartsWith(text, "[");
  }

  /** A word that lower-cases to a letters-only word: nothing to trim, no
      point, not a number. */
  lemma BooleanWordShape(text: string, w: string)
    requires w == "true" || w == "false"
    requires ToLower(text) == w
    ensures Trim(text) == text && '.' !in text && ParseInt32(text) == None
    ensures |text| > 0 && text[0] != '{' && text[0] != '['
  {
    assert |text| == |w|;
    assert forall i :: 0 <= i < |text| ==> IsAsciiAlnum(text[i]) && !IsAsciiDigit(text[i]) by {
      forall i | 0 <= i < |text| ensures IsAsciiAlnum(text[i]) && !IsAsciiDigit(text[i]) {
        assert LowerChar(text[i]) == w[i];
        assert IsAsciiLower(w[i]);
      }
    }
    assert !IsAsciiDigit(text[1]);
  }

  /** `mapExamples`: one entry per named example, in order; the value
      parsed when present, the name as summary when non-empty. */
  function MapExamples(specs: seq<ExampleSpec>): (r: OMap<Example>)
    ensures Keys(r) == set e | e in specs :: e.name
    ensures DistinctKeys(ExampleEntries(specs)) ==> r == ExampleEntries(specs)
  {
    var entries := ExampleEntries(specs);
    assert DistinctKeys(entries) ==> PutAll([], entries) == entries by {
      if DistinctKeys(entries) {
        PutAllFresh([], entries);
      }
    }
    assert Keys(entries) == set e | e in specs :: e.name by {
      forall e | e in specs ensures e.name in Keys(entries) {
        var i :| 0 <= i < |specs| && specs[i] == e;
        assert entries[i].0 == e.name;
      }
    }
    PutAll([], entries)
  }

  /** The example of one RAML example spec. */
  function MapExample(e: ExampleSpec): (r: Example)
    ensures r.value.Some? <==> e.value.Some?
    ensures e.value.Some? ==> r.value.value == ParseExampleValue(e.value.value)
    ensures r.summary.Some? <==> |e.name| > 0
    ensures r.summary.Some? ==> r.summary.value == e.name
  {
    Example(if e.value.Some? then Some(ParseExampleValue(e.value.value)) else None,
            if |e.name| > 0 then Some(e.name) else None)
  }

  function ExampleEntries(specs: seq<ExampleSpec>): (r: OMap<Example>)
    ensures |r| == |specs| && forall i :: 0 <= i < |specs| ==> r[i] == (specs[i].name, MapExample(specs[i]))
  {
    seq(|specs|, i requires 0 <= i < |specs| => (specs[i].name, MapExample(specs[i])))
  }

  /** `mapMediaType`: the converted schema; the named examples when there
      are any, else the single example parsed. */
  function MapMediaType(body: TypeDecl, reg: set<string>): (r: MediaType)
    ensures r.schema == TypeConverter.ConvertType(body, reg)
    ensures r.examples.Some? <==> |body.examples| > 0
    ensures r.examples.Some? ==> r.examples.value == MapExamples(body.examples)
    ensures r.example.Some? <==> |body.examples| == 0 && body.example.Some?
    ensures r.example.Some? ==> r.example.value == ParseExampleValue(body.example.value)
  {
    if |body.examples| > 0 then
      MediaType(TypeConverter.ConvertType(body, reg), Some(MapExamples(body.examples)), None)
    else if body.example.Some? then
      MediaType(TypeConverter.ConvertType(body, reg), None, Some(ParseExampleValue(body.example.value)))
    else
      MediaType(TypeConverter.ConvertType(body, reg), None, None)
  }

  /** The `(media type, MediaType)` pairs of a body list, in declaration order. */
  function ContentEntries(bodies: seq<TypeDecl>, reg: set<string>): (r: OMap<MediaType>)
    ensures |r| == |bodies|
    ensures forall i :: 0 <= i < |bodies| ==> r[i] == (bodies[i].name, MapMediaType(bodies[i], reg))
  {
    if |bodies| == 0 then []
    else
      var t := ContentEntries(bodies[1..], reg);
      assert forall i :: 1 <= i < |bodies| ==> bodies[i] == bodies[1..][i - 1];
      [(bodies[0].name, MapMediaType(bodies[0], reg))] + t
  }

  /** `mapResponseContent`: one media type per body, keyed by the body name. */
  function MapContent(bodies: seq<TypeDecl>, reg: set<string>): (r: OMap<MediaType>)
    ensures Keys(r) == TypeConverter.Names(bodies)
    ensures |bodies| > 0 ==> |r| > 0
    ensures forall i :: 0 <= i < |bodies| && TypeConverter.LastOfName(bodies, i) ==> Get(r, bodies[i].name) == Some(MapMediaType(bodies[i], reg))
  {
    var entries := ContentEntries(bodies, reg);
    assert forall i :: 0 <= i < |bodies| && TypeConverter.LastOfName(bodies, i) ==> Get(PutAll([], entries), bodies[i].name) == Some(MapMediaType(bodies[i], reg)) by {
      forall i | 0 <= i < |bodies| && TypeConverter.LastOfName(bodies, i) ensures Get(PutAll([], entries), bodies[i].name) == Some(MapMediaType(bodies[i], reg)) {
        PutAllLands([], entries, i);
      }
    }
    TypeConverter.KeysNamed(entries, bodies);
    assert |bodies| > 0 ==> |PutAll([], entries)| > 0 by {
      if |bodies| > 0 {
        TypeConverter.PutAllFromEmptyNonEmpty(entries);
      }
    }
    PutAll([], entries)
  }

  /** One response header; unboxing a null `required` throws. */
  function MapHeader(h: TypeDecl, reg: set<string>): (r: Outcome<Header>)
    ensures r.Err? <==> h.required.None?
    ensures r.Err? ==> r.error == NullPointer
    ensures r.Ok? ==> r.value.required == h.required.value && r.value.description == h.description
    ensures r.Ok? ==> r.value.schema == TypeConverter.ConvertType(h, reg) && r.value.example == h.example
  {
    if h.required.None? then Err(NullPointer)
    else Ok(Header(h.description, h.required.value, TypeConverter.ConvertType(h, reg), h.example))
  }

  /** `mapResponseHeaders`: headers in order, keyed by name. */
  function MapHeaders(hs: seq<TypeDecl>, reg: set<string>, acc: OMap<Header>): (r: Outcome<OMap<Header>>)
    ensures r.Err? <==> exists h | h in hs :: h.required.None?
    ensures r.Err? ==> r.error == NullPointer
    ensures r.Ok? ==> Keys(r.value) == Keys(acc) + TypeConverter.Names(hs)
    decreases |hs|
  {
    if |hs| == 0 then
      assert TypeConverter.Names(hs) == {};
      Ok(acc)
    else
      assert forall h | h in hs[1..] :: h in hs;
      assert forall h | h in hs :: h == hs[0] || h in hs[1..];
      assert TypeConverter.Names(hs) == {hs[0].name} + TypeConverter.Names(hs[1..]);
      var h :- MapHeader(hs[0], reg);
      MapHeaders(hs[1..], reg, Put(acc, hs[0].name, h))
  }

  /** One turn of the header loop that succeeds. */
  lemma HeadersStep(hs: seq<TypeDecl>, reg: set<string>, acc: OMap<Header>)
    requires |hs| > 0 && MapHeaders(hs, reg, acc).Ok?
    ensures MapHeader(hs[0], reg).Ok?
    ensures MapHeaders(hs, reg, acc) == MapHeaders(hs[1..], reg, Put(acc, hs[0].name, MapHeader(hs[0], reg).value))
  {
  }

  /** A header whose name no later header repeats is mapped under its name. */
  lemma {:induction false} HeaderLands(hs: seq<TypeDecl>, reg: set<string>, acc: OMap<Header>, i: nat)
    requires i < |hs|
    requires forall j :: i < j < |hs| ==> hs[j].name != hs[i].name
    requires MapHeaders(hs, reg, acc).Ok?
    ensures MapHeader(hs[i], reg).Ok?
    ensures Get(MapHeaders(hs, reg, acc).value, hs[i].name) == Some(MapHeader(hs[i], reg).value)
    decreases |hs|
  {
    HeadersStep(hs, reg, acc);
    var rest := hs[1..];
    assert forall j :: 0 <= j < |rest| ==> rest[j] == hs[j + 1];
    var h := MapHeader(hs[0], reg).value;
    var acc' := Put(acc, hs[0].name, h);
    if i == 0 {
      GetPut(acc, hs[0].name, h, hs[0].name);
      HeaderKept(rest, reg, acc', hs[0].name);
    } else {
      HeaderLands(rest, reg, acc', i - 1);
    }
  }

  /** A name no header uses keeps its value. */
  lemma {:induction false} HeaderKept(hs: seq<TypeDecl>, reg: set<string>, acc: OMap<Header>, name: string)
    requires forall j :: 0 <= j < |hs| ==> hs[j].name != name
    requires MapHeaders(hs, reg, acc).Ok?
    ensures Get(MapHeaders(hs, reg, acc).value, name) == Get(acc, name)
    decreases |hs|
  {
    if |hs| > 0 {
      HeadersStep(hs, reg, acc);
      var rest := hs[1..];
      assert forall j :: 0 <= j < |rest| ==> rest[j] == hs[j + 1];
      var h := MapHeader(hs[0], reg).value;
      GetPut(acc, hs[0].name, h, name);
      HeaderKept(rest, reg, Put(acc, hs[0].name, h), name);
    }
  }

  /** The status codes with a fixed fallback description. */
  const KNOWN_CODES: set<string> :=
    {"200", "201", "202", "204", "400", "401", "403", "404", "409", "422", "500", "502", "503"}

  /** `getDefaultDescriptionForCode`. */
  function DefaultDescriptionForCode(code: string): (r: string)
    ensures |r| > 0
    ensures r == "Response" <==> code !in KNOWN_CODES
  {
    match code
    case "200" => "Successful response"
    case "201" => "Created"
    case "202" => "Accepted"
    case "204" => "No content"
    case "400" => "Bad request"
    case "401" => "Unauthorized"
    case "403" => "Forbidden"
    case "404" => "Not found"
    case "409" => "Conflict"
    case "422" => "Unprocessable entity"
    case "500" => "Internal server error"
    case "502" => "Bad gateway"
    case "503" => "Service unavailable"
    case _ => "Response"
  }

  /** Distinct known codes get distinct descriptions. */
  lemma DefaultDescriptionsDistinct(a: string, b: string)
    requires a in KNOWN_CODES && b in KNOWN_CODES && a != b
    ensures DefaultDescriptionForCode(a) != DefaultDescriptionForCode(b)
  {
  }

  /** `getResponseDescription`: the response's own description, else the
      fallback for its code. */
  function ResponseDescription(resp: Response): (r: string)
    ensures resp.description.Some? ==> r == resp.description.value
    ensures resp.description.None? ==> r == DefaultDescriptionForCode(resp.code)
  {
    resp.description.GetOr(DefaultDescriptionForCode(resp.code))
  }

  /** `mapResponse`: description, content only when there are bodies,
      headers only when there are headers. */
  function MapResponse(resp: Response, reg: set<string>): (r: Outcome<ApiResponse>)
    ensures r.Err? <==> exists h | h in resp.headers :: h.required.None?
    ensures r.Err? ==> r.error == NullPointer
    ensures r.Ok? ==> r.value.description == ResponseDescription(resp)
    ensures r.Ok? ==> (r.value.content.Some? <==> |resp.body| > 0)
    ensures r.Ok? && r.value.content.Some? ==> r.value.content.value == MapContent(resp.body, reg)
    ensures r.Ok? ==> (r.value.headers.Some? <==> |resp.headers| > 0)
    ensures r.Ok? && r.value.headers.Some? ==> Keys(r.value.headers.value) == TypeConverter.Names(resp.headers)
    ensures r.Ok? && r.value.headers.Some? ==> MapHeaders(resp.headers, reg, []) == Ok(r.value.headers.value)
  {
    var content := if |resp.body| > 0 then Some(MapContent(resp.body, reg)) else None;
    if |resp.headers| > 0 then
      var hs :- MapHeaders(resp.headers, reg, []);
      Ok(ApiResponse(ResponseDescription(resp), content, Some(hs)))
    else
      Ok(ApiResponse(ResponseDescription(resp), content, None))
  }

  /** A header of a mapped response whose name no later header repeats is
      mapped under its name. */
  lemma ResponseHeaderLands(resp: Response, reg: set<string>, i: nat)
    requires i < |resp.headers|
    requires forall j :: i < j < |resp.headers| ==> resp.headers[j].name != resp.headers[i].name
    requires MapResponse(resp, reg).Ok?
    ensures MapHeader(resp.headers[i], reg).Ok?
    ensures MapResponse(resp, reg).value.headers.Some?
    ensures Get(MapResponse(resp, reg).value.headers.value, resp.headers[i].name) == Some(MapHeader(resp.headers[i], reg).value)
  {
    assert MapHeaders(resp.headers, reg, []).Ok?;
    HeaderLands(resp.headers, reg, [], i);
  }

  /** The response used when a method declares none. */
  const DefaultResponse := ApiResponse("Successful response", None, None)

  /** `mapResponses`: a lone `default` response when none are declared,
      else one entry per status code, in order. */
  function MapResponses(resps: seq<Response>, reg: set<string>): (r: Outcome<OMap<ApiResponse>>)
    ensures |resps| == 0 ==> r == Ok([("default", DefaultResponse)])
    ensures r.Err? <==> exists resp, h | resp in resps && h in resp.headers :: h.required.None?
    ensures r.Err? ==> r.error == NullPointer
    ensures r.Ok? ==> |r.value| > 0
    ensures r.Ok? && |resps| > 0 ==> Keys(r.value) == set resp | resp in resps :: resp.code
    ensures r.Ok? ==> forall i :: 0 <= i < |resps| && LastOfCode(resps, i) ==>
              MapResponse(resps[i], reg).Ok? && Get(r.value, resps[i].code) == Some(MapResponse(resps[i], reg).value)
  {
    if |resps| == 0 then Ok([("default", DefaultResponse)])
    else
      var r := MapResponsesFrom(resps, reg, []);
      assert r.Ok? ==> resps[0].code in Keys(r.value);
      assert r.Ok? ==> forall i :: 0 <= i < |resps| && LastOfCode(resps, i) ==>
              MapResponse(resps[i], reg).Ok? && Get(r.value, resps[i].code) == Some(MapResponse(resps[i], reg).value) by {
        if r.Ok? {
          forall i | 0 <= i < |resps| && LastOfCode(resps, i)
            ensures MapResponse(resps[i], reg).Ok? && Get(r.value, resps[i].code) == Some(MapResponse(resps[i], reg).value)
          {
            ResponseLands(resps, reg, [], i);
          }
        }
      }
      r
  }

  /** No response after the `i`-th repeats its code. */
  predicate LastOfCode(resps: seq<Response>, i: nat)
    requires i < |resps|
  {
    forall j :: i < j < |resps| ==> resps[j].code != resps[i].code
  }

  function MapResponsesFrom(resps: seq<Response>, reg: set<string>, acc: OMap<ApiResponse>): (r: Outcome<OMap<ApiResponse>>)
    ensures r.Err? <==> exists resp, h | resp in resps && h in resp.headers :: h.required.None?
    ensures r.Err? ==> r.error == NullPointer
    ensures r.Ok? ==> Keys(r.value) == Keys(acc) + set resp | resp in resps :: resp.code
    decreases |resps|
  {
    if |resps| == 0 then Ok(acc)
    else
      assert forall x | x in resps[1..] :: x in resps;
      assert forall x | x in resps :: x == resps[0] || x in resps[1..];
      assert (set resp | resp in resps :: resp.code) == {resps[0].code} + set resp | resp in resps[1..] :: resp.code;
      var a :- MapResponse(resps[0], reg);
      MapResponsesFrom(resps[1..], reg, Put(acc, resps[0].code, a))
  }

  /** One turn of the response loop that succeeds. */
  lemma ResponsesStep(resps: seq<Response>, reg: set<string>, acc: OMap<ApiResponse>)
    requires |resps| > 0 && MapResponsesFrom(resps, reg, acc).Ok?
    ensures MapResponse(resps[0], reg).Ok?
    ensures MapResponsesFrom(resps, reg, acc) ==
      MapResponsesFrom(resps[1..], reg, Put(acc, resps[0].code, MapResponse(resps[0], reg).value))
  {
  }

  /** A response whose code no later response repeats is mapped under its
      code. */
  lemma {:induction false} ResponseLands(resps: seq<Response>, reg: set<string>, acc: OMap<ApiResponse>, i: nat)
    requires i < |resps|
    requires forall j :: i < j < |resps| ==> resps[j].code != resps[i].code
    requires MapResponsesFrom(resps, reg, acc).Ok?
    ensures MapResponse(resps[i], reg).Ok?
    ensures Get(MapResponsesFrom(resps, reg, acc).value, resps[i].code) == Some(MapResponse(resps[i], reg).value)
    decreases |resps|
  {
    ResponsesStep(resps, reg, acc);
    var rest := resps[1..];
    assert forall j :: 0 <= j < |rest| ==> rest[j] == resps[j + 1];
    var a := MapResponse(resps[0], reg).value;
    var acc' := Put(acc, resps[0].code, a);
    if i == 0 {
      GetPut(acc, resps[0].code, a, resps[0].code);
      ResponseKept(rest, reg, acc', resps[0].code);
    } else {
      ResponseLands(rest, reg, acc', i - 1);
    }
  }

  /** A code no response uses keeps its value. */
  lemma {:induction false} ResponseKept(resps: seq<Response>, reg: set<string>, acc: OMap<ApiResponse>, code: string)
    requires forall j :: 0 <= j < |resps| ==> resps[j].code != code
    requires MapResponsesFrom(resps, reg, acc).Ok?
    ensures Get(MapResponsesFrom(resps, reg, acc).value, code) == Get(acc, code)
    decreases |resps|
  {
    if |resps| > 0 {
      ResponsesStep(resps, reg, acc);
      var rest := resps[1..];
      assert forall j :: 0 <= j < |rest| ==> rest[j] == resps[j + 1];
      var a := MapResponse(resps[0], reg).value;
      GetPut(acc, resps[0].code, a, code);
      ResponseKept(rest, reg, Put(acc, resps[0].code, a), code);
    }
  }
}
