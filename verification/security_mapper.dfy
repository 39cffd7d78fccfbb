/** `SecurityMapper`: RAML security-scheme declarations to OpenAPI security
    schemes, dispatched on the scheme's type name, and the API's global
    `securedBy` to security requirements. */
module SecurityMapper {
  import opened Wrappers
  import opened Values
  import opened Strings
  import opened OrderedMaps
  import Raml
  import opened OpenApi

  // ---------------------------------------------------------------------
  // OAuth 2.0 flows

  /** What one character of a scope name becomes in its description. */
  function ScopeCharText(c: char): string {
    if c == ':' then " - " else if c == '_' then " " else [c]
  }

  /** Reference definition of a scope description: each character replaced
      by its text, in a single pass. */
  function DescribedChars(scope: string): string {
    if |scope| == 0 then [] else ScopeCharText(scope[0]) + DescribedChars(scope[1..])
  }

  /** The generated description of a scope: `:` becomes ` - `, `_` a space. */
  function ScopeDescription(scope: string): (r: string)
    ensures r == DescribedChars(scope)
    ensures ':' !in r && '_' !in r
    ensures ':' !in scope && '_' !in scope ==> r == scope
    ensures forall x | x in scope && x != ':' && x != '_' :: x in r || x == ' '
  {
    var r := ReplaceChar(ReplaceChar(scope, ':', " - "), '_', " ");
    TwoReplacementsPerChar(scope);
    assert forall x | x in scope && x != ':' && x != '_' :: x in r by {
      forall x | x in scope && x != ':' && x != '_' ensures x in r {
        ReplaceCharKeeps(scope, ':', " - ", x);
        ReplaceCharKeeps(ReplaceChar(scope, ':', " - "), '_', " ", x);
      }
    }
    r
  }

  /** Replacing `:` and then `_` is the single per-character pass: no
      replacement text of the first step holds a `_`. */
  lemma {:induction false} TwoReplacementsPerChar(scope: string)
    ensures ReplaceChar(ReplaceChar(scope, ':', " - "), '_', " ") == DescribedChars(scope)
    decreases |scope|
  {
    if |scope| > 0 {
      var c := scope[0];
      var head := if c == ':' then " - " else [c];
      assert ReplaceChar(scope, ':', " - ") == head + ReplaceChar(scope[1..], ':', " - ");
      ReplaceCharAppend(head, ReplaceChar(scope[1..], ':', " - "), '_', " ");
      assert ReplaceChar(head, '_', " ") == ScopeCharText(c) by {
        if c == ':' {
          assert '_' !in " - ";
        } else {
          assert ReplaceChar([c], '_', " ") == (if c == '_' then " " else [c]) + ReplaceChar([], '_', " ");
        }
      }
      TwoReplacementsPerChar(scope[1..]);
    }
  }

  /** A character other than the replaced one survives the replacement. */
  lemma {:induction false} ReplaceCharKeeps(s: string, c: char, rep: string, x: char)
    requires x in s && x != c
    ensures x in ReplaceChar(s, c, rep)
    decreases |s|
  {
    if s[0] != x {
      assert x in s[1..] by {
        var i :| 0 <= i < |s| && s[i] == x;
        assert s[1..][i - 1] == x;
      }
      ReplaceCharKeeps(s[1..], c, rep, x);
    }
  }

  /** The `Scopes` entries in declaration order: each scope with its description. */
  function ScopeEntries(scopes: seq<string>): (r: OMap<string>)
    ensures |r| == |scopes|
    ensures forall i :: 0 <= i < |scopes| ==> r[i] == (scopes[i], ScopeDescription(scopes[i]))
  {
    if |scopes| == 0 then []
    else
      var t := ScopeEntries(scopes[1..]);
      assert forall i :: 1 <= i < |scopes| ==> scopes[i] == scopes[1..][i - 1];
      [(scopes[0], ScopeDescription(scopes[0]))] + t
  }

  /** A URL is set only when it is present and non-empty. */
  function NonEmpty(u: Option<string>): (r: Option<string>)
    ensures r.Some? <==> u.Some? && u.value != []
    ensures r.Some? ==> r == u
  {
    if u.Some? && u.value != [] then u else None
  }

  /** `createOAuthFlow`: the URLs that are present and non-empty, and one
      scope entry per listed scope. */
  function CreateOAuthFlow(authorizationUrl: Option<string>, tokenUrl: Option<string>, scopes: seq<string>): (r: OAuthFlow)
    ensures r.authorizationUrl.Some? <==> authorizationUrl.Some? && authorizationUrl.value != []
    ensures r.authorizationUrl.Some? ==> r.authorizationUrl == authorizationUrl
    ensures r.tokenUrl.Some? <==> tokenUrl.Some? && tokenUrl.value != []
    ensures r.tokenUrl.Some? ==> r.tokenUrl == tokenUrl
    ensures Keys(r.scopes) == set i | 0 <= i < |scopes| :: scopes[i]
  {
    var entries := ScopeEntries(scopes);
    assert Keys(entries) == set i | 0 <= i < |scopes| :: scopes[i] by {
      forall k | k in Keys(entries) ensures k in set i | 0 <= i < |scopes| :: scopes[i] {
        var i :| 0 <= i < |entries| && entries[i].0 == k;
        assert scopes[i] == k;
      }
      forall k | k in set i | 0 <= i < |scopes| :: scopes[i] ensures k in Keys(entries) {
        var i :| 0 <= i < |scopes| && scopes[i] == k;
        assert entries[i].0 == k;
      }
    }
    OAuthFlow(NonEmpty(authorizationUrl), NonEmpty(tokenUrl), PutAll([], entries))
  }

  /** Looking a scope up after the entries are put: every listed scope maps
      to its generated description; other keys keep their old value. */
  lemma {:induction false} ScopesGet(m: OMap<string>, scopes: seq<string>, k: string)
    ensures Get(PutAll(m, ScopeEntries(scopes)), k) == if k in scopes then Some(ScopeDescription(k)) else Get(m, k)
    decreases |scopes|
  {
    if |scopes| > 0 {
      var m' := Put(m, scopes[0], ScopeDescription(scopes[0]));
      ScopesGet(m', scopes[1..], k);
      GetPut(m, scopes[0], ScopeDescription(scopes[0]), k);
      InCons(scopes, k);
    }
  }

  lemma InCons(scopes: seq<string>, k: string)
    requires |scopes| > 0
    ensures k in scopes <==> k == scopes[0] || k in scopes[1..]
  {
    assert scopes == [scopes[0]] + scopes[1..];
  }

  /** Every scope of a created flow is described by its generated description. */
  lemma FlowScopes(authorizationUrl: Option<string>, tokenUrl: Option<string>, scopes: seq<string>, k: string)
    ensures Get(CreateOAuthFlow(authorizationUrl, tokenUrl, scopes).scopes, k) ==
      if k in scopes then Some(ScopeDescription(k)) else None
  {
    ScopesGet([], scopes, k);
  }

  /** Some grant of the list names `g`, ignoring ASCII case. */
  predicate HasGrant(grants: seq<string>, g: string) {
    exists i :: 0 <= i < |grants| && ToLower(grants[i]) == g
  }

  /** The flow each known grant type sets, from the settings' URLs and scopes:
      the implicit flow has no token URL, password and client-credentials no
      authorization URL. */
  function AuthorizationCodeFlow(s: Raml.OAuth2Settings): OAuthFlow {
    CreateOAuthFlow(s.authorizationUri, s.accessTokenUri, s.scopes)
  }

  function ImplicitFlow(s: Raml.OAuth2Settings): OAuthFlow {
    CreateOAuthFlow(s.authorizationUri, None, s.scopes)
  }

  function TokenOnlyFlow(s: Raml.OAuth2Settings): OAuthFlow {
    CreateOAuthFlow(None, s.accessTokenUri, s.scopes)
  }

  /** One turn of the grant loop: a known grant type (case-insensitive) sets
      its flow; an unknown one is skipped. */
  function ApplyGrant(flows: OAuthFlows, grant: string, s: Raml.OAuth2Settings): (r: OAuthFlows)
    ensures r.authorizationCode == if ToLower(grant) == "authorization_code" then Some(AuthorizationCodeFlow(s)) else flows.authorizationCode
    ensures r.implicit == if ToLower(grant) == "implicit" then Some(ImplicitFlow(s)) else flows.implicit
    ensures r.password == if ToLower(grant) == "password" then Some(TokenOnlyFlow(s)) else flows.password
    ensures r.clientCredentials == if ToLower(grant) == "client_credentials" then Some(TokenOnlyFlow(s)) else flows.clientCredentials
  {
    var g := ToLower(grant);
    if g == "authorization_code" then flows.(authorizationCode := Some(AuthorizationCodeFlow(s)))
    else if g == "implicit" then flows.(implicit := Some(ImplicitFlow(s)))
    else if g == "password" then flows.(password := Some(TokenOnlyFlow(s)))
    else if g == "client_credentials" then flows.(clientCredentials := Some(TokenOnlyFlow(s)))
    else flows
  }

  /** A grant is in the list when it is its head or in its tail. */
  lemma HasGrantCons(grants: seq<string>, g: string)
    requires |grants| > 0
    ensures HasGrant(grants, g) <==> ToLower(grants[0]) == g || HasGrant(grants[1..], g)
  {
    if HasGrant(grants[1..], g) {
      var i :| 0 <= i < |grants[1..]| && ToLower(grants[1..][i]) == g;
      assert ToLower(grants[i + 1]) == g;
    }
    if HasGrant(grants, g) && ToLower(grants[0]) != g {
      var i :| 0 <= i < |grants| && ToLower(grants[i]) == g;
      assert ToLower(grants[1..][i - 1]) == g;
    }
  }

  /** The grant loop: a flow is set exactly when some grant names it, however
      often and wherever in the list; unset flows keep their value. */
  function ApplyGrants(flows: OAuthFlows, grants: seq<string>, s: Raml.OAuth2Settings): (r: OAuthFlows)
    ensures r.authorizationCode == if HasGrant(grants, "authorization_code") then Some(AuthorizationCodeFlow(s)) else flows.authorizationCode
    ensures r.implicit == if HasGrant(grants, "implicit") then Some(ImplicitFlow(s)) else flows.implicit
    ensures r.password == if HasGrant(grants, "password") then Some(TokenOnlyFlow(s)) else flows.password
    ensures r.clientCredentials == if HasGrant(grants, "client_credentials") then Some(TokenOnlyFlow(s)) else flows.clientCredentials
    decreases |grants|
  {
    if |grants| == 0 then flows
    else
      HasGrantCons(grants, "authorization_code");
      HasGrantCons(grants, "implicit");
      HasGrantCons(grants, "password");
      HasGrantCons(grants, "client_credentials");
      ApplyGrants(ApplyGrant(flows, grants[0], s), grants[1..], s)
  }

  /** The settings read from a scheme: absent settings read as nothing. */
  function SettingsOf(settings: Option<Raml.OAuth2Settings>): (r: Raml.OAuth2Settings)
    ensures settings.None? ==> r.authorizationGrants == [] && r.scopes == []
    ensures settings.Some? ==> r == settings.value
  {
    if settings.Some? then settings.value else Raml.OAuth2Settings(None, None, [], [])
  }

  /** The flows of an OAuth 2.0 scheme. Without grants only the
      authorization-code flow is set; with grants, exactly the flows they
      name are set, so a list of unknown grants sets none. */
  function OAuth2Flows(settings: Option<Raml.OAuth2Settings>): (r: OAuthFlows)
    ensures var s := SettingsOf(settings);
      s.authorizationGrants == [] ==> r == NoFlows.(authorizationCode := Some(AuthorizationCodeFlow(s)))
    ensures var s := SettingsOf(settings);
      s.authorizationGrants != [] ==>
        && r.authorizationCode == (if HasGrant(s.authorizationGrants, "authorization_code") then Some(AuthorizationCodeFlow(s)) else None)
        && r.implicit == (if HasGrant(s.authorizationGrants, "implicit") then Some(ImplicitFlow(s)) else None)
        && r.password == (if HasGrant(s.authorizationGrants, "password") then Some(TokenOnlyFlow(s)) else None)
        && r.clientCredentials == (if HasGrant(s.authorizationGrants, "client_credentials") then Some(TokenOnlyFlow(s)) else None)
    ensures r.authorizationCode.Some? ==> r.authorizationCode == Some(AuthorizationCodeFlow(SettingsOf(settings)))
    ensures r.implicit.Some? ==> r.implicit.value.tokenUrl.None?
    ensures r.password.Some? ==> r.password.value.authorizationUrl.None?
    ensures r.clientCredentials.Some? ==> r.clientCredentials.value.authorizationUrl.None?
  {
    var s := SettingsOf(settings);
    if s.authorizationGrants != [] then ApplyGrants(NoFlows, s.authorizationGrants, s)
    else NoFlows.(authorizationCode := Some(AuthorizationCodeFlow(s)))
  }

  // ---------------------------------------------------------------------
  // One scheme

  /** The lowercased type names with a dedicated mapping; every other type,
      `x-custom` and `x-other` included, is mapped as a custom scheme. */
  const OAUTH2 := "oauth 2.0"
  const OAUTH1 := "oauth 1.0"
  const BASIC := "basic authentication"
  const DIGEST := "digest authentication"
  const PASS_THROUGH := "pass through"

  predicate IsCustomType(t: string) {
    ToLower(t) !in {OAUTH2, OAUTH1, BASIC, DIGEST, PASS_THROUGH}
  }

  /** The API key name and location of a pass-through scheme: the first
      declared header, else the first declared query parameter, else
      `api_key` in a header. */
  function PassThroughKey(d: Option<Raml.DescribedBy>): (r: (string, KeyLocation))
    ensures r.1 == KeyInQuery <==> d.Some? && d.value.headers == [] && d.value.queryParameters != []
    ensures d.Some? && d.value.headers != [] ==> r == (d.value.headers[0], KeyInHeader)
    ensures d.Some? && d.value.headers == [] && d.value.queryParameters != [] ==> r == (d.value.queryParameters[0], KeyInQuery)
    ensures d.None? || (d.value.headers == [] && d.value.queryParameters == []) ==> r == ("api_key", KeyInHeader)
  {
    if d.Some? && d.value.headers != [] then (d.value.headers[0], KeyInHeader)
    else if d.Some? && d.value.queryParameters != [] then (d.value.queryParameters[0], KeyInQuery)
    else ("api_key", KeyInHeader)
  }

  /** A scheme with only its description set. */
  function Described(description: Option<string>): OpenApi.SecurityScheme {
    OpenApi.SecurityScheme(None, description, None, None, None, None, [])
  }

  /** An API key sent in the `Authorization` header, tagged with the RAML type. */
  function AuthorizationHeaderKey(description: Option<string>, ramlType: string): OpenApi.SecurityScheme {
    Described(description).(schemeType := Some(ApiKey), keyLocation := Some(KeyInHeader),
      keyName := Some("Authorization"), extensions := [("x-raml-type", VString(ramlType))])
  }

  /** `mapSecurityScheme`. A scheme without a type fails (the type is
      lowercased before the dispatch). The description is copied; the type
      decides everything else: OAuth 2.0 gets flows, basic and digest become
      HTTP schemes, pass-through an API key where its first header or query
      parameter says, OAuth 1.0 and everything else an API key in the
      `Authorization` header tagged `x-raml-type`. */
  function MapSecurityScheme(s: Raml.SecurityScheme): (r: Outcome<OpenApi.SecurityScheme>)
    ensures r.Err? <==> s.schemeType.None?
    ensures r.Err? ==> r.error == NullPointer
    ensures r.Ok? ==> r.value.description == s.description && r.value.schemeType.Some?
    ensures r.Ok? ==> var t := ToLower(s.schemeType.value);
      && (r.value.schemeType == Some(OAuth2) <==> t == OAUTH2)
      && (r.value.schemeType == Some(Http) <==> t == BASIC || t == DIGEST)
      && (r.value.schemeType == Some(ApiKey) <==> t != OAUTH2 && t != BASIC && t != DIGEST)
      && (r.value.flows.Some? <==> t == OAUTH2)
      && (r.value.flows.Some? ==> r.value.flows == Some(OAuth2Flows(s.settings)))
      && (r.value.httpScheme.Some? <==> t == BASIC || t == DIGEST)
      && (t == BASIC ==> r.value.httpScheme == Some("basic"))
      && (t == DIGEST ==> r.value.httpScheme == Some("digest"))
      && (r.value.keyName.Some? <==> r.value.schemeType == Some(ApiKey))
      && (r.value.keyLocation.Some? <==> r.value.schemeType == Some(ApiKey))
      && (t == PASS_THROUGH ==> (r.value.keyName.value, r.value.keyLocation.value) == PassThroughKey(s.describedBy))
      && (r.value.extensions != [] <==> t == OAUTH1 || IsCustomType(s.schemeType.value))
      && (t == OAUTH1 ==> r.value.extensions == [("x-raml-type", VString("OAuth 1.0"))] &&
                          r.value.keyName == Some("Authorization") && r.value.keyLocation == Some(KeyInHeader))
      && (IsCustomType(s.schemeType.value) ==>
            r.value.extensions == [("x-raml-type", VString(s.schemeType.value))] &&
            r.value.keyName == Some("Authorization") && r.value.keyLocation == Some(KeyInHeader))
  {
    if s.schemeType.None? then Err(NullPointer)
    else
      var ramlType := s.schemeType.value;
      var base := Described(s.description);
      var t := ToLower(ramlType);
      if t == OAUTH2 then Ok(base.(schemeType := Some(OAuth2), flows := Some(OAuth2Flows(s.settings))))
      else if t == OAUTH1 then Ok(AuthorizationHeaderKey(s.description, "OAuth 1.0"))
      else if t == BASIC then Ok(base.(schemeType := Some(Http), httpScheme := Some("basic")))
      else if t == DIGEST then Ok(base.(schemeType := Some(Http), httpScheme := Some("digest")))
      else if t == PASS_THROUGH then
        var key := PassThroughKey(s.describedBy);
        Ok(base.(schemeType := Some(ApiKey), keyName := Some(key.0), keyLocation := Some(key.1)))
      else Ok(AuthorizationHeaderKey(s.description, ramlType))
  }

  /** The case of the type name does not matter, except for the tag a custom
      scheme carries. */
  lemma TypeCaseInsensitive(s: Raml.SecurityScheme, other: string)
    requires s.schemeType.Some? && ToLower(other) == ToLower(s.schemeType.value)
    requires !IsCustomType(other)
    ensures MapSecurityScheme(s.(schemeType := Some(other))) == MapSecurityScheme(s)
  {
  }

  // ---------------------------------------------------------------------
  // All schemes

  /** The error a strict mapping reports for a scheme that fails. */
  function SchemeFailure(name: string, e: Error): Error {
    ConverterException("Failed to map security scheme '" + name + "': " + Message(e))
  }

  /** Names of the schemes that map (those with a type). */
  function MappedNames(schemes: seq<Raml.SecurityScheme>): (r: set<string>)
    ensures forall i :: 0 <= i < |schemes| && schemes[i].schemeType.Some? ==> schemes[i].name in r
    ensures forall n | n in r :: exists i :: 0 <= i < |schemes| && schemes[i].schemeType.Some? && schemes[i].name == n
  {
    set i | 0 <= i < |schemes| && schemes[i].schemeType.Some? :: schemes[i].name
  }

  /** Index of the first scheme without a type (`|schemes|` when none). */
  function FirstUntyped(schemes: seq<Raml.SecurityScheme>): (k: nat)
    ensures k <= |schemes|
    ensures forall j :: 0 <= j < k ==> schemes[j].schemeType.Some?
    ensures k < |schemes| ==> schemes[k].schemeType.None?
  {
    if |schemes| == 0 then 0
    else if schemes[0].schemeType.None? then 0
    else 1 + FirstUntyped(schemes[1..])
  }

  /** The scheme loop: each scheme that maps is put under its name (a
      repeated name keeps its first position and takes the later value).
      A scheme that fails aborts a strict mapping and is skipped by a
      lenient one. */
  function MapSchemes(schemes: seq<Raml.SecurityScheme>, strict: bool, acc: OMap<OpenApi.SecurityScheme>): (r: Outcome<OMap<OpenApi.SecurityScheme>>)
    ensures !strict ==> r.Ok?
    ensures strict ==> (r.Err? <==> exists i :: 0 <= i < |schemes| && schemes[i].schemeType.None?)
    ensures r.Ok? ==> Keys(r.value) == Keys(acc) + MappedNames(schemes)
    decreases |schemes|
  {
    if |schemes| == 0 then Ok(acc)
    else
      var s := schemes[0];
      assert forall i :: 1 <= i < |schemes| ==> schemes[1..][i - 1] == schemes[i];
      assert MappedNames(schemes) == (if s.schemeType.Some? then {s.name} else {}) + MappedNames(schemes[1..]);
      match MapSecurityScheme(s)
      case Ok(v) => MapSchemes(schemes[1..], strict, Put(acc, s.name, v))
      case Err(e) =>
        if strict then Err(SchemeFailure(s.name, e))
        else MapSchemes(schemes[1..], strict, acc)
  }

  /** A strict mapping reports the first scheme without a type. */
  lemma {:induction false} MapSchemesReportsFirst(schemes: seq<Raml.SecurityScheme>, acc: OMap<OpenApi.SecurityScheme>)
    requires FirstUntyped(schemes) < |schemes|
    ensures MapSchemes(schemes, true, acc) == Err(SchemeFailure(schemes[FirstUntyped(schemes)].name, NullPointer))
    decreases |schemes|
  {
    var s := schemes[0];
    if s.schemeType.Some? {
      var v := MapSecurityScheme(s).value;
      MapSchemesReportsFirst(schemes[1..], Put(acc, s.name, v));
    }
  }

  /** A scheme whose name no later scheme reuses ends up under its name,
      mapped. */
  lemma {:induction false} SchemeLands(schemes: seq<Raml.SecurityScheme>, strict: bool, acc: OMap<OpenApi.SecurityScheme>, i: nat)
    requires i < |schemes| && schemes[i].schemeType.Some?
    requires forall j :: i < j < |schemes| ==> schemes[j].name != schemes[i].name
    requires MapSchemes(schemes, strict, acc).Ok?
    ensures Get(MapSchemes(schemes, strict, acc).value, schemes[i].name) == Some(MapSecurityScheme(schemes[i]).value)
    decreases |schemes|
  {
    if i == 0 {
      SchemeLandsFirst(schemes, strict, acc);
    } else {
      var s := schemes[0];
      var rest := schemes[1..];
      assert rest[i - 1] == schemes[i];
      assert forall j :: i - 1 < j < |rest| ==> rest[j] == schemes[j + 1];
      match MapSecurityScheme(s)
      case Ok(v) => SchemeLands(rest, strict, Put(acc, s.name, v), i - 1);
      case Err(_) => SchemeLands(rest, strict, acc, i - 1);
    }
  }

  /** The first scheme, when no later scheme reuses its name. */
  lemma SchemeLandsFirst(schemes: seq<Raml.SecurityScheme>, strict: bool, acc: OMap<OpenApi.SecurityScheme>)
    requires |schemes| > 0 && schemes[0].schemeType.Some?
    requires forall j :: 0 < j < |schemes| ==> schemes[j].name != schemes[0].name
    requires MapSchemes(schemes, strict, acc).Ok?
    ensures Get(MapSchemes(schemes, strict, acc).value, schemes[0].name) == Some(MapSecurityScheme(schemes[0]).value)
  {
    var s := schemes[0];
    var rest := schemes[1..];
    var v := MapSecurityScheme(s).value;
    var acc' := Put(acc, s.name, v);
    assert forall j :: 0 <= j < |rest| ==> rest[j] == schemes[j + 1];
    GetPut(acc, s.name, v, s.name);
    SchemeKept(rest, strict, acc', s.name);
  }

  /** A name that no scheme uses keeps its value through the loop. */
  lemma {:induction false} SchemeKept(schemes: seq<Raml.SecurityScheme>, strict: bool, acc: OMap<OpenApi.SecurityScheme>, name: string)
    requires forall j :: 0 <= j < |schemes| ==> schemes[j].name != name
    requires MapSchemes(schemes, strict, acc).Ok?
    ensures Get(MapSchemes(schemes, strict, acc).value, name) == Get(acc, name)
    decreases |schemes|
  {
    if |schemes| > 0 {
      var s := schemes[0];
      assert forall j :: 0 <= j < |schemes[1..]| ==> schemes[1..][j] == schemes[j + 1];
      match MapSecurityScheme(s)
      case Ok(v) =>
        GetPut(acc, s.name, v, name);
        SchemeKept(schemes[1..], strict, Put(acc, s.name, v), name);
      case Err(_) =>
        SchemeKept(schemes[1..], strict, acc, name);
    }
  }

  /** `map`: a missing API is an error; otherwise every declared scheme is
      mapped under its name. */
  function Map(api: Option<Raml.Api>, strict: bool): (r: Outcome<OMap<OpenApi.SecurityScheme>>)
    ensures api.None? ==> r == Err(ConverterException("Cannot map null API to security schemes"))
    ensures api.Some? && !strict ==> r.Ok?
    ensures api.Some? && strict ==>
      (r.Err? <==> exists i :: 0 <= i < |api.value.securitySchemes| && api.value.securitySchemes[i].schemeType.None?)
    ensures r.Ok? ==> Keys(r.value) == MappedNames(api.value.securitySchemes)
  {
    if api.None? then Err(ConverterException("Cannot map null API to security schemes"))
    else MapSchemes(api.value.securitySchemes, strict, [])
  }

  // ---------------------------------------------------------------------
  // Global requirements

  /** The names of the named references, in order, repeats included. */
  function RefNames(refs: seq<Raml.SchemeRef>): (r: seq<string>)
    ensures |r| <= |refs|
    ensures forall x :: x in r <==> exists i :: 0 <= i < |refs| && refs[i].SchemeRef? && refs[i].refName == Some(x)
    decreases |refs|
  {
    if |refs| == 0 then []
    else
      assert forall i :: 1 <= i < |refs| ==> refs[1..][i - 1] == refs[i];
      (if refs[0].SchemeRef? && refs[0].refName.Some? then [refs[0].refName.value] else []) + RefNames(refs[1..])
  }

  /** Naming distributes over concatenation: order and repeats are kept. */
  lemma {:induction false} RefNamesAppend(a: seq<Raml.SchemeRef>, b: seq<Raml.SchemeRef>)
    ensures RefNames(a + b) == RefNames(a) + RefNames(b)
    decreases |a|
  {
    if |a| > 0 {
      assert (a + b)[1..] == a[1..] + b;
      RefNamesAppend(a[1..], b);
    } else {
      assert a + b == b;
    }
  }

  /** One requirement with no scopes per name, in order. */
  predicate RequirementsOfNames(reqs: seq<SecurityRequirement>, names: seq<string>) {
    |reqs| == |names| && forall i :: 0 <= i < |reqs| ==> reqs[i] == Requirement(names[i], [])
  }

  /** The requirement list of `securedBy`: one requirement with no scopes per
      named reference, in order; references without a name are skipped. A
      null entry is dereferenced and fails. */
  function RequirementsFrom(refs: seq<Raml.SchemeRef>): (r: Outcome<seq<SecurityRequirement>>)
    ensures r.Err? <==> exists i :: 0 <= i < |refs| && refs[i].NullRef?
    ensures r.Err? ==> r.error == NullPointer
    ensures r.Ok? ==> RequirementsOfNames(r.value, RefNames(refs))
    decreases |refs|
  {
    if |refs| == 0 then Ok([])
    else
      var ref := refs[0];
      var tail := RequirementsFrom(refs[1..]);
      assert (exists i :: 0 <= i < |refs| && refs[i].NullRef?) <==> ref.NullRef? || tail.Err? by {
        assert forall i :: 1 <= i < |refs| ==> refs[1..][i - 1] == refs[i];
      }
      if ref.NullRef? then Err(NullPointer)
      else if tail.Err? then tail
      else if ref.refName.Some? then
        var r := [Requirement(ref.refName.value, [])] + tail.value;
        assert RefNames(refs) == [ref.refName.value] + RefNames(refs[1..]);
        assert forall i :: 1 <= i < |r| ==> r[i] == tail.value[i - 1];
        Ok(r)
      else
        assert RefNames(refs) == RefNames(refs[1..]);
        tail
  }

  /** The requirements of a list without null entries (the only lists that
      map): none have scopes,
      they name exactly the named references, and there are none exactly
      when no reference has a name. */
  lemma RequirementsNames(refs: seq<Raml.SchemeRef>)
    ensures RequirementsFrom(refs).Ok? <==> forall i :: 0 <= i < |refs| ==> refs[i].SchemeRef?
    ensures RequirementsFrom(refs).Ok? ==> var reqs := RequirementsFrom(refs).value;
      && (forall q | q in reqs :: q.scopes == [])
      && (reqs == [] <==> forall i :: 0 <= i < |refs| ==> refs[i].refName.None?)
      && (forall x :: (exists q | q in reqs :: q.scheme == x) <==>
                      (exists i :: 0 <= i < |refs| && refs[i].refName == Some(x)))
  {
    if RequirementsFrom(refs).Err? {
      return;
    }
    var reqs := RequirementsFrom(refs).value;
    var names := RefNames(refs);
    forall x ensures (exists q | q in reqs :: q.scheme == x) <==> x in names {
      if x in names {
        var k :| 0 <= k < |names| && names[k] == x;
        assert reqs[k].scheme == x;
      }
    }
    if reqs != [] {
      assert names[0] in names;
    }
  }

  /** `mapSecurityRequirements`: the requirements of the API's global
      `securedBy`, `None` when there are none. */
  function MapSecurityRequirements(api: Raml.Api): (r: Outcome<Option<seq<SecurityRequirement>>>)
    ensures r.Err? <==> exists i :: 0 <= i < |api.securedBy| && api.securedBy[i].NullRef?
    ensures r.Err? ==> r.error == NullPointer
    ensures r.Ok? ==> (r.value.None? <==> forall i :: 0 <= i < |api.securedBy| ==> api.securedBy[i].refName.None?)
    ensures r.Ok? && r.value.Some? ==> r.value.value != [] && forall q | q in r.value.value :: q.scopes == []
    ensures r.Ok? && r.value.Some? ==> forall x :: (exists q | q in r.value.value :: q.scheme == x) <==>
                                  (exists i :: 0 <= i < |api.securedBy| && api.securedBy[i].refName == Some(x))
    ensures r.Ok? && r.value.Some? ==> RequirementsOfNames(r.value.value, RefNames(api.securedBy))
  {
    RequirementsNames(api.securedBy);
    match RequirementsFrom(api.securedBy)
    case Err(e) => Err(e)
    case Ok(reqs) =>
      if reqs == [] then Ok(None) else Ok(Some(reqs))
  }

  /** A scheme named twice is required twice. */
  lemma RepeatedReferenceKept(x: string)
    ensures RequirementsFrom([Raml.SchemeRef(Some(x), None), Raml.SchemeRef(Some(x), None)])
              == Ok([Requirement(x, []), Requirement(x, [])])
  {
    var refs := [Raml.SchemeRef(Some(x), None), Raml.SchemeRef(Some(x), None)];
    assert refs[1..] == [refs[1]] && refs[1..][1..] == [];
    assert RefNames(refs) == [x, x];
    var r := RequirementsFrom(refs);
    assert r.Ok?;
    assert r.value == [Requirement(x, []), Requirement(x, [])];
  }
}
