/** `ServerMapper`: the API's `baseUri` and base-URI parameters to the
    OpenAPI `servers` list. */
module ServerMapper {
  import opened Wrappers
  import opened Strings
  import opened OrderedMaps
  import opened Raml
  import opened OpenApi

  /** The server used when the API declares no usable base URI. */
  const DefaultServer := Server("/", Some("Default server"), None)

  /** The default guessed from a parameter's name, tested in this order on
      the lowercased name: `version`, `environment` or `env`, `region`,
      `host`; anything else gets `default`. */
  function GuessDefault(name: string): (r: string)
    ensures r in {"v1", "production", "us-east-1", "api.example.com", "default"}
    ensures var l := ToLower(name);
      && (r == "v1" <==> Contains(l, "version"))
      && (r == "production" <==> !Contains(l, "version") && Contains(l, "env"))
      && (r == "us-east-1" <==> !Contains(l, "version") && !Contains(l, "env") && Contains(l, "region"))
      && (r == "api.example.com" <==>
            !Contains(l, "version") && !Contains(l, "env") && !Contains(l, "region") && Contains(l, "host"))
      && (r == "default" <==>
            !Contains(l, "version") && !Contains(l, "env") && !Contains(l, "region") && !Contains(l, "host"))
  {
    var l := ToLower(name);
    EnvironmentTestSubsumed(l);
    if Contains(l, "version") then "v1"
    else if Contains(l, "environment") || Contains(l, "env") then "production"
    else if Contains(l, "region") then "us-east-1"
    else if Contains(l, "host") then "api.example.com"
    else "default"
  }

  /** The `environment` test adds nothing: every name containing it also
      contains `env`. */
  lemma EnvironmentTestSubsumed(l: string)
    ensures Contains(l, "environment") ==> Contains(l, "env")
  {
    ContainsPrefix(l, "environment", "env");
  }

  /** The earlier fragment in the test order wins, wherever it stands in
      the name: `hostRegion` is a region, `envVersion` a version. */
  lemma GuessFirstFragmentWins()
    ensures GuessDefault("hostRegion") == "us-east-1"
    ensures GuessDefault("envVersion") == "v1"
  {
    var a := ToLower("hostRegion");
    LowerHostRegion();
    HostRegionFragments(a);
    var b := ToLower("envVersion");
    LowerEnvVersion();
    EnvVersionFragments(b);
  }

  lemma LowerHostRegion()
    ensures ToLower("hostRegion") == "hostregion"
  {
  }

  lemma LowerEnvVersion()
    ensures ToLower("envVersion") == "envversion"
  {
  }

  lemma HostRegionFragments(a: string)
    requires a == "hostregion"
    ensures Contains(a, "region") && !Contains(a, "version") && !Contains(a, "env")
  {
    assert StartsWith(a[4..], "region");
    ContainsSuffix(a, 4, "region");
    MissingCharNotContained(a, "version", 0);
    MissingCharNotContained(a, "env", 2);
  }

  lemma EnvVersionFragments(b: string)
    requires b == "envversion"
    ensures Contains(b, "version")
  {
    assert StartsWith(b[3..], "version");
    ContainsSuffix(b, 3, "version");
  }

  /** `getEnumValues`: the enumeration of a string parameter, `None` when
      there is none. */
  function EnumValues(p: TypeDecl): (r: Option<seq<string>>)
    ensures r.Some? <==> p.kind.StringKind? && p.kind.enumValues != []
    ensures r.Some? ==> r.value == p.kind.enumValues
  {
    if p.kind.StringKind? && p.kind.enumValues != [] then Some(p.kind.enumValues) else None
  }

  /** A base-URI parameter as a server variable. The default is the declared
      default, else the example, else a default guessed from the name. */
  function MapVariable(p: TypeDecl): (r: ServerVariable)
    ensures r.description == p.description
    ensures p.defaultValue.Some? ==> r.defaultValue == p.defaultValue.value
    ensures p.defaultValue.None? && p.example.Some? ==> r.defaultValue == p.example.value
    ensures p.defaultValue.None? && p.example.None? ==> r.defaultValue == GuessDefault(p.name)
    ensures r.enumValues == EnumValues(p)
  {
    var d := if p.defaultValue.Some? then p.defaultValue.value
             else if p.example.Some? then p.example.value
             else GuessDefault(p.name);
    ServerVariable(p.description, d, EnumValues(p))
  }

  /** The names of a parameter list. */
  function ParamNames(ps: seq<TypeDecl>): set<string> {
    set i | 0 <= i < |ps| :: ps[i].name
  }

  /** The variables of a parameter list, put under each parameter's name. */
  function MapVariables(ps: seq<TypeDecl>, acc: OMap<ServerVariable>): (r: OMap<ServerVariable>)
    ensures Keys(r) == Keys(acc) + ParamNames(ps)
    decreases |ps|
  {
    if |ps| == 0 then acc
    else
      assert ParamNames(ps) == {ps[0].name} + ParamNames(ps[1..]) by {
        forall x | x in ParamNames(ps) ensures x in {ps[0].name} + ParamNames(ps[1..]) {
          var i :| 0 <= i < |ps| && ps[i].name == x;
          if i > 0 { assert ps[1..][i - 1].name == x; }
        }
        forall x | x in ParamNames(ps[1..]) ensures x in ParamNames(ps) {
          var i :| 0 <= i < |ps[1..]| && ps[1..][i].name == x;
          assert ps[i + 1].name == x;
        }
      }
      MapVariables(ps[1..], Put(acc, ps[0].name, MapVariable(ps[0])))
  }

  /** A parameter whose name no later parameter reuses is the variable under
      that name. */
  lemma {:induction false} VariableLands(ps: seq<TypeDecl>, acc: OMap<ServerVariable>, i: nat)
    requires i < |ps|
    requires forall j :: i < j < |ps| ==> ps[j].name != ps[i].name
    ensures Get(MapVariables(ps, acc), ps[i].name) == Some(MapVariable(ps[i]))
    decreases |ps|
  {
    var acc' := Put(acc, ps[0].name, MapVariable(ps[0]));
    if i == 0 {
      GetPut(acc, ps[0].name, MapVariable(ps[0]), ps[0].name);
      VariableKept(ps[1..], acc', ps[0].name);
    } else {
      assert ps[1..][i - 1] == ps[i];
      VariableLands(ps[1..], acc', i - 1);
    }
  }

  /** A name no parameter uses keeps its value. */
  lemma {:induction false} VariableKept(ps: seq<TypeDecl>, acc: OMap<ServerVariable>, name: string)
    requires forall j :: 0 <= j < |ps| ==> ps[j].name != name
    ensures Get(MapVariables(ps, acc), name) == Get(acc, name)
    decreases |ps|
  {
    if |ps| > 0 {
      assert forall j :: 0 <= j < |ps[1..]| ==> ps[1..][j] == ps[j + 1];
      GetPut(acc, ps[0].name, MapVariable(ps[0]), name);
      VariableKept(ps[1..], Put(acc, ps[0].name, MapVariable(ps[0])), name);
    }
  }

  /** A base URI the mapper uses: present and not blank. */
  predicate UsableBaseUri(api: Api) {
    api.baseUri.Some? && Trim(api.baseUri.value) != []
  }

  /** `map`: a missing API is an error. An API without a usable base URI
      gets the default server. Otherwise there is one server at the base
      URI, verbatim, with a variable per base-URI parameter when there are
      any, and a description naming the API's title (or `API`) when the
      API has a description. */
  function Map(api: Option<Api>): (r: Outcome<seq<Server>>)
    ensures api.None? ==> r == Err(ConverterException("Cannot map null API to Servers"))
    ensures api.Some? ==> r.Ok? && |r.value| == 1
    ensures api.Some? && !UsableBaseUri(api.value) ==> r.value == [DefaultServer]
    ensures api.Some? && UsableBaseUri(api.value) ==>
      var a := api.value;
      var s := r.value[0];
      && s.url == a.baseUri.value
      && (s.variables.Some? <==> a.baseUriParameters != [])
      && (s.variables.Some? ==> Keys(s.variables.value) == ParamNames(a.baseUriParameters))
      && (s.variables.Some? ==> s.variables.value == MapVariables(a.baseUriParameters, []))
      && (s.description.Some? <==> a.description.Some?)
      && (s.description.Some? ==> s.description.value == "Base server for " + a.title.GetOr("API"))
  {
    if api.None? then Err(ConverterException("Cannot map null API to Servers"))
    else
      var a := api.value;
      if !UsableBaseUri(a) then Ok([DefaultServer])
      else
        var variables := if a.baseUriParameters != [] then Some(MapVariables(a.baseUriParameters, [])) else None;
        var description := if a.description.Some? then Some("Base server for " + a.title.GetOr("API")) else None;
        Ok([Server(a.baseUri.value, description, variables)])
  }
}
