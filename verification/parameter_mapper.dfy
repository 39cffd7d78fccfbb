/** `ParameterMapper`: URI parameters, query parameters and headers to
    OpenAPI parameters. */
module ParameterMapper {
  import opened Wrappers
  import opened Raml
  import opened OpenApi
  import TypeConverter

  /** One parameter: its name, description, converted schema and raw
      example; a path parameter is always required, the others carry the
      declared flag, null included (the setter takes a boxed value). */
  function MapParameter(loc: ParamLocation, p: TypeDecl, reg: set<string>): (r: Parameter)
    ensures r.location == loc && r.name == p.name
    ensures r.required == if loc == InPath then Some(true) else p.required
    ensures r.description == p.description && r.example == p.example
    ensures r.schema == TypeConverter.ConvertType(p, reg)
  {
    Parameter(loc, p.name, if loc == InPath then Some(true) else p.required,
              p.description, TypeConverter.ConvertType(p, reg), p.example)
  }

  function MapAll(loc: ParamLocation, ps: seq<TypeDecl>, reg: set<string>): (r: seq<Parameter>)
    ensures |r| == |ps| && forall i :: 0 <= i < |ps| ==> r[i] == MapParameter(loc, ps[i], reg)
  {
    seq(|ps|, i requires 0 <= i < |ps| => MapParameter(loc, ps[i], reg))
  }

  /** `mapUriParameters`: one required path parameter per URI parameter, in order. */
  function MapUriParameters(ps: seq<TypeDecl>, reg: set<string>): (r: seq<Parameter>)
    ensures |r| == |ps|
    ensures forall i :: 0 <= i < |ps| ==> r[i].location == InPath && r[i].name == ps[i].name && r[i].required == Some(true)
    ensures forall i :: 0 <= i < |ps| ==> r[i].schema == TypeConverter.ConvertType(ps[i], reg)
    ensures forall i :: 0 <= i < |ps| ==> r[i].description == ps[i].description && r[i].example == ps[i].example
    ensures forall i :: 0 <= i < |ps| ==> r[i] == MapParameter(InPath, ps[i], reg)
  {
    MapAll(InPath, ps, reg)
  }

  /** `mapQueryParameters`: one query parameter per declaration, in order,
      keeping the declared `required` flag. */
  function MapQueryParameters(ps: seq<TypeDecl>, reg: set<string>): (r: seq<Parameter>)
    ensures |r| == |ps|
    ensures forall i :: 0 <= i < |ps| ==> r[i].location == InQuery && r[i].name == ps[i].name && r[i].required == ps[i].required
    ensures forall i :: 0 <= i < |ps| ==> r[i].schema == TypeConverter.ConvertType(ps[i], reg)
    ensures forall i :: 0 <= i < |ps| ==> r[i].description == ps[i].description && r[i].example == ps[i].example
    ensures forall i :: 0 <= i < |ps| ==> r[i] == MapParameter(InQuery, ps[i], reg)
  {
    MapAll(InQuery, ps, reg)
  }

  /** `mapHeaders`: one header parameter per declaration, in order,
      keeping the declared `required` flag. */
  function MapHeaders(ps: seq<TypeDecl>, reg: set<string>): (r: seq<Parameter>)
    ensures |r| == |ps|
    ensures forall i :: 0 <= i < |ps| ==> r[i].location == InHeader && r[i].name == ps[i].name && r[i].required == ps[i].required
    ensures forall i :: 0 <= i < |ps| ==> r[i].schema == TypeConverter.ConvertType(ps[i], reg)
    ensures forall i :: 0 <= i < |ps| ==> r[i].description == ps[i].description && r[i].example == ps[i].example
    ensures forall i :: 0 <= i < |ps| ==> r[i] == MapParameter(InHeader, ps[i], reg)
  {
    MapAll(InHeader, ps, reg)
  }
}
