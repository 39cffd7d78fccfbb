/** `PathMapper`: the resource tree to the OpenAPI `paths` map, one path
    item per resource that has methods, keyed by its full resource path. */
module PathMapper {
  import opened Wrappers
  import opened Strings
  import opened OrderedMaps
  import opened Raml
  import opened OpenApi
  import MethodMapper

  /** The HTTP methods a path item has a slot for. */
  const KNOWN_VERBS: set<string> := {"get", "post", "put", "delete", "patch", "head", "options", "trace"}

  /** The operation in the slot named by a lowercase verb. */
  function Slot(item: PathItem, v: string): Option<Operation> {
    if v == "get" then item.get
    else if v == "post" then item.post
    else if v == "put" then item.put
    else if v == "delete" then item.delete
    else if v == "patch" then item.patch
    else if v == "head" then item.head
    else if v == "options" then item.options
    else if v == "trace" then item.trace
    else None
  }

  /** `setOperationOnPath`: the operation goes into the slot of the
      lowercased verb; an unsupported verb leaves the item as it was. */
  function SetOperation(item: PathItem, verb: string, op: Operation): (r: PathItem)
    ensures r.description == item.description
    ensures ToLower(verb) in KNOWN_VERBS ==> Slot(r, ToLower(verb)) == Some(op)
    ensures forall v | v in KNOWN_VERBS && v != ToLower(verb) :: Slot(r, v) == Slot(item, v)
    ensures ToLower(verb) !in KNOWN_VERBS ==> r == item
  {
    var v := ToLower(verb);
    if v == "get" then item.(get := Some(op))
    else if v == "post" then item.(post := Some(op))
    else if v == "put" then item.(put := Some(op))
    else if v == "delete" then item.(delete := Some(op))
    else if v == "patch" then item.(patch := Some(op))
    else if v == "head" then item.(head := Some(op))
    else if v == "options" then item.(options := Some(op))
    else if v == "trace" then item.(trace := Some(op))
    else item
  }

  /** The exception strict mode raises when a method cannot be mapped. */
  function MethodFailure(m: Method, path: string, e: Error): (r: Error)
    ensures r.ConverterException?
    ensures StartsWith(r.message, "Failed to map method ")
  {
    ConverterException("Failed to map method " + ToUpper(m.verb) + " for resource '" + path + "': " + Message(e))
  }

  /** The method loop of `mapResource`: each mapped operation is set on the
      item; a failing method aborts in strict mode and is skipped otherwise. */
  function MapMethods(ms: seq<Method>, item: PathItem, params: seq<TypeDecl>, res: Resource,
                      api: Api, strict: bool, reg: set<string>): (r: Outcome<PathItem>)
    ensures !strict ==> r.Ok?
    ensures strict ==> (r.Err? <==> AnyRaises(ms))
    ensures r.Ok? ==> r.value.description == item.description
    decreases |ms|
  {
    if |ms| == 0 then Ok(item)
    else
      var op := MethodMapper.MapMethod(ms[0], params, res.resourcePath, Some(res), Some(api), reg);
      if op.Err? then
        if strict then Err(MethodFailure(ms[0], res.resourcePath, op.error))
        else MapMethods(ms[1..], item, params, res, api, strict, reg)
      else MapMethods(ms[1..], SetOperation(item, ms[0].verb, op.value), params, res, api, strict, reg)
  }

  /** A method that maps, with a supported verb that no later method of the
      resource repeats, ends up in its verb's slot. */
  lemma {:induction false} MethodLands(ms: seq<Method>, item: PathItem, params: seq<TypeDecl>, res: Resource,
                                       api: Api, strict: bool, reg: set<string>, i: nat)
    requires i < |ms| && !MethodMapper.MethodRaises(ms[i])
    requires ToLower(ms[i].verb) in KNOWN_VERBS
    requires forall j :: i < j < |ms| ==> ToLower(ms[j].verb) != ToLower(ms[i].verb)
    requires MapMethods(ms, item, params, res, api, strict, reg).Ok?
    ensures Slot(MapMethods(ms, item, params, res, api, strict, reg).value, ToLower(ms[i].verb)) ==
            Some(MethodMapper.MapMethod(ms[i], params, res.resourcePath, Some(res), Some(api), reg).value)
    decreases |ms|, 1
  {
    var op := MethodMapper.MapMethod(ms[0], params, res.resourcePath, Some(res), Some(api), reg);
    var next := if op.Err? then item else SetOperation(item, ms[0].verb, op.value);
    assert MapMethods(ms, item, params, res, api, strict, reg) == MapMethods(ms[1..], next, params, res, api, strict, reg);
    if i == 0 {
      assert op.Ok?;
      MethodLandsFirst(ms, next, params, res, api, strict, reg, op.value);
    } else {
      MethodLandsLater(ms, item, next, params, res, api, strict, reg, i);
    }
  }

  /** The case of `MethodLands` for the first method. */
  lemma MethodLandsFirst(ms: seq<Method>, next: PathItem, params: seq<TypeDecl>, res: Resource,
                         api: Api, strict: bool, reg: set<string>, op: Operation)
    requires |ms| > 0 && ToLower(ms[0].verb) in KNOWN_VERBS
    requires forall j :: 0 < j < |ms| ==> ToLower(ms[j].verb) != ToLower(ms[0].verb)
    requires Slot(next, ToLower(ms[0].verb)) == Some(op)
    requires MapMethods(ms[1..], next, params, res, api, strict, reg).Ok?
    ensures Slot(MapMethods(ms[1..], next, params, res, api, strict, reg).value, ToLower(ms[0].verb)) == Some(op)
  {
    var rest := ms[1..];
    assert forall j :: 0 <= j < |rest| ==> rest[j] == ms[j + 1];
    SlotKept(rest, next, params, res, api, strict, reg, ToLower(ms[0].verb));
  }

  /** The step of `MethodLands` for a method after the first. */
  lemma {:induction false} MethodLandsLater(ms: seq<Method>, item: PathItem, next: PathItem, params: seq<TypeDecl>,
                                            res: Resource, api: Api, strict: bool, reg: set<string>, i: nat)
    requires 0 < i < |ms| && !MethodMapper.MethodRaises(ms[i])
    requires ToLower(ms[i].verb) in KNOWN_VERBS
    requires forall j :: i < j < |ms| ==> ToLower(ms[j].verb) != ToLower(ms[i].verb)
    requires MapMethods(ms, item, params, res, api, strict, reg) == MapMethods(ms[1..], next, params, res, api, strict, reg)
    requires MapMethods(ms, item, params, res, api, strict, reg).Ok?
    ensures Slot(MapMethods(ms, item, params, res, api, strict, reg).value, ToLower(ms[i].verb)) ==
            Some(MethodMapper.MapMethod(ms[i], params, res.resourcePath, Some(res), Some(api), reg).value)
    decreases |ms|, 0
  {
    var rest := ms[1..];
    var m := ms[i];
    assert rest[i - 1] == m;
    assert forall j :: i - 1 < j < |rest| ==> ToLower(rest[j].verb) != ToLower(m.verb) by {
      forall j | i - 1 < j < |rest| ensures ToLower(rest[j].verb) != ToLower(m.verb) {
        assert rest[j] == ms[j + 1];
      }
    }
    MethodLands(rest, next, params, res, api, strict, reg, i - 1);
  }

  /** Methods whose verb is not `v`, or that cannot be mapped, leave the
      `v` slot alone. */
  lemma {:induction false} SlotKept(ms: seq<Method>, item: PathItem, params: seq<TypeDecl>, res: Resource,
                                    api: Api, strict: bool, reg: set<string>, v: string)
    requires v in KNOWN_VERBS
    requires forall j :: 0 <= j < |ms| ==> ToLower(ms[j].verb) != v || MethodMapper.MethodRaises(ms[j])
    requires MapMethods(ms, item, params, res, api, strict, reg).Ok?
    ensures Slot(MapMethods(ms, item, params, res, api, strict, reg).value, v) == Slot(item, v)
    decreases |ms|
  {
    if |ms| > 0 {
      var op := MethodMapper.MapMethod(ms[0], params, res.resourcePath, Some(res), Some(api), reg);
      var next := if op.Err? then item else SetOperation(item, ms[0].verb, op.value);
      assert MapMethods(ms, item, params, res, api, strict, reg) == MapMethods(ms[1..], next, params, res, api, strict, reg);
      SlotKept(ms[1..], next, params, res, api, strict, reg, v);
    }
  }

  /** Some method of the list cannot be mapped. */
  predicate AnyRaises(ms: seq<Method>) {
    |ms| > 0 && (MethodMapper.MethodRaises(ms[0]) || AnyRaises(ms[1..]))
  }

  /** `AnyRaises` is "some position holds a method that cannot be mapped". */
  lemma {:induction false} AnyRaisesExists(ms: seq<Method>)
    ensures AnyRaises(ms) <==> exists i :: 0 <= i < |ms| && MethodMapper.MethodRaises(ms[i])
  {
    if |ms| > 0 {
      AnyRaisesExists(ms[1..]);
      if exists i :: 0 <= i < |ms| && MethodMapper.MethodRaises(ms[i]) {
        var i :| 0 <= i < |ms| && MethodMapper.MethodRaises(ms[i]);
        assert i == 0 || ms[1..][i - 1] == ms[i];
      }
      if AnyRaises(ms[1..]) {
        var i :| 0 <= i < |ms[1..]| && MethodMapper.MethodRaises(ms[1..][i]);
        assert ms[i + 1] == ms[1..][i];
      }
    }
  }

  /** Position of the first method that cannot be mapped. */
  function FirstRaising(ms: seq<Method>): (k: nat)
    requires AnyRaises(ms)
    ensures k < |ms| && MethodMapper.MethodRaises(ms[k])
    ensures forall j :: 0 <= j < k ==> !MethodMapper.MethodRaises(ms[j])
  {
    if MethodMapper.MethodRaises(ms[0]) then 0
    else
      var k := FirstRaising(ms[1..]) + 1;
      assert forall j :: 1 <= j < k ==> ms[j] == ms[1..][j - 1];
      k
  }

  /** A strict failure names the first method that cannot be mapped. */
  lemma {:induction false} MapMethodsReportsFirst(ms: seq<Method>, item: PathItem, params: seq<TypeDecl>,
                                                  res: Resource, api: Api, reg: set<string>)
    requires AnyRaises(ms)
    ensures MapMethods(ms, item, params, res, api, true, reg) ==
            Err(MethodFailure(ms[FirstRaising(ms)], res.resourcePath, NullPointer))
    decreases |ms|
  {
    if !MethodMapper.MethodRaises(ms[0]) {
      var op := MethodMapper.MapMethod(ms[0], params, res.resourcePath, Some(res), Some(api), reg);
      var item' := SetOperation(item, ms[0].verb, op.value);
      MapMethodsReportsFirst(ms[1..], item', params, res, api, reg);
      assert ms[FirstRaising(ms)] == ms[1..][FirstRaising(ms[1..])];
    }
  }

  /** Some method of the resource or of a nested resource cannot be mapped. */
  predicate TreeRaises(res: Resource)
    decreases res
  {
    (exists m | m in res.methods :: MethodMapper.MethodRaises(m)) ||
    (exists c | c in res.resources :: TreeRaises(c))
  }

  /** Some nested resource from the `i`-th on raises. */
  predicate ChildrenRaise(parent: Resource, i: nat)
    requires i <= |parent.resources|
    decreases |parent.resources| - i
  {
    i < |parent.resources| && (TreeRaises(parent.resources[i]) || ChildrenRaise(parent, i + 1))
  }

  lemma {:induction false} ChildrenRaiseExists(parent: Resource, i: nat)
    requires i <= |parent.resources|
    ensures ChildrenRaise(parent, i) <==> exists j :: i <= j < |parent.resources| && TreeRaises(parent.resources[j])
    decreases |parent.resources| - i
  {
    if i < |parent.resources| {
      ChildrenRaiseExists(parent, i + 1);
    }
  }

  /** A nested resource raises exactly when one at some position does. */
  lemma ChildRaisesAt(res: Resource)
    ensures (exists c | c in res.resources :: TreeRaises(c)) <==>
            (exists j :: 0 <= j < |res.resources| && TreeRaises(res.resources[j]))
  {
  }

  /** The paths a resource tree contributes: its own path when it has
      methods, and those of its nested resources. */
  function PathsOf(res: Resource): set<string>
    decreases res, 1
  {
    (if |res.methods| > 0 then {res.resourcePath} else {}) + ChildPaths(res, 0)
  }

  function ChildPaths(parent: Resource, i: nat): set<string>
    requires i <= |parent.resources|
    decreases parent, 0, |parent.resources| - i
  {
    if i == |parent.resources| then {} else PathsOf(parent.resources[i]) + ChildPaths(parent, i + 1)
  }

  /** The item a resource's methods are set on: the one already at its path
      or a new one, with the resource's description when it declares one. */
  function StartItem(res: Resource, existing: Option<PathItem>): (r: PathItem)
    ensures r.description == (if res.description.Some? then res.description
                              else if existing.Some? then existing.value.description else None)
    ensures forall v :: Slot(r, v) == (if existing.Some? then Slot(existing.value, v) else None)
  {
    var item := existing.GetOr(EmptyPathItem);
    if res.description.Some? then item.(description := res.description) else item
  }

  /** The first half of `mapResource`: a resource with methods gets its
      path item (created if absent, description overwritten when declared)
      filled with its operations. */
  function MapOwnMethods(res: Resource, paths: OMap<PathItem>, params: seq<TypeDecl>,
                         api: Api, strict: bool, reg: set<string>): (r: Outcome<OMap<PathItem>>)
    ensures !strict ==> r.Ok?
    ensures strict ==> (r.Err? <==> exists m | m in res.methods :: MethodMapper.MethodRaises(m))
    ensures r.Ok? ==> Keys(r.value) == Keys(paths) + (if |res.methods| > 0 then {res.resourcePath} else {})
    ensures r.Ok? && |res.methods| > 0 && res.description.Some? ==>
              Get(r.value, res.resourcePath).Some? && Get(r.value, res.resourcePath).value.description == res.description
    ensures r.Ok? && |res.methods| > 0 ==>
              var item := MapMethods(res.methods, StartItem(res, Get(paths, res.resourcePath)), params, res, api, strict, reg);
              item.Ok? && Get(r.value, res.resourcePath) == Some(item.value)
  {
    if |res.methods| == 0 then Ok(paths)
    else
      var item := MapMethods(res.methods, StartItem(res, Get(paths, res.resourcePath)), params, res, api, strict, reg);
      AnyRaisesExists(res.methods);
      assert (exists m | m in res.methods :: MethodMapper.MethodRaises(m)) <==>
             (exists i :: 0 <= i < |res.methods| && MethodMapper.MethodRaises(res.methods[i]));
      if item.Err? then Err(item.error)
      else
        GetPut(paths, res.resourcePath, item.value, res.resourcePath);
        Ok(Put(paths, res.resourcePath, item.value))
  }

  /** `mapResource`: the resource's own methods, then its nested resources,
      which inherit the URI parameters accumulated so far. */
  function MapResource(res: Resource, paths: OMap<PathItem>, parentParams: seq<TypeDecl>,
                       api: Api, strict: bool, reg: set<string>): (r: Outcome<OMap<PathItem>>)
    ensures !strict ==> r.Ok?
    ensures strict ==> (r.Err? <==> TreeRaises(res))
    ensures r.Ok? ==> Keys(r.value) == Keys(paths) + PathsOf(res)
    decreases res, 1
  {
    var params := parentParams + res.uriParameters;
    var here := MapOwnMethods(res, paths, params, api, strict, reg);
    if here.Err? then Err(here.error)
    else
      ChildRaisesAt(res);
      ChildrenRaiseExists(res, 0);
      MapChildren(res, 0, here.value, params, api, strict, reg)
  }

  /** The nested-resource loop of `mapResource`, from the `i`-th child on. */
  function MapChildren(parent: Resource, i: nat, paths: OMap<PathItem>, params: seq<TypeDecl>,
                       api: Api, strict: bool, reg: set<string>): (r: Outcome<OMap<PathItem>>)
    requires i <= |parent.resources|
    ensures !strict ==> r.Ok?
    ensures strict ==> (r.Err? <==> ChildrenRaise(parent, i))
    ensures r.Ok? ==> Keys(r.value) == Keys(paths) + ChildPaths(parent, i)
    decreases parent, 0, |parent.resources| - i
  {
    if i == |parent.resources| then Ok(paths)
    else
      var first := MapResource(parent.resources[i], paths, params, api, strict, reg);
      if first.Err? then Err(first.error)
      else MapChildren(parent, i + 1, first.value, params, api, strict, reg)
  }

  /** The paths of the top-level resources from the `i`-th on. */
  function TopPaths(rs: seq<Resource>, i: nat): set<string>
    requires i <= |rs|
    decreases |rs| - i
  {
    if i == |rs| then {} else PathsOf(rs[i]) + TopPaths(rs, i + 1)
  }

  /** The top-level loop of `map`, from the `i`-th resource on; top-level
      resources start with no inherited URI parameters. */
  function MapTop(rs: seq<Resource>, i: nat, paths: OMap<PathItem>, api: Api, strict: bool,
                  reg: set<string>): (r: Outcome<OMap<PathItem>>)
    requires i <= |rs|
    ensures !strict ==> r.Ok?
    ensures strict ==> (r.Err? <==> exists j :: i <= j < |rs| && TreeRaises(rs[j]))
    ensures r.Ok? ==> Keys(r.value) == Keys(paths) + TopPaths(rs, i)
    decreases |rs| - i
  {
    if i == |rs| then Ok(paths)
    else
      var first := MapResource(rs[i], paths, [], api, strict, reg);
      if first.Err? then Err(first.error)
      else MapTop(rs, i + 1, first.value, api, strict, reg)
  }

  /** `map`: a null API raises; otherwise every resource that has methods
      gets a path item. In lenient mode mapping never fails; in strict mode
      it fails exactly when some method cannot be mapped. */
  function Map(api: Option<Api>, strict: bool, reg: set<string>): (r: Outcome<OMap<PathItem>>)
    ensures api.None? ==> r == Err(ConverterException("Cannot map null API to paths"))
    ensures api.Some? && !strict ==> r.Ok?
    ensures api.Some? && strict ==> (r.Err? <==> exists j :: 0 <= j < |api.value.resources| && TreeRaises(api.value.resources[j]))
    ensures r.Ok? ==> Keys(r.value) == TopPaths(api.value.resources, 0)
  {
    if api.None? then Err(ConverterException("Cannot map null API to paths"))
    else MapTop(api.value.resources, 0, [], api.value, strict, reg)
  }

  // The tree walk: where each resource's operations end up.

  /** A resource met by the walk, with the resources above it, outermost first. */
  datatype Visit = Visit(res: Resource, ancestors: seq<Resource>)

  /** The URI parameters accumulated along a chain of resources, outermost first. */
  function Params(chain: seq<Resource>): (r: seq<TypeDecl>)
    ensures |chain| > 0 ==> r == Params(chain[..|chain| - 1]) + chain[|chain| - 1].uriParameters
  {
    if |chain| == 0 then [] else Params(chain[..|chain| - 1]) + chain[|chain| - 1].uriParameters
  }

  /** Each resource is a child of the one before it. */
  predicate Linked(chain: seq<Resource>) {
    forall j :: 0 <= j < |chain| - 1 ==> chain[j + 1] in chain[j].resources
  }

  /** The resources of a tree in the order `mapResource` meets them. */
  function Walk(res: Resource, ancestors: seq<Resource>): (r: seq<Visit>)
    ensures |r| > 0 && r[0] == Visit(res, ancestors)
    decreases res, 1
  {
    [Visit(res, ancestors)] + WalkChildren(res, 0, ancestors + [res])
  }

  function WalkChildren(parent: Resource, i: nat, ancestors: seq<Resource>): seq<Visit>
    requires i <= |parent.resources|
    decreases parent, 0, |parent.resources| - i
  {
    if i == |parent.resources| then []
    else Walk(parent.resources[i], ancestors) + WalkChildren(parent, i + 1, ancestors)
  }

  /** The resources of all top-level trees from the `i`-th on, in order. */
  function WalkTop(rs: seq<Resource>, i: nat): seq<Visit>
    requires i <= |rs|
    decreases |rs| - i
  {
    if i == |rs| then [] else Walk(rs[i], []) + WalkTop(rs, i + 1)
  }

  /** The visited resources that have methods and live at path `p`. */
  function Owners(visits: seq<Visit>, p: string): (r: seq<Visit>)
    ensures forall v | v in r :: v in visits && |v.res.methods| > 0 && v.res.resourcePath == p
  {
    if |visits| == 0 then []
    else (if |visits[0].res.methods| > 0 && visits[0].res.resourcePath == p then [visits[0]] else []) +
         Owners(visits[1..], p)
  }

  lemma {:induction false} OwnersAppend(a: seq<Visit>, b: seq<Visit>, p: string)
    ensures Owners(a + b, p) == Owners(a, p) + Owners(b, p)
  {
    if |a| > 0 {
      assert (a + b)[1..] == a[1..] + b;
      OwnersAppend(a[1..], b, p);
    } else {
      assert a + b == b;
    }
  }

  /** A one-element concatenation has its element on exactly one side. */
  lemma SingleSplit<T>(a: seq<T>, b: seq<T>, t: T)
    requires a + b == [t]
    ensures (a == [t] && b == []) || (a == [] && b == [t])
  {
    assert |a| + |b| == 1;
    if |a| == 1 { assert a[0] == (a + b)[0]; }
    else { assert b[0] == (a + b)[0]; }
  }

  /** Every visit of a linked chain's walk carries a linked chain that
      extends it: the ancestors recorded are the path from the root. */
  lemma {:induction false} WalkLinked(res: Resource, ancestors: seq<Resource>, v: Visit)
    requires Linked(ancestors + [res]) && v in Walk(res, ancestors)
    ensures Linked(v.ancestors + [v.res]) && ancestors + [res] <= v.ancestors + [v.res]
    decreases res, 1
  {
    if v != Visit(res, ancestors) {
      WalkChildrenLinked(res, 0, ancestors + [res], v);
    }
  }

  lemma {:induction false} WalkChildrenLinked(parent: Resource, i: nat, ancestors: seq<Resource>, v: Visit)
    requires i <= |parent.resources| && |ancestors| > 0 && ancestors[|ancestors| - 1] == parent
    requires Linked(ancestors) && v in WalkChildren(parent, i, ancestors)
    ensures Linked(v.ancestors + [v.res]) && ancestors <= v.ancestors + [v.res]
    decreases parent, 0, |parent.resources| - i
  {
    var c := parent.resources[i];
    if v in Walk(c, ancestors) {
      var chain := ancestors + [c];
      assert Linked(chain) by {
        forall j | 0 <= j < |chain| - 1 ensures chain[j + 1] in chain[j].resources {
          if j < |ancestors| - 1 { assert chain[j + 1] == ancestors[j + 1]; }
        }
      }
      WalkLinked(c, ancestors, v);
      assert ancestors <= chain;
    } else {
      WalkChildrenLinked(parent, i + 1, ancestors, v);
    }
  }

  /** Every resource the top-level walk meets hangs below a top-level
      resource through a chain of nested resources. */
  lemma {:induction false} WalkTopLinked(rs: seq<Resource>, i: nat, v: Visit)
    requires i <= |rs| && v in WalkTop(rs, i)
    ensures Linked(v.ancestors + [v.res])
    ensures exists j :: i <= j < |rs| && (v.ancestors + [v.res])[0] == rs[j]
    decreases |rs| - i
  {
    if v in Walk(rs[i], []) {
      assert Linked([] + [rs[i]]);
      WalkLinked(rs[i], [], v);
      assert (v.ancestors + [v.res])[0] == ([] + [rs[i]])[0];
    } else {
      WalkTopLinked(rs, i + 1, v);
    }
  }

  /** A method with a given lowercase verb that no later method of the list repeats. */
  predicate LastOfVerb(ms: seq<Method>, i: nat)
    requires i < |ms|
  {
    forall j :: i < j < |ms| ==> ToLower(ms[j].verb) != ToLower(ms[i].verb)
  }

  /** The path item of visit `t`: its description when declared, each
      supported verb's slot holding the operation of the last method with
      that verb, mapped under the URI parameters of the whole chain, and
      every other slot empty. */
  predicate Landed(item: PathItem, t: Visit, api: Api, reg: set<string>) {
    var ms := t.res.methods;
    (t.res.description.Some? ==> item.description == t.res.description) &&
    (t.res.description.None? ==> item.description.None?) &&
    (forall i | 0 <= i < |ms| && !MethodMapper.MethodRaises(ms[i]) && ToLower(ms[i].verb) in KNOWN_VERBS && LastOfVerb(ms, i) ::
      Slot(item, ToLower(ms[i].verb)) ==
        Some(MethodMapper.MapMethod(ms[i], Params(t.ancestors + [t.res]), t.res.resourcePath, Some(t.res), Some(api), reg).value)) &&
    (forall v | v in KNOWN_VERBS && (forall i | 0 <= i < |ms| :: ToLower(ms[i].verb) != v || MethodMapper.MethodRaises(ms[i])) ::
      Slot(item, v).None?)
  }

  /** A path that no resource of the tree owns keeps its item. */
  lemma {:induction false} ResourceFrame(res: Resource, paths: OMap<PathItem>, ancestors: seq<Resource>,
                                         api: Api, strict: bool, reg: set<string>, p: string)
    requires MapResource(res, paths, Params(ancestors), api, strict, reg).Ok?
    requires Owners(Walk(res, ancestors), p) == []
    ensures Get(MapResource(res, paths, Params(ancestors), api, strict, reg).value, p) == Get(paths, p)
    decreases res, 1
  {
    var chain := ancestors + [res];
    assert chain[..|chain| - 1] == ancestors;
    var params := Params(chain);
    OwnersAppend([Visit(res, ancestors)], WalkChildren(res, 0, chain), p);
    var here := MapOwnMethods(res, paths, params, api, strict, reg);
    OwnMethodsFrame(res, paths, params, api, strict, reg, p);
    ChildrenFrame(res, 0, here.value, chain, api, strict, reg, p);
  }

  lemma {:induction false} ChildrenFrame(parent: Resource, i: nat, paths: OMap<PathItem>, ancestors: seq<Resource>,
                                         api: Api, strict: bool, reg: set<string>, p: string)
    requires i <= |parent.resources|
    requires MapChildren(parent, i, paths, Params(ancestors), api, strict, reg).Ok?
    requires Owners(WalkChildren(parent, i, ancestors), p) == []
    ensures Get(MapChildren(parent, i, paths, Params(ancestors), api, strict, reg).value, p) == Get(paths, p)
    decreases parent, 0, |parent.resources| - i
  {
    if i < |parent.resources| {
      var c := parent.resources[i];
      OwnersAppend(Walk(c, ancestors), WalkChildren(parent, i + 1, ancestors), p);
      var first := MapResource(c, paths, Params(ancestors), api, strict, reg);
      ResourceFrame(c, paths, ancestors, api, strict, reg, p);
      ChildrenFrame(parent, i + 1, first.value, ancestors, api, strict, reg, p);
    }
  }

  /** A resource without methods, or at another path, leaves `p` alone. */
  lemma OwnMethodsFrame(res: Resource, paths: OMap<PathItem>, params: seq<TypeDecl>,
                        api: Api, strict: bool, reg: set<string>, p: string)
    requires MapOwnMethods(res, paths, params, api, strict, reg).Ok?
    requires |res.methods| == 0 || res.resourcePath != p
    ensures Get(MapOwnMethods(res, paths, params, api, strict, reg).value, p) == Get(paths, p)
  {
    if |res.methods| > 0 {
      var item := MapMethods(res.methods, StartItem(res, Get(paths, res.resourcePath)), params, res, api, strict, reg);
      GetPut(paths, res.resourcePath, item.value, p);
    }
  }

  /** The item the methods of visit `t` build on a fresh path item. */
  function LandedItem(t: Visit, api: Api, strict: bool, reg: set<string>): Outcome<PathItem> {
    MapMethods(t.res.methods, StartItem(t.res, None), Params(t.ancestors + [t.res]), t.res, api, strict, reg)
  }

  /** The method loop on a fresh item builds the item `Landed` describes. */
  lemma ItemLanded(t: Visit, api: Api, strict: bool, reg: set<string>)
    requires LandedItem(t, api, strict, reg).Ok?
    ensures Landed(LandedItem(t, api, strict, reg).value, t, api, reg)
  {
    var ms := t.res.methods;
    var params := Params(t.ancestors + [t.res]);
    var item1 := StartItem(t.res, None);
    var item := LandedItem(t, api, strict, reg);
    forall i | 0 <= i < |ms| && !MethodMapper.MethodRaises(ms[i]) && ToLower(ms[i].verb) in KNOWN_VERBS && LastOfVerb(ms, i)
      ensures Slot(item.value, ToLower(ms[i].verb)) ==
              Some(MethodMapper.MapMethod(ms[i], params, t.res.resourcePath, Some(t.res), Some(api), reg).value)
    {
      MethodLands(ms, item1, params, t.res, api, strict, reg, i);
    }
    forall v | v in KNOWN_VERBS && (forall i | 0 <= i < |ms| :: ToLower(ms[i].verb) != v || MethodMapper.MethodRaises(ms[i]))
      ensures Slot(item.value, v).None?
    {
      SlotKept(ms, item1, params, t.res, api, strict, reg, v);
    }
  }

  /** The resource of the tree that alone owns path `p` leaves there the
      item `Landed` describes, when `p` had no item before. */
  lemma {:induction false} ResourceLands(res: Resource, paths: OMap<PathItem>, ancestors: seq<Resource>,
                                         api: Api, strict: bool, reg: set<string>, t: Visit)
    requires MapResource(res, paths, Params(ancestors), api, strict, reg).Ok?
    requires Owners(Walk(res, ancestors), t.res.resourcePath) == [t]
    requires Get(paths, t.res.resourcePath).None?
    ensures LandedItem(t, api, strict, reg).Ok?
    ensures Get(MapResource(res, paths, Params(ancestors), api, strict, reg).value, t.res.resourcePath) ==
            Some(LandedItem(t, api, strict, reg).value)
    decreases res, 2
  {
    var p := t.res.resourcePath;
    var chain := ancestors + [res];
    OwnersAppend([Visit(res, ancestors)], WalkChildren(res, 0, chain), p);
    SingleSplit(Owners([Visit(res, ancestors)], p), Owners(WalkChildren(res, 0, chain), p), t);
    if |res.methods| > 0 && res.resourcePath == p {
      assert t == Visit(res, ancestors);
      ResourceLandsHere(res, paths, ancestors, api, strict, reg);
    } else {
      ResourceLandsBelow(res, paths, ancestors, api, strict, reg, t);
    }
  }

  /** The case of `ResourceLands` where the resource itself owns the path. */
  lemma ResourceLandsHere(res: Resource, paths: OMap<PathItem>, ancestors: seq<Resource>,
                          api: Api, strict: bool, reg: set<string>)
    requires MapResource(res, paths, Params(ancestors), api, strict, reg).Ok?
    requires |res.methods| > 0 && Get(paths, res.resourcePath).None?
    requires Owners(WalkChildren(res, 0, ancestors + [res]), res.resourcePath) == []
    ensures LandedItem(Visit(res, ancestors), api, strict, reg).Ok?
    ensures Get(MapResource(res, paths, Params(ancestors), api, strict, reg).value, res.resourcePath) ==
            Some(LandedItem(Visit(res, ancestors), api, strict, reg).value)
  {
    var chain := ancestors + [res];
    assert chain[..|chain| - 1] == ancestors;
    var params := Params(chain);
    var here := MapOwnMethods(res, paths, params, api, strict, reg);
    OwnerLands(res, paths, ancestors, api, strict, reg);
    ChildrenFrame(res, 0, here.value, chain, api, strict, reg, res.resourcePath);
  }

  /** The case of `ResourceLands` where a nested resource owns the path. */
  lemma {:induction false} ResourceLandsBelow(res: Resource, paths: OMap<PathItem>, ancestors: seq<Resource>,
                                              api: Api, strict: bool, reg: set<string>, t: Visit)
    requires MapResource(res, paths, Params(ancestors), api, strict, reg).Ok?
    requires |res.methods| == 0 || res.resourcePath != t.res.resourcePath
    requires Owners(WalkChildren(res, 0, ancestors + [res]), t.res.resourcePath) == [t]
    requires Get(paths, t.res.resourcePath).None?
    ensures LandedItem(t, api, strict, reg).Ok?
    ensures Get(MapResource(res, paths, Params(ancestors), api, strict, reg).value, t.res.resourcePath) ==
            Some(LandedItem(t, api, strict, reg).value)
    decreases res, 1
  {
    var chain := ancestors + [res];
    assert chain[..|chain| - 1] == ancestors;
    var params := Params(chain);
    var here := MapOwnMethods(res, paths, params, api, strict, reg);
    OwnMethodsFrame(res, paths, params, api, strict, reg, t.res.resourcePath);
    ChildrenLands(res, 0, here.value, chain, api, strict, reg, t);
  }

  /** A resource with methods at a path that has no item yet puts there
      the item its methods build on a fresh one. */
  lemma OwnerLands(res: Resource, paths: OMap<PathItem>, ancestors: seq<Resource>,
                   api: Api, strict: bool, reg: set<string>)
    requires |res.methods| > 0 && Get(paths, res.resourcePath).None?
    requires MapOwnMethods(res, paths, Params(ancestors + [res]), api, strict, reg).Ok?
    ensures LandedItem(Visit(res, ancestors), api, strict, reg).Ok?
    ensures Get(MapOwnMethods(res, paths, Params(ancestors + [res]), api, strict, reg).value, res.resourcePath) ==
            Some(LandedItem(Visit(res, ancestors), api, strict, reg).value)
  {
  }

  lemma {:induction false} ChildrenLands(parent: Resource, i: nat, paths: OMap<PathItem>, ancestors: seq<Resource>,
                                         api: Api, strict: bool, reg: set<string>, t: Visit)
    requires i <= |parent.resources|
    requires MapChildren(parent, i, paths, Params(ancestors), api, strict, reg).Ok?
    requires Owners(WalkChildren(parent, i, ancestors), t.res.resourcePath) == [t]
    requires Get(paths, t.res.resourcePath).None?
    ensures LandedItem(t, api, strict, reg).Ok?
    ensures Get(MapChildren(parent, i, paths, Params(ancestors), api, strict, reg).value, t.res.resourcePath) ==
            Some(LandedItem(t, api, strict, reg).value)
    decreases parent, 0, |parent.resources| - i
  {
    var p := t.res.resourcePath;
    var c := parent.resources[i];
    OwnersAppend(Walk(c, ancestors), WalkChildren(parent, i + 1, ancestors), p);
    SingleSplit(Owners(Walk(c, ancestors), p), Owners(WalkChildren(parent, i + 1, ancestors), p), t);
    var first := MapResource(c, paths, Params(ancestors), api, strict, reg);
    assert MapChildren(parent, i, paths, Params(ancestors), api, strict, reg) ==
           MapChildren(parent, i + 1, first.value, Params(ancestors), api, strict, reg);
    if Owners(Walk(c, ancestors), p) == [t] {
      ResourceLands(c, paths, ancestors, api, strict, reg, t);
      ChildrenFrame(parent, i + 1, first.value, ancestors, api, strict, reg, p);
    } else {
      ResourceFrame(c, paths, ancestors, api, strict, reg, p);
      ChildrenLands(parent, i + 1, first.value, ancestors, api, strict, reg, t);
    }
  }

  lemma {:induction false} TopFrame(rs: seq<Resource>, i: nat, paths: OMap<PathItem>, api: Api, strict: bool,
                                    reg: set<string>, p: string)
    requires i <= |rs| && MapTop(rs, i, paths, api, strict, reg).Ok?
    requires Owners(WalkTop(rs, i), p) == []
    ensures Get(MapTop(rs, i, paths, api, strict, reg).value, p) == Get(paths, p)
    decreases |rs| - i
  {
    if i < |rs| {
      OwnersAppend(Walk(rs[i], []), WalkTop(rs, i + 1), p);
      assert Params([]) == [];
      var first := MapResource(rs[i], paths, [], api, strict, reg);
      ResourceFrame(rs[i], paths, [], api, strict, reg, p);
      TopFrame(rs, i + 1, first.value, api, strict, reg, p);
    }
  }

  lemma {:induction false} TopLands(rs: seq<Resource>, i: nat, paths: OMap<PathItem>, api: Api, strict: bool,
                                    reg: set<string>, t: Visit)
    requires i <= |rs| && MapTop(rs, i, paths, api, strict, reg).Ok?
    requires Owners(WalkTop(rs, i), t.res.resourcePath) == [t]
    requires Get(paths, t.res.resourcePath).None?
    ensures LandedItem(t, api, strict, reg).Ok?
    ensures Get(MapTop(rs, i, paths, api, strict, reg).value, t.res.resourcePath) ==
            Some(LandedItem(t, api, strict, reg).value)
    decreases |rs| - i
  {
    var p := t.res.resourcePath;
    OwnersAppend(Walk(rs[i], []), WalkTop(rs, i + 1), p);
    SingleSplit(Owners(Walk(rs[i], []), p), Owners(WalkTop(rs, i + 1), p), t);
    assert Params([]) == [];
    var first := MapResource(rs[i], paths, [], api, strict, reg);
    assert MapTop(rs, i, paths, api, strict, reg) == MapTop(rs, i + 1, first.value, api, strict, reg);
    if Owners(Walk(rs[i], []), p) == [t] {
      ResourceLands(rs[i], paths, [], api, strict, reg, t);
      TopFrame(rs, i + 1, first.value, api, strict, reg, p);
    } else {
      ResourceFrame(rs[i], paths, [], api, strict, reg, p);
      TopLands(rs, i + 1, first.value, api, strict, reg, t);
    }
  }

  /** The main property of `map`: a resource that is the only one with
      methods at its path gets there a path item with its description and,
      in each verb's slot, the operation of its last method with that verb,
      mapped under the URI parameters of all its ancestors followed by its
      own; the resource hangs below a top-level resource through the chain
      of ancestors the walk records. */
  lemma PathItemOfResource(api: Api, strict: bool, reg: set<string>, t: Visit)
    requires Map(Some(api), strict, reg).Ok?
    requires Owners(WalkTop(api.resources, 0), t.res.resourcePath) == [t]
    ensures Get(Map(Some(api), strict, reg).value, t.res.resourcePath).Some?
    ensures Landed(Get(Map(Some(api), strict, reg).value, t.res.resourcePath).value, t, api, reg)
    ensures Linked(t.ancestors + [t.res]) && (t.ancestors + [t.res])[0] in api.resources
  {
    assert t in Owners(WalkTop(api.resources, 0), t.res.resourcePath);
    WalkTopLinked(api.resources, 0, t);
    TopLands(api.resources, 0, [], api, strict, reg, t);
    ItemLanded(t, api, strict, reg);
  }

  /** A resource whose path already has an item reuses it: slots of verbs
      the resource does not map keep their operation. */
  lemma ExistingItemReused(res: Resource, paths: OMap<PathItem>, params: seq<TypeDecl>,
                           api: Api, strict: bool, reg: set<string>, v: string)
    requires |res.methods| > 0 && Get(paths, res.resourcePath).Some? && v in KNOWN_VERBS
    requires forall i | 0 <= i < |res.methods| :: ToLower(res.methods[i].verb) != v || MethodMapper.MethodRaises(res.methods[i])
    requires MapOwnMethods(res, paths, params, api, strict, reg).Ok?
    ensures Get(MapOwnMethods(res, paths, params, api, strict, reg).value, res.resourcePath).Some?
    ensures Slot(Get(MapOwnMethods(res, paths, params, api, strict, reg).value, res.resourcePath).value, v) ==
            Slot(Get(paths, res.resourcePath).value, v)
    ensures res.description.None? ==>
              Get(MapOwnMethods(res, paths, params, api, strict, reg).value, res.resourcePath).value.description ==
              Get(paths, res.resourcePath).value.description
  {
    var item1 := StartItem(res, Get(paths, res.resourcePath));
    SlotKept(res.methods, item1, params, res, api, strict, reg, v);
  }
}
