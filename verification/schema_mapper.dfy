/** `SchemaMapper`: the RAML `types` section to `components/schemas`, in
    four passes over the shared context. */
module SchemaMapper {
  import opened Wrappers
  import opened Values
  import opened Strings
  import opened OrderedMaps
  import opened Seqs
  import opened Raml
  import opened OpenApi
  import opened MapperContext
  import TypeConverter
  import PropertyMapper

  /** `hasParentType`: the type expression names something that is neither
      built in nor the declaration's own name. The registry is not consulted,
      so an array marker such as "Product[]" counts as a parent. */
  predicate HasParentType(t: TypeDecl) {
    t.typeExpr.Some? && !TypeConverter.IsBuiltInType(t.typeExpr.value) && t.typeExpr.value != t.name
  }

  /** The display name when there is one, else the name. */
  function TitleOf(t: TypeDecl): string {
    t.displayName.GetOr(t.name)
  }

  /** `parseExample`: the trimmed text, kept as a string. */
  function ParseExample(text: string): (r: Value)
    ensures r.VString? && |r.s| <= |text|
    ensures |r.s| > 0 ==> !IsBlankChar(r.s[0]) && !IsBlankChar(r.s[|r.s| - 1])
  {
    VString(Trim(text))
  }

  /** Parsing an already parsed example changes nothing. */
  lemma ParseExampleIdempotent(text: string)
    ensures ParseExample(ParseExample(text).s) == ParseExample(text)
  {
  }

  /** An open object schema with no properties. */
  const OpenEmptyObject: Schema := Bare(ObjectSchema([], None, Some(true)))

  /** `convertOwnPropertiesOnly` of the schema mapper: a non-object gives an
      open empty object; otherwise the same schema as the type converter's
      version, except that a property whose `required` is null makes the
      unboxing throw. */
  function OwnPropertiesOnly(t: TypeDecl, reg: set<string>): (r: Outcome<Schema>)
    ensures !t.kind.ObjectKind? ==> r == Ok(OpenEmptyObject)
    ensures t.kind.ObjectKind? ==> (r.Err? <==> exists p | p in t.kind.properties :: p.required.None?)
    ensures r.Err? ==> r.error == NullPointer
    ensures t.kind.ObjectKind? && r.Ok? ==> r.value == TypeConverter.ConvertOwnPropertiesOnly(t, reg)
    ensures r.Ok? ==> r.value.title.None? && r.value.body.ObjectSchema? && r.value.body.additionalProperties == Some(true)
    ensures r.Ok? && t.kind.ObjectKind? ==>
      Keys(r.value.body.properties) == TypeConverter.Names(t.kind.properties) &&
      (r.value.body.required.Some? <==> |TypeConverter.RequiredNames(t.kind.properties)| > 0)
  {
    if !t.kind.ObjectKind? then Ok(OpenEmptyObject)
    else if exists p | p in t.kind.properties :: p.required.None? then Err(NullPointer)
    else Ok(TypeConverter.ConvertOwnPropertiesOnly(t, reg))
  }

  /** `handleInheritance`: always two `allOf` parts, a `$ref` to the parent
      expression and the own-properties schema, even when the latter is
      empty; title and description on the outer node, no extensions. */
  function HandleInheritance(t: TypeDecl, reg: set<string>): (r: Outcome<Schema>)
    requires HasParentType(t)
    ensures r.Err? <==> OwnPropertiesOnly(t, reg).Err?
    ensures r.Ok? ==> r.value.body.AllOf? && |r.value.body.parts| == 2
    ensures r.Ok? ==> r.value.body.parts[0] == Bare(Ref(t.typeExpr.value))
    ensures r.Ok? ==> r.value.body.parts[1] == OwnPropertiesOnly(t, reg).value
    ensures r.Ok? ==> r.value.title == Some(TitleOf(t)) && r.value.description == t.description
    ensures r.Ok? ==> r.value.example.None? && r.value.extensions == []
  {
    var own :- OwnPropertiesOnly(t, reg);
    Ok(Bare(AllOf([Bare(Ref(t.typeExpr.value)), own])).(title := Some(TitleOf(t)), description := t.description))
  }

  /** `mapTypeDefinition`: inheritance first; otherwise the converted type
      with title, description, trimmed example and annotation extensions. */
  function MapTypeDefinition(t: TypeDecl, reg: set<string>): (r: Outcome<Schema>)
    ensures HasParentType(t) ==> r == HandleInheritance(t, reg)
    ensures r.Err? <==> HasParentType(t) && t.kind.ObjectKind? && exists p | p in t.kind.properties :: p.required.None?
    ensures r.Ok? ==> r.value.title == Some(TitleOf(t)) && r.value.description == t.description
    ensures !HasParentType(t) ==> r.Ok? && r.value.body == TypeConverter.ConvertType(t, reg).body
    ensures !HasParentType(t) ==>
      r.value.example == if t.example.Some? then Some(ParseExample(t.example.value)) else None
    ensures !HasParentType(t) ==>
      r.value.extensions == PropertyMapper.AddAnnotations(TypeConverter.ConvertType(t, reg).extensions, t.annotations)
  {
    if HasParentType(t) then HandleInheritance(t, reg)
    else
      var s := TypeConverter.ConvertType(t, reg);
      Ok(s.(title := Some(TitleOf(t)),
            description := if t.description.Some? then t.description else s.description,
            example := if t.example.Some? then Some(ParseExample(t.example.value)) else s.example,
            extensions := PropertyMapper.AddAnnotations(s.extensions, t.annotations)))
  }

  /** A declaration `Products: Product[]` is taken for inheritance from a
      type literally named "Product[]": its schema is an `allOf` whose first
      part points at that name, which is never a registered schema, whereas
      the type converter would have produced an array of `Product`. */
  lemma ArrayAliasRefDangles(t: TypeDecl, reg: set<string>)
    requires t.typeExpr.Some? && EndsWith(t.typeExpr.value, "[]") && t.typeExpr.value != t.name
    requires !t.kind.ObjectKind?
    requires t.typeExpr.value !in reg
    ensures MapTypeDefinition(t, reg).Ok?
    ensures MapTypeDefinition(t, reg).value.body.parts[0].body == Ref(t.typeExpr.value)
    ensures !AllRefsIn(MapTypeDefinition(t, reg).value, reg)
  {
    ArrayMarkerNotBuiltIn(t.typeExpr.value);
    var r := MapTypeDefinition(t, reg).value;
    UnresolvedPart(r.body.parts, 0, reg);
  }

  /** A declared subtype maps to `allOf` of a reference to its parent and
      its own properties, each the converted property type with the
      property's description and example, in declaration order. */
  lemma InheritedOwnProperties(t: TypeDecl, reg: set<string>)
    requires HasParentType(t) && t.kind.ObjectKind?
    requires forall p | p in t.kind.properties :: p.required.Some?
    requires forall i, j :: 0 <= i < j < |t.kind.properties| ==> t.kind.properties[i].name != t.kind.properties[j].name
    ensures MapTypeDefinition(t, reg).Ok?
    ensures var parts := MapTypeDefinition(t, reg).value.body.parts;
      parts[0] == Bare(Ref(t.typeExpr.value)) &&
      |parts[1].body.properties| == |t.kind.properties| &&
      forall i :: 0 <= i < |t.kind.properties| ==>
        parts[1].body.properties[i] ==
          (t.kind.properties[i].name,
           TypeConverter.Describe(TypeConverter.ConvertType(t.kind.properties[i], reg), t.kind.properties[i]))
  {
    TypeConverter.OwnPropertiesKeepOrder(t, reg);
  }

  /** The documented inheritance case: `Dog` of type `Animal` with a
      required string property `breed` becomes `allOf` of `$ref Animal` and
      an object whose only property is `breed` as a plain string, required. */
  lemma DogExtendsAnimal()
    ensures var breed := TypeDecl("breed", Some("string"), StringKind(None, None, None, []), Some(true),
                                  None, None, None, [], None, []);
            var dog := TypeDecl("Dog", Some("Animal"), ObjectKind([breed]), Some(true),
                                None, None, None, [], None, []);
            var r := MapTypeDefinition(dog, {"Animal", "Dog"});
            r.Ok? && r.value.title == Some("Dog") &&
            r.value.body.parts[0] == Bare(Ref("Animal")) &&
            r.value.body.parts[1].body.properties == [("breed", Bare(StringSchema(None, None, None, None, None)))] &&
            r.value.body.parts[1].body.required == Some(["breed"])
  {
    var breed := TypeDecl("breed", Some("string"), StringKind(None, None, None, []), Some(true),
                          None, None, None, [], None, []);
    var dog := TypeDecl("Dog", Some("Animal"), ObjectKind([breed]), Some(true),
                        None, None, None, [], None, []);
    var reg := {"Animal", "Dog"};
    assert !TypeConverter.IsBuiltInType("Animal");
    assert "string" !in reg;
    assert TypeConverter.ArrayMarkerBase(Some("string")).None?;
    InheritedOwnProperties(dog, reg);
    assert TypeConverter.RequiredNames([breed]) == ["breed"];
  }

  lemma ArrayMarkerNotBuiltIn(x: string)
    requires EndsWith(x, "[]")
    ensures !TypeConverter.IsBuiltInType(x)
  {
    assert x[|x| - 2..] == "[]";
    assert x[|x| - 1] == ']';
  }

  /** An `allOf` with a part pointing outside `reg` does not resolve. */
  lemma UnresolvedPart(parts: seq<Schema>, i: nat, reg: set<string>)
    requires i < |parts| && parts[i].body.Ref? && parts[i].body.target !in reg
    ensures forall s: Schema | s.body == AllOf(parts) :: !AllRefsIn(s, reg)
  {
    var P := (b: SchemaBody) => !b.Ref? || b.target in reg;
    assert parts[i] in parts;
    assert !P(parts[i].body);
    assert !AllNodes(parts[i], P);
    forall s: Schema | s.body == AllOf(parts) ensures !AllRefsIn(s, reg) {
      assert !BodyAllNodes(s.body, P);
    }
  }

  /** Every `$ref` in a mapped type resolves, as long as the type converter's
      references resolve and an inherited parent is registered. */
  lemma MappedRefsResolvable(t: TypeDecl, reg: set<string>)
    requires TypeConverter.RefsResolvable(t, reg)
    requires HasParentType(t) ==> t.typeExpr.value in reg
    requires MapTypeDefinition(t, reg).Ok?
    ensures AllRefsIn(MapTypeDefinition(t, reg).value, reg)
  {
    var r := MapTypeDefinition(t, reg).value;
    if HasParentType(t) {
      var own := OwnPropertiesOnly(t, reg).value;
      if t.kind.ObjectKind? {
        TypeConverter.OwnPropertiesResolvable(t, reg);
      }
      assert AllRefsIn(Bare(Ref(t.typeExpr.value)), reg);
      assert forall p | p in r.body.parts :: AllRefsIn(p, reg);
    } else {
      TypeConverter.ConvertRefsResolvable(t, reg);
      var s := TypeConverter.ConvertType(t, reg);
      assert AllRefsIn(s, reg);
    }
  }

  /** Pass 1: every declared type name is registered. */
  function RegisterNames(c: Context, types: seq<TypeDecl>): (r: Context)
    ensures forall n :: HasSchema(r, n) <==> HasSchema(c, n) || exists t | t in types :: t.name == n
    ensures r.strict == c.strict && r.properties == c.properties
    decreases |types|
  {
    if |types| == 0 then c
    else
      var r := RegisterNames(AddSchemaName(c, types[0].name), types[1..]);
      assert forall t | t in types[1..] :: t in types;
      assert forall t | t in types :: t == types[0] || t in types[1..];
      r
  }

  /** The names of the declarations that map without an exception. */
  function MappedNames(types: seq<TypeDecl>, reg: set<string>): set<string> {
    set t | t in types && MapTypeDefinition(t, reg).Ok? :: t.name
  }

  /** The message of the exception raised for a failing type in strict mode. */
  function FailureMessage(name: string, e: Error): string {
    "Failed to map type '" + name + "': " + Message(e)
  }

  /** Pass 2: each declaration is mapped and put under its name, in order.
      A failure aborts in strict mode and is skipped otherwise. */
  function MapTypes(types: seq<TypeDecl>, reg: set<string>, strict: bool, acc: OMap<Schema>): (r: Outcome<OMap<Schema>>)
    ensures !strict ==> r.Ok?
    ensures strict ==> (r.Err? <==> exists t | t in types :: MapTypeDefinition(t, reg).Err?)
    ensures r.Ok? ==> Keys(r.value) == Keys(acc) + MappedNames(types, reg)
    decreases |types|
  {
    if |types| == 0 then
      assert MappedNames(types, reg) == {};
      Ok(acc)
    else
      var t := types[0];
      MappedNamesCons(types, reg);
      match MapTypeDefinition(t, reg)
      case Ok(s) => MapTypes(types[1..], reg, strict, Put(acc, t.name, s))
      case Err(e) =>
        if strict then Err(ConverterException(FailureMessage(t.name, e)))
        else MapTypes(types[1..], reg, strict, acc)
  }

  lemma MappedNamesCons(types: seq<TypeDecl>, reg: set<string>)
    requires |types| > 0
    ensures MappedNames(types, reg) ==
      (if MapTypeDefinition(types[0], reg).Ok? then {types[0].name} else {}) + MappedNames(types[1..], reg)
    ensures (exists t | t in types :: MapTypeDefinition(t, reg).Err?) <==>
      MapTypeDefinition(types[0], reg).Err? || exists t | t in types[1..] :: MapTypeDefinition(t, reg).Err?
  {
    assert forall u | u in types[1..] :: u in types;
    assert forall u | u in types :: u == types[0] || u in types[1..];
  }

  /** `types[i]` is the first declaration that fails to map. */
  predicate FirstFailure(types: seq<TypeDecl>, reg: set<string>, i: int) {
    0 <= i < |types| && MapTypeDefinition(types[i], reg).Err? &&
    forall j :: 0 <= j < i ==> MapTypeDefinition(types[j], reg).Ok?
  }

  /** The exception strict mode raises for a failing declaration. */
  function StrictError(t: TypeDecl, reg: set<string>): Error
    requires MapTypeDefinition(t, reg).Err?
  {
    ConverterException(FailureMessage(t.name, MapTypeDefinition(t, reg).error))
  }

  /** In strict mode the exception names the first declaration that fails,
      and carries its message. */
  lemma {:induction false} StrictFailureNamesFirst(types: seq<TypeDecl>, reg: set<string>, acc: OMap<Schema>)
    requires MapTypes(types, reg, true, acc).Err?
    ensures exists i :: (FirstFailure(types, reg, i) &&
      MapTypes(types, reg, true, acc).error == StrictError(types[i], reg))
    decreases |types|
  {
    var t := types[0];
    var m := MapTypeDefinition(t, reg);
    if m.Ok? {
      var acc' := Put(acc, t.name, m.value);
      assert MapTypes(types, reg, true, acc) == MapTypes(types[1..], reg, true, acc');
      StrictFailureNamesFirst(types[1..], reg, acc');
      var i :| FirstFailure(types[1..], reg, i) && MapTypes(types[1..], reg, true, acc').error == StrictError(types[1..][i], reg);
      FirstFailureShift(types, reg, i);
    } else {
      assert FirstFailure(types, reg, 0);
    }
  }

  lemma FirstFailureShift(types: seq<TypeDecl>, reg: set<string>, i: int)
    requires |types| > 0 && MapTypeDefinition(types[0], reg).Ok?
    requires FirstFailure(types[1..], reg, i)
    ensures FirstFailure(types, reg, i + 1) && types[i + 1] == types[1..][i]
  {
    forall j | 0 <= j < i + 1 ensures MapTypeDefinition(types[j], reg).Ok? {
      if j > 0 {
        assert types[j] == types[1..][j - 1];
      }
    }
  }

  /** A key that no successfully mapped declaration carries keeps its value. */
  lemma {:induction false} MapTypesOther(types: seq<TypeDecl>, reg: set<string>, strict: bool, acc: OMap<Schema>, k: string)
    requires MapTypes(types, reg, strict, acc).Ok?
    requires k !in MappedNames(types, reg)
    ensures Get(MapTypes(types, reg, strict, acc).value, k) == Get(acc, k)
    decreases |types|
  {
    if |types| > 0 {
      var t := types[0];
      assert forall u | u in types[1..] :: u in types;
      match MapTypeDefinition(t, reg)
      case Ok(s) =>
        assert t.name in MappedNames(types, reg);
        GetPut(acc, t.name, s, k);
        MapTypesOther(types[1..], reg, strict, Put(acc, t.name, s), k);
      case Err(_) =>
        MapTypesOther(types[1..], reg, strict, acc, k);
    }
  }

  /** A name no later declaration repeats is not among their mapped names. */
  lemma NameNotRepeated(types: seq<TypeDecl>, reg: set<string>)
    requires |types| > 0
    requires forall j :: 0 < j < |types| ==> types[j].name != types[0].name
    ensures types[0].name !in MappedNames(types[1..], reg)
  {
    forall u | u in types[1..] ensures u.name != types[0].name {
      var j :| 0 <= j < |types[1..]| && types[1..][j] == u;
      assert types[j + 1] == u;
    }
  }

  /** A declaration that maps, and that no later declaration of the same
      name overrides, ends up under its name with its mapped schema. */
  lemma {:induction false} MapTypesValue(types: seq<TypeDecl>, reg: set<string>, strict: bool, acc: OMap<Schema>, i: nat)
    requires MapTypes(types, reg, strict, acc).Ok?
    requires i < |types| && MapTypeDefinition(types[i], reg).Ok?
    requires forall j :: i < j < |types| ==> types[j].name != types[i].name
    ensures Get(MapTypes(types, reg, strict, acc).value, types[i].name) == Some(MapTypeDefinition(types[i], reg).value)
    decreases |types|, 1
  {
    var t := types[0];
    var mapped := MapTypeDefinition(t, reg);
    assert mapped.Err? ==> !strict;
    var next := if mapped.Ok? then Put(acc, t.name, mapped.value) else acc;
    assert MapTypes(types, reg, strict, acc) == MapTypes(types[1..], reg, strict, next);
    if i == 0 {
      NameNotRepeated(types, reg);
      MapTypesOther(types[1..], reg, strict, next, t.name);
      GetPut(acc, t.name, mapped.value, t.name);
    } else {
      MapTypesValueLater(types, reg, strict, acc, next, i);
    }
  }

  /** The step of `MapTypesValue` for a declaration after the first. */
  lemma {:induction false} MapTypesValueLater(types: seq<TypeDecl>, reg: set<string>, strict: bool,
                                              acc: OMap<Schema>, next: OMap<Schema>, i: nat)
    requires 0 < i < |types| && MapTypeDefinition(types[i], reg).Ok?
    requires MapTypes(types, reg, strict, acc) == MapTypes(types[1..], reg, strict, next)
    requires MapTypes(types, reg, strict, acc).Ok?
    requires forall j :: i < j < |types| ==> types[j].name != types[i].name
    ensures Get(MapTypes(types, reg, strict, acc).value, types[i].name) == Some(MapTypeDefinition(types[i], reg).value)
    decreases |types|, 0
  {
    var rest := types[1..];
    var u := types[i];
    assert rest[i - 1] == u;
    assert forall j :: i - 1 < j < |rest| ==> rest[j].name != u.name by {
      forall j | i - 1 < j < |rest| ensures rest[j].name != u.name {
        assert rest[j] == types[j + 1];
      }
    }
    MapTypesValue(rest, reg, strict, next, i - 1);
  }

  /** The bases of the array markers among body types, in order. */
  function BodyBases(bodies: seq<TypeDecl>): (r: seq<string>)
    ensures forall b :: b in r <==> exists d | d in bodies :: d.typeExpr == Some(b + "[]")
    decreases |bodies|
  {
    if |bodies| == 0 then []
    else
      var d := bodies[0];
      var base := TypeConverter.ArrayMarkerBase(d.typeExpr);
      var rest := BodyBases(bodies[1..]);
      assert forall u | u in bodies[1..] :: u in bodies;
      assert forall u | u in bodies :: u == d || u in bodies[1..];
      assert forall b :: d.typeExpr == Some(b + "[]") ==> base == Some(b) by {
        forall b | d.typeExpr == Some(b + "[]") ensures base == Some(b) {
          var x := b + "[]";
          assert EndsWith(x, "[]") by { assert x[|x| - 2..] == "[]"; }
          assert x[..|x| - 2] == b;
        }
      }
      (if base.Some? then [base.value] else []) + rest
  }

  /** The request and response body types of one method. */
  function MethodBases(m: Method): seq<string> {
    BodyBases(m.body) + Flatten(seq(|m.responses|, i requires 0 <= i < |m.responses| => BodyBases(m.responses[i].body)))
  }

  /** The bases found in each method, in order. */
  function MethodsBases(ms: seq<Method>): (r: seq<seq<string>>)
    ensures |r| == |ms| && forall i :: 0 <= i < |ms| ==> r[i] == MethodBases(ms[i])
  {
    seq(|ms|, i requires 0 <= i < |ms| => MethodBases(ms[i]))
  }

  /** `scanResourcesForArrayTypes` on one resource: its methods, then its
      nested resources, depth first. */
  function ResourceBases(r: Resource): seq<string>
    decreases r, 1
  {
    Flatten(MethodsBases(r.methods)) + Flatten(ChildrenBases(r))
  }

  /** The bases found in each nested resource, in order. */
  function ChildrenBases(r: Resource): (cs: seq<seq<string>>)
    ensures |cs| == |r.resources|
    decreases r, 0
  {
    seq(|r.resources|, i requires 0 <= i < |r.resources| => ResourceBases(r.resources[i]))
  }

  function ScanResources(rs: seq<Resource>): seq<string> {
    Flatten(seq(|rs|, i requires 0 <= i < |rs| => ResourceBases(rs[i])))
  }

  /** A method mentions `T[]` as a request or a response body type. */
  predicate MethodUses(m: Method, b: string) {
    (exists d | d in m.body :: d.typeExpr == Some(b + "[]")) ||
    (exists resp, d | resp in m.responses && d in resp.body :: d.typeExpr == Some(b + "[]"))
  }

  /** The resource or one of its descendants has a method that mentions `T[]`. */
  predicate ResourceUses(r: Resource, b: string)
    decreases r
  {
    (exists m | m in r.methods :: MethodUses(m, b)) ||
    (exists c | c in r.resources :: ResourceUses(c, b))
  }

  lemma MethodBasesSpec(m: Method, b: string)
    ensures b in MethodBases(m) <==> MethodUses(m, b)
  {
    var ss := seq(|m.responses|, i requires 0 <= i < |m.responses| => BodyBases(m.responses[i].body));
    if b in Flatten(ss) {
      var i :| 0 <= i < |ss| && b in ss[i];
      var d :| d in m.responses[i].body && d.typeExpr == Some(b + "[]");
      assert m.responses[i] in m.responses;
    }
    if exists resp, d | resp in m.responses && d in resp.body :: d.typeExpr == Some(b + "[]") {
      var resp, d :| resp in m.responses && d in resp.body && d.typeExpr == Some(b + "[]");
      var i :| 0 <= i < |m.responses| && m.responses[i] == resp;
      assert b in ss[i];
    }
  }

  lemma MethodsBasesSpec(ms: seq<Method>, b: string)
    ensures b in Flatten(MethodsBases(ms)) <==> exists m | m in ms :: MethodUses(m, b)
  {
    var ss := MethodsBases(ms);
    forall i | 0 <= i < |ms| ensures b in ss[i] <==> MethodUses(ms[i], b) {
      MethodBasesSpec(ms[i], b);
    }
    if exists m | m in ms :: MethodUses(m, b) {
      var m :| m in ms && MethodUses(m, b);
      var i :| 0 <= i < |ms| && ms[i] == m;
      assert b in ss[i];
    }
  }

  /** The depth-first scan finds exactly the bases some method in the tree mentions. */
  lemma {:induction false} ResourceBasesSpec(r: Resource, b: string)
    ensures b in ResourceBases(r) <==> ResourceUses(r, b)
    decreases r, 1
  {
    MethodsBasesSpec(r.methods, b);
    ChildrenBasesSpec(r, b);
  }

  lemma {:induction false} ChildrenBasesSpec(r: Resource, b: string)
    ensures b in Flatten(ChildrenBases(r)) <==> exists c | c in r.resources :: ResourceUses(c, b)
    decreases r, 0
  {
    var cs := ChildrenBases(r);
    forall i | 0 <= i < |r.resources| ensures b in cs[i] <==> ResourceUses(r.resources[i], b) {
      ResourceBasesSpec(r.resources[i], b);
    }
    if exists c | c in r.resources :: ResourceUses(c, b) {
      var c :| c in r.resources && ResourceUses(c, b);
      var i :| 0 <= i < |r.resources| && r.resources[i] == c;
      assert b in cs[i];
    }
  }

  /** The array bases to generate: each base the resources mention, once.
      The source collects them in a `HashSet`; the model visits them in
      order of first occurrence. */
  function ArrayBasesToGenerate(rs: seq<Resource>): (r: seq<string>)
    ensures Distinct(r)
    ensures forall b :: b in r <==> exists x | x in rs :: ResourceUses(x, b)
  {
    var ss := seq(|rs|, i requires 0 <= i < |rs| => ResourceBases(rs[i]));
    forall b ensures b in Flatten(ss) <==> exists x | x in rs :: ResourceUses(x, b) {
      forall i | 0 <= i < |rs| ensures b in ss[i] <==> ResourceUses(rs[i], b) {
        ResourceBasesSpec(rs[i], b);
      }
      if exists x | x in rs :: ResourceUses(x, b) {
        var x :| x in rs && ResourceUses(x, b);
        var i :| 0 <= i < |rs| && rs[i] == x;
        assert b in ss[i];
      }
    }
    Dedup(ScanResources(rs))
  }

  /** The schema generated for `T[]`: an array whose items point at `T`. */
  function ArrayOfRef(base: string): (r: Schema)
    ensures r.body.ArraySchema? && r.body.items == Some(Bare(Ref(base)))
  {
    Bare(ArraySchema(Some(Bare(Ref(base))), None, None, None))
  }

  lemma ArraySuffixInjective(a: string, b: string)
    ensures a + "Array" == b + "Array" ==> a == b
  {
    if a + "Array" == b + "Array" {
      assert (a + "Array")[..|a|] == a;
      assert (b + "Array")[..|b|] == b;
    }
  }

  /** Pass 4: for each base whose name is registered at that point, put
      `<base>Array` (replacing any schema of that name in place) and
      register it. */
  function GenerateArrays(bases: seq<string>, schemas: OMap<Schema>, c: Context): (r: (OMap<Schema>, Context))
    ensures r.1.strict == c.strict && r.1.properties == c.properties
    ensures c.schemaNames <= r.1.schemaNames
    ensures forall n | n in r.1.schemaNames - c.schemaNames :: exists b | b in bases :: n == b + "Array"
    ensures forall b | b in bases && HasSchema(c, b) :: HasSchema(r.1, b + "Array")
    decreases |bases|
  {
    if |bases| == 0 then (schemas, c)
    else
      var b := bases[0];
      assert forall x | x in bases[1..] :: x in bases;
      assert forall x | x in bases :: x == b || x in bases[1..];
      if HasSchema(c, b) then
        var c' := AddSchemaName(c, b + "Array");
        var r := GenerateArrays(bases[1..], Put(schemas, b + "Array", ArrayOfRef(b)), c');
        assert forall n | n in r.1.schemaNames - c.schemaNames :: exists x | x in bases :: n == x + "Array" by {
          forall n | n in r.1.schemaNames - c.schemaNames ensures exists x | x in bases :: n == x + "Array" {
            if n in c'.schemaNames {
              assert n == b + "Array" && b in bases;
            } else {
              assert n in r.1.schemaNames - c'.schemaNames;
              var x :| x in bases[1..] && n == x + "Array";
              assert x in bases;
            }
          }
        }
        r
      else
        GenerateArrays(bases[1..], schemas, c)
  }

  /** Pass 4 changes only `<base>Array` entries, each to the array schema
      of its base. */
  lemma {:induction false} GenerateArraysFrame(bases: seq<string>, schemas: OMap<Schema>, c: Context, k: string)
    ensures var r := GenerateArrays(bases, schemas, c);
      Get(r.0, k) == Get(schemas, k) ||
      exists b | b in bases && HasSchema(r.1, b) :: k == b + "Array" && Get(r.0, k) == Some(ArrayOfRef(b))
    decreases |bases|
  {
    if |bases| > 0 {
      var b := bases[0];
      assert forall x | x in bases[1..] :: x in bases;
      if HasSchema(c, b) {
        var s' := Put(schemas, b + "Array", ArrayOfRef(b));
        var c' := AddSchemaName(c, b + "Array");
        GenerateArraysFrame(bases[1..], s', c', k);
        GetPut(schemas, b + "Array", ArrayOfRef(b), k);
      } else {
        GenerateArraysFrame(bases[1..], schemas, c, k);
      }
    }
  }

  /** Every base registered before pass 4 gets its array schema. */
  lemma {:induction false} GenerateArraysPuts(bases: seq<string>, schemas: OMap<Schema>, c: Context, b: string)
    requires b in bases && HasSchema(c, b)
    ensures Get(GenerateArrays(bases, schemas, c).0, b + "Array") == Some(ArrayOfRef(b))
    decreases |bases|
  {
    var b0 := bases[0];
    if b0 == b {
      var s' := Put(schemas, b + "Array", ArrayOfRef(b));
      GetPut(schemas, b + "Array", ArrayOfRef(b), b + "Array");
      GenerateArraysFrame(bases[1..], s', AddSchemaName(c, b + "Array"), b + "Array");
      var r := GenerateArrays(bases[1..], s', AddSchemaName(c, b + "Array"));
      if Get(r.0, b + "Array") != Get(s', b + "Array") {
        var x :| x in bases[1..] && HasSchema(r.1, x) && b + "Array" == x + "Array" && Get(r.0, b + "Array") == Some(ArrayOfRef(x));
        ArraySuffixInjective(b, x);
      }
    } else {
      assert b in bases[1..];
      if HasSchema(c, b0) {
        GenerateArraysPuts(bases[1..], Put(schemas, b0 + "Array", ArrayOfRef(b0)), AddSchemaName(c, b0 + "Array"), b);
      } else {
        GenerateArraysPuts(bases[1..], schemas, c, b);
      }
    }
  }

  /** `SchemaMapper.map`: register every declared name, map every
      declaration, then generate the array schemas the resources need. */
  function Map(api: Option<Api>, c: Context): (r: Outcome<(OMap<Schema>, Context)>)
    ensures api.None? ==> r == Err(ConverterException("Cannot map null API to schemas"))
    ensures api.Some? && !c.strict ==> r.Ok?
    ensures api.Some? && c.strict ==>
      (r.Err? <==> exists t | t in api.value.types :: MapTypeDefinition(t, DeclaredRegistry(c, api.value)).Err?)
    ensures r.Ok? ==> r.value.1.strict == c.strict && r.value.1.properties == c.properties
    ensures r.Ok? ==> DeclaredRegistry(c, api.value) <= r.value.1.schemaNames
  {
    if api.None? then Err(ConverterException("Cannot map null API to schemas"))
    else
      var a := api.value;
      var c1 := RegisterNames(c, a.types);
      match MapTypes(a.types, c1.schemaNames, c1.strict, [])
      case Err(e) => Err(e)
      case Ok(schemas) => Ok(GenerateArrays(ArrayBasesToGenerate(a.resources), schemas, c1))
  }

  /** The registry pass 2 converts under: the context's names plus every declared name. */
  function DeclaredRegistry(c: Context, a: Api): (r: set<string>)
    ensures forall t | t in a.types :: t.name in r
    ensures c.schemaNames <= r
  {
    var c1 := RegisterNames(c, a.types);
    forall t | t in a.types ensures t.name in c1.schemaNames {
      assert exists u | u in a.types :: u.name == t.name;
      assert HasSchema(c1, t.name);
    }
    assert forall n | n in c.schemaNames :: HasSchema(c1, n);
    c1.schemaNames
  }

  /** After mapping, every declared type that maps has its schema: the
      mapped definition itself when no later declaration reuses the name and
      no generated array schema takes it. Every array base the resources
      mention that names a registered type has its `<base>Array` schema. */
  lemma MapContents(api: Api, c: Context)
    requires Map(Some(api), c).Ok?
    ensures var r := Map(Some(api), c).value;
      var reg := DeclaredRegistry(c, api);
      (forall t | t in api.types && MapTypeDefinition(t, reg).Ok? :: t.name in Keys(r.0)) &&
      (forall i :: 0 <= i < |api.types| && MapTypeDefinition(api.types[i], reg).Ok? &&
                   TypeConverter.LastOfName(api.types, i) && api.types[i].name !in ArrayNames(ArrayBasesToGenerate(api.resources)) ==>
         Get(r.0, api.types[i].name) == Some(MapTypeDefinition(api.types[i], reg).value)) &&
      (forall b | b in ArrayBasesToGenerate(api.resources) && b in reg ::
        Get(r.0, b + "Array") == Some(ArrayOfRef(b)) && HasSchema(r.1, b + "Array"))
  {
    var reg := DeclaredRegistry(c, api);
    var c1 := RegisterNames(c, api.types);
    var schemas := MapTypes(api.types, reg, c.strict, []).value;
    var bases := ArrayBasesToGenerate(api.resources);
    var g := GenerateArrays(bases, schemas, c1);
    forall t | t in api.types && MapTypeDefinition(t, reg).Ok? ensures t.name in Keys(g.0) {
      assert t.name in Keys(schemas);
      GenerateArraysFrame(bases, schemas, c1, t.name);
    }
    forall i | 0 <= i < |api.types| && MapTypeDefinition(api.types[i], reg).Ok? &&
               TypeConverter.LastOfName(api.types, i) && api.types[i].name !in ArrayNames(bases)
      ensures Get(g.0, api.types[i].name) == Some(MapTypeDefinition(api.types[i], reg).value)
    {
      var n := api.types[i].name;
      MapTypesValue(api.types, reg, c.strict, [], i);
      GenerateArraysFrame(bases, schemas, c1, n);
    }
    forall b | b in bases && b in reg ensures Get(g.0, b + "Array") == Some(ArrayOfRef(b)) {
      GenerateArraysPuts(bases, schemas, c1, b);
    }
  }

  /** In lenient mode a declaration that fails stays registered but gets no
      schema, so references to it are left dangling. */
  lemma LenientFailureLeavesDanglingName(api: Api, c: Context, i: nat)
    requires !c.strict && i < |api.types|
    requires MapTypeDefinition(api.types[i], DeclaredRegistry(c, api)).Err?
    requires forall j :: 0 <= j < |api.types| && j != i ==> api.types[j].name != api.types[i].name
    requires api.types[i].name !in ArrayNames(ArrayBasesToGenerate(api.resources))
    ensures Map(Some(api), c).Ok?
    ensures HasSchema(Map(Some(api), c).value.1, api.types[i].name)
    ensures Get(Map(Some(api), c).value.0, api.types[i].name).None?
  {
    var reg := DeclaredRegistry(c, api);
    var n := api.types[i].name;
    assert n !in MappedNames(api.types, reg) by {
      forall u | u in api.types && MapTypeDefinition(u, reg).Ok? ensures u.name != n {
        var j :| 0 <= j < |api.types| && api.types[j] == u;
      }
    }
    var schemas := MapTypes(api.types, reg, false, []).value;
    MapTypesOther(api.types, reg, false, [], n);
    var bases := ArrayBasesToGenerate(api.resources);
    var g := GenerateArrays(bases, schemas, RegisterNames(c, api.types));
    GenerateArraysFrame(bases, schemas, RegisterNames(c, api.types), n);
  }

  function ArrayNames(bases: seq<string>): set<string> {
    set b | b in bases :: b + "Array"
  }
}
