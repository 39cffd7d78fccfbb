/** Mapping of a single RAML property to a schema, with its RAML-specific
    vendor extensions. The converter constructs this mapper but never calls
    it; it is modelled for its own contract. */
module PropertyMapper {
  import opened Wrappers
  import opened Values
  import opened OrderedMaps
  import opened Raml
  import opened OpenApi
  import TypeConverter

  /** Adds `x-raml-annotation-<name>` for every annotation with a non-null
      structured value, in order; `addExtension` is a `LinkedHashMap.put`. */
  function AddAnnotations(ext: OMap<Value>, anns: seq<Annotation>): (r: OMap<Value>)
    ensures forall k :: k !in Keys(ext) && k in Keys(r) ==>
      exists a | a in anns :: a.value.Some? && k == "x-raml-annotation-" + a.name
    decreases |anns|
  {
    if |anns| == 0 then ext
    else
      var a := anns[0];
      var ext' := if a.value.Some? then Put(ext, "x-raml-annotation-" + a.name, a.value.value) else ext;
      var r := AddAnnotations(ext', anns[1..]);
      assert forall b | b in anns[1..] :: b in anns;
      r
  }

  /** An annotation with a value is present in the result with that value,
      unless a later annotation of the same name overwrites it. */
  lemma {:induction false} AnnotationKept(ext: OMap<Value>, anns: seq<Annotation>, i: nat)
    requires i < |anns| && anns[i].value.Some?
    requires forall j :: i < j < |anns| ==> anns[j].name != anns[i].name
    ensures Get(AddAnnotations(ext, anns), "x-raml-annotation-" + anns[i].name) == anns[i].value
    decreases |anns|
  {
    var a := anns[0];
    var ext' := if a.value.Some? then Put(ext, "x-raml-annotation-" + a.name, a.value.value) else ext;
    if i == 0 {
      forall b | b in anns[1..] && b.value.Some?
        ensures "x-raml-annotation-" + a.name != "x-raml-annotation-" + b.name
      {
        var j :| 0 <= j < |anns[1..]| && anns[1..][j] == b;
        assert anns[j + 1] == b;
        PrefixInjective("x-raml-annotation-", a.name, b.name);
      }
      AnnotationsUntouched(ext', anns[1..], "x-raml-annotation-" + a.name);
      GetPut(ext, "x-raml-annotation-" + a.name, a.value.value, "x-raml-annotation-" + a.name);
    } else {
      AnnotationKept(ext', anns[1..], i - 1);
    }
  }

  lemma PrefixInjective(p: string, x: string, y: string)
    ensures p + x == p + y ==> x == y
  {
    if p + x == p + y {
      assert (p + x)[|p|..] == x;
      assert (p + y)[|p|..] == y;
    }
  }

  /** A key that no annotation with a value produces keeps its value. */
  lemma {:induction false} AnnotationsUntouched(ext: OMap<Value>, anns: seq<Annotation>, k: string)
    requires forall a | a in anns && a.value.Some? :: k != "x-raml-annotation-" + a.name
    ensures Get(AddAnnotations(ext, anns), k) == Get(ext, k)
    decreases |anns|
  {
    if |anns| > 0 {
      var a := anns[0];
      if a.value.Some? {
        GetPut(ext, "x-raml-annotation-" + a.name, a.value.value, k);
      }
      var ext' := if a.value.Some? then Put(ext, "x-raml-annotation-" + a.name, a.value.value) else ext;
      assert forall b | b in anns[1..] :: b in anns;
      AnnotationsUntouched(ext', anns[1..], k);
    }
  }

  /** `addRamlExtensions` as written: the display-name test compares the
      `displayName()` wrapper object with the `String` name, which is never
      equal, so the extension is added whenever a display name exists. */
  function AddRamlExtensionsAsWritten(p: TypeDecl, s: Schema): (r: Schema)
    ensures r == s.(extensions := r.extensions)
    ensures Get(r.extensions, DISPLAY_NAME_KEY) ==
      if p.displayName.Some? then Some(VString(p.displayName.value)) else Get(s.extensions, DISPLAY_NAME_KEY)
    ensures Get(r.extensions, DISPLAY_NAME_KEY).Some? <==>
      p.displayName.Some? || Get(AddAnnotations(s.extensions, p.annotations), DISPLAY_NAME_KEY).Some?
    ensures forall k :: k != DISPLAY_NAME_KEY ==> Get(r.extensions, k) == Get(AddAnnotations(s.extensions, p.annotations), k)
  {
    var ext := if p.displayName.Some? then Put(s.extensions, DISPLAY_NAME_KEY, VString(p.displayName.value)) else s.extensions;
    var r := AddAnnotations(ext, p.annotations);
    NoAnnotationHitsDisplayName(p.annotations);
    AnnotationsUntouched(ext, p.annotations, DISPLAY_NAME_KEY);
    AnnotationsUntouched(s.extensions, p.annotations, DISPLAY_NAME_KEY);
    assert p.displayName.Some? ==> Get(ext, DISPLAY_NAME_KEY) == Some(VString(p.displayName.value)) by {
      if p.displayName.Some? {
        GetPut(s.extensions, DISPLAY_NAME_KEY, VString(p.displayName.value), DISPLAY_NAME_KEY);
      }
    }
    assert forall k :: k != DISPLAY_NAME_KEY ==> Get(r, k) == Get(AddAnnotations(s.extensions, p.annotations), k) by {
      forall k | k != DISPLAY_NAME_KEY ensures Get(r, k) == Get(AddAnnotations(s.extensions, p.annotations), k) {
        AddAnnotationsGet(ext, p.annotations, k);
        AddAnnotationsGet(s.extensions, p.annotations, k);
        if p.displayName.Some? {
          GetPut(s.extensions, DISPLAY_NAME_KEY, VString(p.displayName.value), k);
        }
      }
    }
    s.(extensions := r)
  }

  /** The RAML parser gives a property without an explicit display name its
      own name as display name; as written, such a property still gets
      `x-raml-displayName`. */
  lemma DisplayNameEqualToNameStillAdded()
    ensures var p := TypeDecl("id", Some("string"), StringKind(None, None, None, []), Some(true),
                              Some("id"), None, None, [], None, []);
            Get(AddRamlExtensionsAsWritten(p, Bare(BooleanSchema)).extensions, DISPLAY_NAME_KEY) == Some(VString("id"))
  {
    var p := TypeDecl("id", Some("string"), StringKind(None, None, None, []), Some(true),
                      Some("id"), None, None, [], None, []);
    var ext := Put([], DISPLAY_NAME_KEY, VString("id"));
    assert Get(ext, DISPLAY_NAME_KEY) == Some(VString("id"));
  }

  const DISPLAY_NAME_KEY := "x-raml-displayName"

  /** Reference definition of one lookup after the annotation loop: the
      value of the last annotation with a value whose key is `k`, else
      `prior`. */
  function AnnotationValueFor(anns: seq<Annotation>, k: string, prior: Option<Value>): Option<Value>
    decreases |anns|
  {
    if |anns| == 0 then prior
    else
      var a := anns[0];
      AnnotationValueFor(anns[1..], k, if a.value.Some? && k == "x-raml-annotation-" + a.name then a.value else prior)
  }

  /** The annotation loop agrees with the reference lookup at every key. */
  lemma {:induction false} AddAnnotationsGet(ext: OMap<Value>, anns: seq<Annotation>, k: string)
    ensures Get(AddAnnotations(ext, anns), k) == AnnotationValueFor(anns, k, Get(ext, k))
    decreases |anns|
  {
    if |anns| > 0 {
      var a := anns[0];
      if a.value.Some? {
        GetPut(ext, "x-raml-annotation-" + a.name, a.value.value, k);
      }
      var ext' := if a.value.Some? then Put(ext, "x-raml-annotation-" + a.name, a.value.value) else ext;
      AddAnnotationsGet(ext', anns[1..], k);
    }
  }

  /** `addRamlExtensions` as intended: `x-raml-displayName` only when the
      display name differs from the name, then the annotations. Only the
      extensions change; every key other than `x-raml-displayName` reads as
      the annotation loop alone would leave it. */
  function AddRamlExtensions(p: TypeDecl, s: Schema): (r: Schema)
    ensures r == s.(extensions := r.extensions)
    ensures Get(r.extensions, DISPLAY_NAME_KEY) ==
      if p.displayName.Some? && p.displayName.value != p.name then Some(VString(p.displayName.value))
      else Get(s.extensions, DISPLAY_NAME_KEY)
    ensures Get(r.extensions, DISPLAY_NAME_KEY).Some? <==>
      (p.displayName.Some? && p.displayName.value != p.name) || Get(s.extensions, DISPLAY_NAME_KEY).Some?
    ensures forall k :: k != DISPLAY_NAME_KEY ==> Get(r.extensions, k) == Get(AddAnnotations(s.extensions, p.annotations), k)
  {
    var addName := p.displayName.Some? && p.displayName.value != p.name;
    var ext := if addName then Put(s.extensions, DISPLAY_NAME_KEY, VString(p.displayName.value)) else s.extensions;
    var r := AddAnnotations(ext, p.annotations);
    NoAnnotationHitsDisplayName(p.annotations);
    AnnotationsUntouched(ext, p.annotations, DISPLAY_NAME_KEY);
    assert addName ==> Get(ext, DISPLAY_NAME_KEY) == Some(VString(p.displayName.value)) by {
      if addName {
        GetPut(s.extensions, DISPLAY_NAME_KEY, VString(p.displayName.value), DISPLAY_NAME_KEY);
      }
    }
    assert forall k :: k != DISPLAY_NAME_KEY ==> Get(r, k) == Get(AddAnnotations(s.extensions, p.annotations), k) by {
      forall k | k != DISPLAY_NAME_KEY ensures Get(r, k) == Get(AddAnnotations(s.extensions, p.annotations), k) {
        AddAnnotationsGet(ext, p.annotations, k);
        AddAnnotationsGet(s.extensions, p.annotations, k);
        if addName {
          GetPut(s.extensions, DISPLAY_NAME_KEY, VString(p.displayName.value), k);
        }
      }
    }
    s.(extensions := r)
  }

  /** No annotation key is `x-raml-displayName`: the two differ at index 7. */
  lemma NoAnnotationHitsDisplayName(anns: seq<Annotation>)
    ensures forall a | a in anns && a.value.Some? :: DISPLAY_NAME_KEY != "x-raml-annotation-" + a.name
  {
    forall a | a in anns && a.value.Some? ensures DISPLAY_NAME_KEY != "x-raml-annotation-" + a.name {
      var k := "x-raml-annotation-" + a.name;
      assert k[7] == 'a';
      assert DISPLAY_NAME_KEY[7] == 'd';
    }
  }

  lemma DisplayNameSurvives(ext: OMap<Value>, dn: string, anns: seq<Annotation>)
    ensures Get(AddAnnotations(Put(ext, DISPLAY_NAME_KEY, VString(dn)), anns), DISPLAY_NAME_KEY).Some?
  {
    var m := Put(ext, DISPLAY_NAME_KEY, VString(dn));
    assert DISPLAY_NAME_KEY in Keys(m);
    AddAnnotationsKeepsKeys(m, anns);
  }

  lemma {:induction false} AddAnnotationsKeepsKeys(ext: OMap<Value>, anns: seq<Annotation>)
    ensures Keys(ext) <= Keys(AddAnnotations(ext, anns))
    decreases |anns|
  {
    if |anns| > 0 {
      var a := anns[0];
      var ext' := if a.value.Some? then Put(ext, "x-raml-annotation-" + a.name, a.value.value) else ext;
      AddAnnotationsKeepsKeys(ext', anns[1..]);
    }
  }

  /** `mapProperty`: the converted type, with description, example (raw
      string) and default (raw string) copied only when present. */
  function MapProperty(p: TypeDecl, reg: set<string>): (r: Schema)
    ensures r.body == TypeConverter.ConvertType(p, reg).body
    ensures r.description == p.description
    ensures r.example == if p.example.Some? then Some(VString(p.example.value)) else None
    ensures p.defaultValue.Some? ==> r.defaultValue == Some(VString(p.defaultValue.value))
    ensures p.defaultValue.None? ==> r.defaultValue == TypeConverter.ConvertType(p, reg).defaultValue
    ensures r.title == TypeConverter.ConvertType(p, reg).title
    ensures Get(r.extensions, DISPLAY_NAME_KEY) ==
      if p.displayName.Some? && p.displayName.value != p.name then Some(VString(p.displayName.value))
      else Get(TypeConverter.ConvertType(p, reg).extensions, DISPLAY_NAME_KEY)
    ensures forall k :: k != DISPLAY_NAME_KEY ==>
      Get(r.extensions, k) == Get(AddAnnotations(TypeConverter.ConvertType(p, reg).extensions, p.annotations), k)
  {
    AddRamlExtensions(p, DeclaredCopied(p, reg))
  }

  /** The converted type with the property's description, example and
      default copied on when present, before any extension is added. */
  function DeclaredCopied(p: TypeDecl, reg: set<string>): Schema {
    var s := TypeConverter.ConvertType(p, reg);
    s.(description := if p.description.Some? then p.description else s.description,
       example := if p.example.Some? then Some(VString(p.example.value)) else s.example,
       defaultValue := if p.defaultValue.Some? then Some(VString(p.defaultValue.value)) else s.defaultValue)
  }

  /** `mapProperty` exactly as written, on `addRamlExtensions` as written. */
  function MapPropertyAsWritten(p: TypeDecl, reg: set<string>): (r: Schema)
    ensures r == MapProperty(p, reg).(extensions := r.extensions)
    ensures forall k :: k != DISPLAY_NAME_KEY ==> Get(r.extensions, k) == Get(MapProperty(p, reg).extensions, k)
    ensures p.displayName.Some? ==> Get(r.extensions, DISPLAY_NAME_KEY) == Some(VString(p.displayName.value))
    ensures p.displayName.None? || p.displayName.value != p.name ==>
      Get(r.extensions, DISPLAY_NAME_KEY) == Get(MapProperty(p, reg).extensions, DISPLAY_NAME_KEY)
  {
    AddRamlExtensionsAsWritten(p, DeclaredCopied(p, reg))
  }

  /** For the property `id` displayed as `id`, the mapper as written emits
      `x-raml-displayName` and the intended one does not. */
  lemma MapPropertyDiffersOnDefaultDisplayName()
    ensures var p := TypeDecl("id", Some("string"), StringKind(None, None, None, []), Some(true),
                              Some("id"), None, None, [], None, []);
            Get(MapPropertyAsWritten(p, {}).extensions, DISPLAY_NAME_KEY) == Some(VString("id")) &&
            Get(MapProperty(p, {}).extensions, DISPLAY_NAME_KEY).None?
  {
    var p := TypeDecl("id", Some("string"), StringKind(None, None, None, []), Some(true),
                      Some("id"), None, None, [], None, []);
    var s := TypeConverter.ConvertType(p, {});
    assert s.extensions == [];
  }

  /** `extractRequiredProperties`: the required names in order, `None` when
      there are none; unboxing a null `required` throws. */
  function ExtractRequiredProperties(ps: seq<TypeDecl>): (r: Outcome<Option<seq<string>>>)
    ensures r.Err? <==> exists p | p in ps :: p.required.None?
    ensures r.Err? ==> r.error == NullPointer
    ensures r.Ok? ==> (r.value.None? <==> forall p | p in ps :: p.required == Some(false))
    ensures r.Ok? && r.value.Some? ==> r.value.value == TypeConverter.RequiredNames(ps)
  {
    if exists p | p in ps :: p.required.None? then Err(NullPointer)
    else
      var req := TypeConverter.RequiredNames(ps);
      if |req| == 0 then
        assert forall p | p in ps :: p.required == Some(false) by {
          forall p | p in ps ensures p.required == Some(false) {
            var i :| 0 <= i < |ps| && ps[i] == p;
            assert p.required.Some?;
            assert ps[i].name !in req;
            assert p.required.value == false;
          }
        }
        Ok(None)
      else
        assert req[0] in req;
        Ok(Some(req))
  }
}
