/** Conversion of one RAML type declaration into an OpenAPI schema, with the
    registry of component-schema names passed in. Rules apply in order:
    the `T[]` array marker, then a bare `$ref` to a registered name, then
    dispatch on the declaration's class, then a `$ref` for a non-built-in
    type name, then a plain object. */
module TypeConverter {
  import opened Wrappers
  import opened Values
  import opened Strings
  import opened Decimal
  import opened OrderedMaps
  import opened Raml
  import opened OpenApi

  /** The 13 RAML built-in type names. */
  const BUILT_IN_TYPES: seq<string> := [
    "string", "number", "integer", "boolean", "date-only",
    "time-only", "datetime-only", "datetime", "file",
    "array", "object", "nil", "any"]

  predicate IsBuiltInType(name: string) {
    name in BUILT_IN_TYPES
  }

  /** 64-bit bounds used when an integer bound is missing. */
  const LONG_MIN: int := -0x8000_0000_0000_0000
  const LONG_MAX: int := 0x7FFF_FFFF_FFFF_FFFF

  /** `isReference`: a present type name that is neither built in nor an array marker. */
  predicate IsReference(typeName: Option<string>) {
    typeName.Some? && !IsBuiltInType(typeName.value) && !EndsWith(typeName.value, "[]")
  }

  /** `createReference`: a `$ref` to the name with every "[]" removed. */
  function CreateReference(typeName: string): (r: Schema)
    ensures r.body.Ref? && r.title.None? && r.description.None?
    ensures '[' !in typeName ==> r.body.target == typeName
    ensures r.body.target == RemoveBracketPairs(typeName)
    ensures Unbracketed(r.body.target) == Unbracketed(typeName)
  {
    Bare(Ref(RemoveBracketPairs(typeName)))
  }

  /** A trailing array marker never reaches the reference: `T[]` and `T`
      refer to the same schema. */
  lemma ReferenceDropsArrayMarker(base: string)
    ensures CreateReference(base + "[]") == CreateReference(base)
  {
    RemoveTrailingMarker(base);
  }

  /** The base name of an array marker `T[]`, when the type name is one. */
  function ArrayMarkerBase(typeName: Option<string>): (r: Option<string>)
    ensures r.Some? <==> typeName.Some? && EndsWith(typeName.value, "[]")
    ensures r.Some? ==> typeName.value == r.value + "[]"
  {
    if typeName.Some? && EndsWith(typeName.value, "[]") then
      Some(typeName.value[..|typeName.value| - 2])
    else None
  }

  /** Rule 1: the type is `T[]` and `T` is registered. */
  predicate ArrayRuleFires(t: TypeDecl, reg: set<string>) {
    var base := ArrayMarkerBase(t.typeExpr);
    base.Some? && base.value in reg
  }

  /** Rule 2: the type name itself is registered (and rule 1 did not fire). */
  predicate RefRuleFires(t: TypeDecl, reg: set<string>) {
    !ArrayRuleFires(t, reg) && t.typeExpr.Some? && t.typeExpr.value in reg
  }

  /** `convertType` for a possibly-null declaration: null gives a plain object schema. */
  function ConvertNullable(t: Option<TypeDecl>, reg: set<string>): (r: Schema)
    ensures t.None? ==> r == EmptyObject
  {
    match t
    case None => EmptyObject
    case Some(d) => ConvertType(d, reg)
  }

  /** `convertType`. */
  function ConvertType(t: TypeDecl, reg: set<string>): (r: Schema)
    ensures ArrayRuleFires(t, reg) ==>
      var base := ArrayMarkerBase(t.typeExpr).value;
      if base + "Array" in reg then r == Bare(Ref(base + "Array"))
      else r == Bare(ArraySchema(Some(Bare(Ref(base))), None, None, None))
    ensures RefRuleFires(t, reg) ==> r == Bare(Ref(t.typeExpr.value))
    ensures !ArrayRuleFires(t, reg) && !RefRuleFires(t, reg) ==> r == ConvertStructural(t, reg)
    ensures r.description.None? && r.example.None?
    decreases t, 5
  {
    var base := ArrayMarkerBase(t.typeExpr);
    if base.Some? && base.value in reg then
      if base.value + "Array" in reg then Bare(Ref(base.value + "Array"))
      else Bare(ArraySchema(Some(Bare(Ref(base.value))), None, None, None))
    else if t.typeExpr.Some? && t.typeExpr.value in reg then
      Bare(Ref(t.typeExpr.value))
    else
      ConvertStructural(t, reg)
  }

  /** The class dispatch of `convertType`, reached when neither name rule fired. */
  function ConvertStructural(t: TypeDecl, reg: set<string>): (r: Schema)
    ensures r.description.None? && r.example.None?
    decreases t, 4
  {
    match t.kind
    case StringKind(_, _, _, _) => ConvertStringType(t.kind)
    case IntegerKind(_, _, _, _) => ConvertIntegerType(t)
    case BooleanKind => Bare(BooleanSchema)
    case ArrayKind(_, _, _, _) => ConvertArrayType(t, reg)
    case ObjectKind(_) => ConvertObjectType(t, reg)
    case UnionKind(_) => ConvertUnionType(t, reg)
    case DateTimeKind(_) => ConvertDateTimeType(t.kind)
    case FileKind(_, _, _) => ConvertFileType(t.kind)
    case NumberKind(_, _, _, _) => ConvertNumberType(t.kind)
    case OtherKind =>
      if IsReference(t.typeExpr) then CreateReference(t.typeExpr.value) else EmptyObject
  }

  function ConvertStringType(k: TypeKind): (r: Schema)
    requires k.StringKind?
    ensures r.body.StringSchema? && r.body.format.None?
    ensures r.body.pattern == k.pattern && r.body.minLength == k.minLength && r.body.maxLength == k.maxLength
    ensures r.body.enumValues.Some? <==> |k.enumValues| > 0
    ensures r.body.enumValues.Some? ==> r.body.enumValues.value == k.enumValues
  {
    Bare(StringSchema(None, k.pattern, k.minLength, k.maxLength,
      if |k.enumValues| > 0 then Some(k.enumValues) else None))
  }

  function ConvertNumberType(k: TypeKind): (r: Schema)
    requires k.NumberKind?
    ensures r.body == NumberSchema(k.numFormat, k.numMinimum, k.numMaximum, k.numMultipleOf)
  {
    Bare(NumberSchema(k.numFormat, k.numMinimum, k.numMaximum, k.numMultipleOf))
  }

  /** The integer `format`: the declared one, else inferred from the bounds
      (a missing bound counts as the 64-bit extreme), else none. */
  function IntegerFormat(format: Option<string>, minimum: Option<int>, maximum: Option<int>): (r: Option<string>)
    ensures format.Some? ==> r == format
    ensures format.None? ==>
      (r == Some("int32") <==>
        minimum.Some? && maximum.Some? && minimum.value >= INT_MIN && maximum.value <= INT_MAX)
    ensures format.None? ==>
      (r == Some("int64") <==>
        (minimum.Some? || maximum.Some?) &&
        !(minimum.Some? && maximum.Some? && minimum.value >= INT_MIN && maximum.value <= INT_MAX))
    ensures format.None? ==> (r.None? <==> minimum.None? && maximum.None?)
  {
    if format.Some? then format
    else if minimum.Some? || maximum.Some? then
      var lo := if minimum.Some? then minimum.value else LONG_MIN;
      var hi := if maximum.Some? then maximum.value else LONG_MAX;
      if lo >= INT_MIN && hi <= INT_MAX then Some("int32") else Some("int64")
    else None
  }

  function ConvertIntegerType(t: TypeDecl): (r: Schema)
    requires t.kind.IntegerKind?
    ensures r.body.IntegerSchema?
    ensures r.body.intFormat == IntegerFormat(t.kind.format, t.kind.minimum, t.kind.maximum)
    ensures r.body.minimum == t.kind.minimum && r.body.maximum == t.kind.maximum
    ensures r.body.multipleOf == t.kind.multipleOf
    ensures r.defaultValue.Some? <==> t.defaultValue.Some? && ParseInt32(t.defaultValue.value).Some?
    ensures r.defaultValue.Some? ==> r.defaultValue.value == VInt(ParseInt32(t.defaultValue.value).value)
    ensures r.description.None? && r.example.None?
  {
    var k := t.kind;
    var dflt := if t.defaultValue.Some? then ParseInt32(t.defaultValue.value) else None;
    Bare(IntegerSchema(IntegerFormat(k.format, k.minimum, k.maximum), k.minimum, k.maximum, k.multipleOf))
      .(defaultValue := if dflt.Some? then Some(VInt(dflt.value)) else None)
  }

  function ConvertArrayType(t: TypeDecl, reg: set<string>): (r: Schema)
    requires t.kind.ArrayKind?
    ensures r.body.ArraySchema?
    ensures r.body.items.Some? <==> t.kind.items.Some?
    ensures t.kind.items.Some? ==> r.body.items == Some(ConvertType(t.kind.items.value, reg))
    ensures r.body.minItems == t.kind.minItems && r.body.maxItems == t.kind.maxItems
    ensures r.body.uniqueItems == t.kind.uniqueItems
    ensures r.description.None? && r.example.None?
    decreases t, 3
  {
    var k := t.kind;
    Bare(ArraySchema(
      if k.items.Some? then Some(ConvertType(k.items.value, reg)) else None,
      k.minItems, k.maxItems, k.uniqueItems))
  }

  /** The inheritance test of `convertObjectType`. */
  predicate ObjectInherits(t: TypeDecl, reg: set<string>) {
    t.typeExpr.Some? && t.typeExpr.value != "object" && t.typeExpr.value != "any" && t.typeExpr.value in reg
  }

  function ConvertObjectType(t: TypeDecl, reg: set<string>): (r: Schema)
    requires t.kind.ObjectKind?
    ensures ObjectInherits(t, reg) ==> r.body.AllOf?
    ensures !ObjectInherits(t, reg) ==> r.body.ObjectSchema?
    ensures r.description.None? && r.example.None?
    decreases t, 3
  {
    if ObjectInherits(t, reg) then CreateInheritedSchema(t, t.typeExpr.value, reg)
    else CreateSimpleObjectSchema(t, reg)
  }

  /** The declared names of a list of declarations. */
  function Names(ps: seq<TypeDecl>): set<string> {
    set p | p in ps :: p.name
  }

  /** Entries keyed, position by position, by the declarations' names have
      exactly those names as keys. */
  lemma KeysNamed<V>(m: OMap<V>, ps: seq<TypeDecl>)
    requires |m| == |ps| && forall i :: 0 <= i < |m| ==> m[i].0 == ps[i].name
    ensures Keys(m) == Names(ps)
  {
    forall n | n in Names(ps) ensures n in Keys(m) {
      var i :| 0 <= i < |ps| && ps[i].name == n;
      assert m[i].0 == n;
    }
  }

  /** The names of the properties whose `required` is `true`, in declaration
      order; a null `required` counts as not required. */
  function RequiredNames(ps: seq<TypeDecl>): (r: seq<string>)
    ensures |r| <= |ps|
    ensures forall n :: n in r <==> exists i :: 0 <= i < |ps| && ps[i].name == n && ps[i].required == Some(true)
  {
    if |ps| == 0 then []
    else
      var rest := RequiredNames(ps[1..]);
      assert forall i :: 0 < i < |ps| ==> ps[i] == ps[1..][i - 1];
      assert forall i :: 0 <= i < |ps| - 1 ==> ps[1..][i] == ps[i + 1];
      if ps[0].required == Some(true) then [ps[0].name] + rest else rest
  }

  /** One `(name, convertType(property))` entry per declared property. */
  function PlainEntries(t: TypeDecl, reg: set<string>): (r: OMap<Schema>)
    requires t.kind.ObjectKind?
    ensures |r| == |t.kind.properties|
    ensures forall i :: 0 <= i < |r| ==> r[i].0 == t.kind.properties[i].name
    decreases t, 0
  {
    var ps := t.kind.properties;
    seq(|ps|, i requires 0 <= i < |ps| => (ps[i].name, ConvertType(ps[i], reg)))
  }

  /** A property's schema with the property's own description and example
      (the example as its raw string) copied on. */
  function Describe(s: Schema, p: TypeDecl): (r: Schema)
    ensures r.body == s.body && r.title == s.title && r.extensions == s.extensions
    ensures r.description == if p.description.Some? then p.description else s.description
    ensures p.example.Some? ==> r.example == Some(VString(p.example.value))
    ensures p.example.None? ==> r.example == s.example
  {
    s.(description := if p.description.Some? then p.description else s.description,
       example := if p.example.Some? then Some(VString(p.example.value)) else s.example)
  }

  /** Entries for the own-properties schema: as `PlainEntries`, with descriptions and examples. */
  function DescribedEntries(t: TypeDecl, reg: set<string>): (r: OMap<Schema>)
    requires t.kind.ObjectKind?
    ensures |r| == |t.kind.properties|
    ensures forall i :: 0 <= i < |r| ==> r[i].0 == t.kind.properties[i].name
    ensures forall i :: 0 <= i < |r| ==> r[i].1 == Describe(ConvertType(t.kind.properties[i], reg), t.kind.properties[i])
    decreases t, 0
  {
    var ps := t.kind.properties;
    seq(|ps|, i requires 0 <= i < |ps| => (ps[i].name, Describe(ConvertType(ps[i], reg), ps[i])))
  }

  /** An object schema over the given entries: `properties` as a
      `LinkedHashMap` filled in order, `required` only when non-empty,
      `additionalProperties` true. */
  function ObjectOf(entries: OMap<Schema>, ps: seq<TypeDecl>): (r: SchemaBody)
    ensures r.ObjectSchema? && r.additionalProperties == Some(true)
    ensures Keys(r.properties) == Keys(entries)
    ensures r.required.Some? <==> |RequiredNames(ps)| > 0
    ensures r.required.Some? ==> r.required.value == RequiredNames(ps)
  {
    var req := RequiredNames(ps);
    ObjectSchema(PutAll([], entries), if |req| > 0 then Some(req) else None, Some(true))
  }

  /** `createSimpleObjectSchema`: titled with the type's name. */
  function CreateSimpleObjectSchema(t: TypeDecl, reg: set<string>): (r: Schema)
    requires t.kind.ObjectKind?
    ensures r.title == Some(t.name)
    ensures r.body.ObjectSchema? && r.body.additionalProperties == Some(true)
    ensures Keys(r.body.properties) == Names(t.kind.properties)
    ensures r.body.required.Some? <==> |RequiredNames(t.kind.properties)| > 0
    ensures r.description.None? && r.example.None?
    decreases t, 1
  {
    var entries := PlainEntries(t, reg);
    KeysOfEntries(entries, t.kind.properties);
    Bare(ObjectOf(entries, t.kind.properties)).(title := Some(t.name))
  }

  /** No declaration after the `i`-th repeats its name. */
  predicate LastOfName(ps: seq<TypeDecl>, i: nat)
    requires i < |ps|
  {
    forall j :: i < j < |ps| ==> ps[j].name != ps[i].name
  }

  /** `convertOwnPropertiesOnly` of the type converter: untitled, null-safe on `required`. */
  function ConvertOwnPropertiesOnly(t: TypeDecl, reg: set<string>): (r: Schema)
    requires t.kind.ObjectKind?
    ensures r.title.None?
    ensures r.body.ObjectSchema? && r.body.additionalProperties == Some(true)
    ensures Keys(r.body.properties) == Names(t.kind.properties)
    ensures |r.body.properties| > 0 <==> |t.kind.properties| > 0
    ensures r.body.required.Some? <==> |RequiredNames(t.kind.properties)| > 0
    ensures r.body.required.Some? ==> r.body.required.value == RequiredNames(t.kind.properties)
    ensures forall i :: 0 <= i < |t.kind.properties| && LastOfName(t.kind.properties, i) ==>
      Get(r.body.properties, t.kind.properties[i].name) ==
        Some(Describe(ConvertType(t.kind.properties[i], reg), t.kind.properties[i]))
    decreases t, 1
  {
    var entries := DescribedEntries(t, reg);
    KeysOfEntries(entries, t.kind.properties);
    PutAllFromEmptyNonEmpty(entries);
    forall i | 0 <= i < |t.kind.properties| && LastOfName(t.kind.properties, i)
      ensures Get(PutAll([], entries), entries[i].0) == Some(entries[i].1)
    {
      PutAllLands([], entries, i);
    }
    Bare(ObjectOf(entries, t.kind.properties))
  }

  /** `createInheritedSchema`: `allOf` of a `$ref` to the parent and, only
      when it has properties, the own-properties schema; the title on the
      outer node. */
  function CreateInheritedSchema(t: TypeDecl, parent: string, reg: set<string>): (r: Schema)
    requires t.kind.ObjectKind?
    ensures r.title == Some(t.name) && r.body.AllOf?
    ensures 1 <= |r.body.parts| <= 2 && r.body.parts[0] == Bare(Ref(parent))
    ensures |r.body.parts| == 2 <==> |t.kind.properties| > 0
    ensures |r.body.parts| == 2 ==> r.body.parts[1] == ConvertOwnPropertiesOnly(t, reg)
    ensures r.description.None? && r.example.None?
    decreases t, 2
  {
    var own := ConvertOwnPropertiesOnly(t, reg);
    var parts := [Bare(Ref(parent))] + (if |own.body.properties| > 0 then [own] else []);
    Bare(AllOf(parts)).(title := Some(t.name))
  }

  /** `convertUnionType`: `oneOf` with one converted entry per alternative. */
  function ConvertUnionType(t: TypeDecl, reg: set<string>): (r: Schema)
    requires t.kind.UnionKind?
    ensures r.body.OneOf? && |r.body.alternatives| == |t.kind.alternatives|
    ensures forall i :: 0 <= i < |t.kind.alternatives| ==>
      r.body.alternatives[i] == ConvertType(t.kind.alternatives[i], reg)
    ensures r.description.None? && r.example.None?
    decreases t, 3
  {
    var alts := t.kind.alternatives;
    Bare(OneOf(seq(|alts|, i requires 0 <= i < |alts| => ConvertType(alts[i], reg))))
  }

  /** `convertDateTimeType`: always `date-time`; a format other than
      `rfc3339` is kept in `x-raml-format`. */
  function ConvertDateTimeType(k: TypeKind): (r: Schema)
    requires k.DateTimeKind?
    ensures r.body.StringSchema? && r.body.format == Some("date-time")
    ensures Get(r.extensions, "x-raml-format").Some? <==> k.dateFormat.Some? && k.dateFormat.value != "rfc3339"
    ensures Get(r.extensions, "x-raml-format").Some? ==> Get(r.extensions, "x-raml-format") == Some(VString(k.dateFormat.value))
  {
    var ext := if k.dateFormat.Some? && k.dateFormat.value != "rfc3339"
      then Put([], "x-raml-format", VString(k.dateFormat.value)) else [];
    Bare(StringSchema(Some("date-time"), None, None, None, None)).(extensions := ext)
  }

  /** A declared file size narrowed by `intValue()`; absent stays absent. */
  function FileLength(n: Option<int>): (r: Option<int>)
    ensures r.Some? <==> n.Some?
    ensures r.Some? ==> INT_MIN <= r.value <= INT_MAX
  {
    if n.Some? then Some(WrapInt32(n.value)) else None
  }

  /** `convertFileType`: a binary string whose lengths are the declared
      sizes narrowed to 32 bits; non-empty file types go to `x-raml-fileTypes`. */
  function ConvertFileType(k: TypeKind): (r: Schema)
    requires k.FileKind?
    ensures r.body.StringSchema? && r.body.format == Some("binary")
    ensures r.body.pattern.None? && r.body.enumValues.None?
    ensures r.body.minLength.Some? <==> k.fileMinLength.Some?
    ensures r.body.minLength.Some? ==> r.body.minLength.value == WrapInt32(k.fileMinLength.value)
    ensures r.body.maxLength.Some? <==> k.fileMaxLength.Some?
    ensures r.body.maxLength.Some? ==> r.body.maxLength.value == WrapInt32(k.fileMaxLength.value)
    ensures Get(r.extensions, "x-raml-fileTypes").Some? <==> |k.fileTypes| > 0
    ensures |k.fileTypes| > 0 ==> Get(r.extensions, "x-raml-fileTypes") == Some(VList(k.fileTypes))
  {
    var ext := if |k.fileTypes| > 0 then Put([], "x-raml-fileTypes", VList(k.fileTypes)) else [];
    Bare(StringSchema(Some("binary"), None, FileLength(k.fileMinLength), FileLength(k.fileMaxLength), None)).(extensions := ext)
  }

  /** A size within 32 bits is kept; one beyond wraps: `2^32 + 5` becomes 5. */
  lemma FileLengthNarrowed(types: seq<string>, n: int)
    requires INT_MIN <= n <= INT_MAX
    ensures ConvertFileType(FileKind(types, Some(n), None)).body.minLength == Some(n)
    ensures ConvertFileType(FileKind(types, None, Some(0x1_0000_0005))).body.maxLength == Some(5)
  {
  }

  lemma KeysOfEntries(entries: OMap<Schema>, ps: seq<TypeDecl>)
    requires |entries| == |ps|
    requires forall i :: 0 <= i < |entries| ==> entries[i].0 == ps[i].name
    ensures Keys(PutAll([], entries)) == Names(ps)
  {
    assert Keys(PutAll([], entries)) == Keys(entries);
  }

  lemma PutAllFromEmptyNonEmpty<V>(entries: OMap<V>)
    ensures |PutAll([], entries)| > 0 <==> |entries| > 0
  {
    if |entries| > 0 {
      assert entries[0].0 in Keys(entries);
      assert entries[0].0 in Keys(PutAll([], entries));
    }
  }

  /** Every declaration of class "other" whose type name `isReference`
      accepts names a registered schema once "[]" is removed. */
  predicate RefsResolvable(t: TypeDecl, reg: set<string>)
    decreases t
  {
    (t.kind.OtherKind? && IsReference(t.typeExpr) ==> RemoveBracketPairs(t.typeExpr.value) in reg) &&
    match t.kind
    case ArrayKind(items, _, _, _) => items.Some? ==> RefsResolvable(items.value, reg)
    case ObjectKind(ps) => forall p | p in ps :: RefsResolvable(p, reg)
    case UnionKind(alts) => forall a | a in alts :: RefsResolvable(a, reg)
    case _ => true
  }

  /** Every `$ref` that `convertType` writes names a registered schema, as
      long as the named references of "other"-class declarations resolve:
      rules 1 and 2 and the inheritance branch consult the registry, and
      `createReference` is the only unchecked source. */
  lemma {:induction false} ConvertRefsResolvable(t: TypeDecl, reg: set<string>)
    requires RefsResolvable(t, reg)
    ensures AllRefsIn(ConvertType(t, reg), reg)
    decreases t, 3
  {
    var base := ArrayMarkerBase(t.typeExpr);
    if base.Some? && base.value in reg {
      var item := Bare(Ref(base.value));
      assert AllRefsIn(item, reg);
    } else if !(t.typeExpr.Some? && t.typeExpr.value in reg) {
      StructuralRefsResolvable(t, reg);
    }
  }

  lemma {:induction false} StructuralRefsResolvable(t: TypeDecl, reg: set<string>)
    requires RefsResolvable(t, reg)
    ensures AllRefsIn(ConvertStructural(t, reg), reg)
    decreases t, 2
  {
    match t.kind
    case ArrayKind(items, _, _, _) =>
      if items.Some? {
        ConvertRefsResolvable(items.value, reg);
      }
    case UnionKind(alts) =>
      var r := ConvertUnionType(t, reg);
      forall a | a in r.body.alternatives ensures AllRefsIn(a, reg) {
        var i :| 0 <= i < |r.body.alternatives| && r.body.alternatives[i] == a;
        assert alts[i] in alts;
        ConvertRefsResolvable(alts[i], reg);
      }
    case ObjectKind(ps) =>
      if ObjectInherits(t, reg) {
        InheritedRefsResolvable(t, reg);
      } else {
        var entries := PlainEntries(t, reg);
        forall e | e in entries ensures AllRefsIn(e.1, reg) {
          var i :| 0 <= i < |entries| && entries[i] == e;
          assert ps[i] in ps;
          ConvertRefsResolvable(ps[i], reg);
        }
        PutAllValues([], entries, (s: Schema) => AllRefsIn(s, reg));
        SimpleObjectProperties(t, reg);
      }
    case _ =>
  }

  lemma {:induction false} InheritedRefsResolvable(t: TypeDecl, reg: set<string>)
    requires t.kind.ObjectKind? && ObjectInherits(t, reg)
    requires RefsResolvable(t, reg)
    ensures AllRefsIn(ConvertStructural(t, reg), reg)
    decreases t, 1
  {
    var own := ConvertOwnPropertiesOnly(t, reg);
    OwnPropertiesResolvable(t, reg);
    var parent := Bare(Ref(t.typeExpr.value));
    assert AllRefsIn(parent, reg);
    var parts := [parent] + (if |own.body.properties| > 0 then [own] else []);
    assert forall p | p in parts :: AllRefsIn(p, reg);
    assert ConvertStructural(t, reg) == ConvertObjectType(t, reg) == CreateInheritedSchema(t, t.typeExpr.value, reg);
  }

  lemma {:induction false} OwnPropertiesResolvable(t: TypeDecl, reg: set<string>)
    requires t.kind.ObjectKind?
    requires RefsResolvable(t, reg)
    ensures AllRefsIn(ConvertOwnPropertiesOnly(t, reg), reg)
    decreases t, 0
  {
    var ps := t.kind.properties;
    var entries := DescribedEntries(t, reg);
    forall e | e in entries ensures AllRefsIn(e.1, reg) {
      var i :| 0 <= i < |entries| && entries[i] == e;
      assert ps[i] in ps;
      ConvertRefsResolvable(ps[i], reg);
    }
    PutAllValues([], entries, (s: Schema) => AllRefsIn(s, reg));
  }

  /** The inheritance branch of `convertObjectType` is never reached from
      `convertType`: it needs the type name to be registered, and then rule 2
      has already returned a bare `$ref`. So no `allOf` is ever produced. */
  lemma {:induction false} ConvertNeverComposes(t: TypeDecl, reg: set<string>)
    ensures NoAllOf(ConvertType(t, reg))
    decreases t, 1
  {
    var base := ArrayMarkerBase(t.typeExpr);
    if base.Some? && base.value in reg {
      var item := Bare(Ref(base.value));
      assert NoAllOf(item);
    } else if !(t.typeExpr.Some? && t.typeExpr.value in reg) {
      StructuralNeverComposes(t, reg);
    }
  }

  lemma {:induction false} StructuralNeverComposes(t: TypeDecl, reg: set<string>)
    requires !(t.typeExpr.Some? && t.typeExpr.value in reg)
    ensures NoAllOf(ConvertStructural(t, reg))
    decreases t, 0
  {
    match t.kind
    case ArrayKind(items, _, _, _) =>
      if items.Some? {
        ConvertNeverComposes(items.value, reg);
      }
    case UnionKind(alts) =>
      var r := ConvertUnionType(t, reg);
      forall a | a in r.body.alternatives ensures NoAllOf(a) {
        var i :| 0 <= i < |r.body.alternatives| && r.body.alternatives[i] == a;
        assert alts[i] in alts;
        ConvertNeverComposes(alts[i], reg);
      }
    case ObjectKind(ps) =>
      assert !ObjectInherits(t, reg);
      var entries := PlainEntries(t, reg);
      forall e | e in entries ensures NoAllOf(e.1) {
        var i :| 0 <= i < |entries| && entries[i] == e;
        assert ps[i] in ps;
        ConvertNeverComposes(ps[i], reg);
      }
      PutAllValues([], entries, (s: Schema) => NoAllOf(s));
      SimpleObjectProperties(t, reg);
    case _ =>
  }

  lemma SimpleObjectProperties(t: TypeDecl, reg: set<string>)
    requires t.kind.ObjectKind? && !ObjectInherits(t, reg)
    ensures ConvertStructural(t, reg).body == ObjectOf(PlainEntries(t, reg), t.kind.properties)
    ensures ConvertStructural(t, reg).body.properties == PutAll([], PlainEntries(t, reg))
  {
    assert ConvertStructural(t, reg) == ConvertObjectType(t, reg) == CreateSimpleObjectSchema(t, reg);
  }

  /** With distinct property names, a plain object's properties are exactly
      one entry per declared property, in declaration order. */
  lemma SimpleObjectKeepsOrder(t: TypeDecl, reg: set<string>)
    requires t.kind.ObjectKind?
    requires forall i, j :: 0 <= i < j < |t.kind.properties| ==> t.kind.properties[i].name != t.kind.properties[j].name
    ensures var props := CreateSimpleObjectSchema(t, reg).body.properties;
      |props| == |t.kind.properties| &&
      forall i :: 0 <= i < |props| ==>
        props[i] == (t.kind.properties[i].name, ConvertType(t.kind.properties[i], reg))
  {
    var entries := PlainEntries(t, reg);
    assert DistinctKeys(entries) by {
      forall i, j | 0 <= i < j < |entries| ensures entries[i].0 != entries[j].0 {
        assert entries[i].0 == t.kind.properties[i].name;
      }
    }
    PutAllFresh([], entries);
  }

  /** With distinct property names, the own-properties schema holds one
      entry per declared property, in declaration order: the converted type
      with the property's description and example copied on. */
  lemma OwnPropertiesKeepOrder(t: TypeDecl, reg: set<string>)
    requires t.kind.ObjectKind?
    requires forall i, j :: 0 <= i < j < |t.kind.properties| ==> t.kind.properties[i].name != t.kind.properties[j].name
    ensures var props := ConvertOwnPropertiesOnly(t, reg).body.properties;
      |props| == |t.kind.properties| &&
      forall i :: 0 <= i < |props| ==>
        props[i] == (t.kind.properties[i].name, Describe(ConvertType(t.kind.properties[i], reg), t.kind.properties[i]))
  {
    var entries := DescribedEntries(t, reg);
    assert DistinctKeys(entries) by {
      forall i, j | 0 <= i < j < |entries| ensures entries[i].0 != entries[j].0 {
        assert entries[i].0 == t.kind.properties[i].name;
      }
    }
    PutAllFresh([], entries);
  }
}
