/** The state shared by the mappers during one conversion: the strict flag,
    the registry of component-schema names, and a free-form property map
    (a Java `HashMap<String, Object>`, whose values may be null). The source
    object is mutable; here every mutator returns the next context. */
module MapperContext {
  import opened Wrappers
  import opened Values

  datatype Context = Context(
    strict: bool,
    schemaNames: set<string>,
    properties: map<string, Option<Value>>)

  /** `new MapperContext(doc, strict)`: nothing registered, no properties. */
  function NewContext(strict: bool): (c: Context)
    ensures c.strict == strict
    ensures forall n :: !HasSchema(c, n)
    ensures forall k :: !HasProperty(c, k)
  {
    Context(strict, {}, map[])
  }

  function IsStrict(c: Context): bool {
    c.strict
  }

  predicate HasSchema(c: Context, name: string) {
    name in c.schemaNames
  }

  /** `addSchemaName`: registers `name`; nothing else changes. */
  function AddSchemaName(c: Context, name: string): (r: Context)
    ensures HasSchema(r, name)
    ensures forall n :: HasSchema(r, n) <==> HasSchema(c, n) || n == name
    ensures r.strict == c.strict && r.properties == c.properties
  {
    c.(schemaNames := c.schemaNames + {name})
  }

  /** `getSchemaNames`: a copy of the registry. Values are immutable, so a
      caller changing its copy cannot reach the context. */
  function GetSchemaNames(c: Context): (r: set<string>)
    ensures forall n :: n in r <==> HasSchema(c, n)
  {
    c.schemaNames
  }

  predicate HasProperty(c: Context, key: string) {
    key in c.properties
  }

  /** `getProperty(key)`: the stored value, `None` for a missing key or a stored null. */
  function GetProperty(c: Context, key: string): (r: Option<Value>)
    ensures !HasProperty(c, key) ==> r.None?
  {
    if key in c.properties then c.properties[key] else None
  }

  /** `getProperty(key, default)`. */
  function GetPropertyOr(c: Context, key: string, default: Value): (r: Value)
    ensures GetProperty(c, key).None? ==> r == default
    ensures GetProperty(c, key).Some? ==> r == GetProperty(c, key).value
  {
    GetProperty(c, key).GetOr(default)
  }

  function SetProperty(c: Context, key: string, value: Option<Value>): (r: Context)
    ensures HasProperty(r, key) && GetProperty(r, key) == value
    ensures forall k :: k != key ==> HasProperty(r, k) == HasProperty(c, k) && GetProperty(r, k) == GetProperty(c, k)
    ensures r.strict == c.strict && r.schemaNames == c.schemaNames
  {
    c.(properties := c.properties[key := value])
  }

  function RemoveProperty(c: Context, key: string): (r: Context)
    ensures !HasProperty(r, key)
    ensures forall k :: k != key ==> HasProperty(r, k) == HasProperty(c, k) && GetProperty(r, k) == GetProperty(c, k)
    ensures r.strict == c.strict && r.schemaNames == c.schemaNames
  {
    c.(properties := c.properties - {key})
  }

  function ClearProperties(c: Context): (r: Context)
    ensures forall k :: !HasProperty(r, k) && GetProperty(r, k).None?
    ensures r.strict == c.strict && r.schemaNames == c.schemaNames
  {
    c.(properties := map[])
  }

  /** Every public mutator of the context. */
  datatype ContextOp =
    | SetProp(key: string, value: Option<Value>)
    | RemoveProp(key: string)
    | ClearProps
    | AddName(name: string)

  function Apply(c: Context, op: ContextOp): Context {
    match op
    case SetProp(k, v) => SetProperty(c, k, v)
    case RemoveProp(k) => RemoveProperty(c, k)
    case ClearProps => ClearProperties(c)
    case AddName(n) => AddSchemaName(c, n)
  }

  function ApplyAll(c: Context, ops: seq<ContextOp>): Context
    decreases |ops|
  {
    if |ops| == 0 then c else ApplyAll(Apply(c, ops[0]), ops[1..])
  }

  /** The registry only grows and the strict flag never changes, whatever
      sequence of operations runs: once `hasSchema(n)` holds it holds for the
      rest of the conversion. */
  lemma {:induction false} RegistryGrowsOnly(c: Context, ops: seq<ContextOp>)
    ensures ApplyAll(c, ops).strict == c.strict
    ensures c.schemaNames <= ApplyAll(c, ops).schemaNames
    ensures forall i :: 0 <= i < |ops| && ops[i].AddName? ==> HasSchema(ApplyAll(c, ops), ops[i].name)
    decreases |ops|
  {
    if |ops| > 0 {
      var c' := Apply(c, ops[0]);
      RegistryGrowsOnly(c', ops[1..]);
      forall i | 0 <= i < |ops| && ops[i].AddName?
        ensures HasSchema(ApplyAll(c, ops), ops[i].name)
      {
        if i > 0 {
          assert ops[1..][i - 1] == ops[i];
        }
      }
    }
  }

  /** The registry is exactly what was registered: it changes only through
      `addSchemaName`. */
  lemma {:induction false} RegistryIsRegisteredNames(c: Context, ops: seq<ContextOp>, n: string)
    ensures HasSchema(ApplyAll(c, ops), n) <==>
      HasSchema(c, n) || exists i :: 0 <= i < |ops| && ops[i] == AddName(n)
    decreases |ops|
  {
    if |ops| > 0 {
      var c' := Apply(c, ops[0]);
      RegistryIsRegisteredNames(c', ops[1..], n);
      if exists i :: 0 <= i < |ops[1..]| && ops[1..][i] == AddName(n) {
        var i :| 0 <= i < |ops[1..]| && ops[1..][i] == AddName(n);
        assert ops[i + 1] == AddName(n);
      }
      if exists i :: 0 <= i < |ops| && ops[i] == AddName(n) {
        var i :| 0 <= i < |ops| && ops[i] == AddName(n);
        if i > 0 {
          assert ops[1..][i - 1] == AddName(n);
        }
      }
    }
  }
}
