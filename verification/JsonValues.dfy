/** JSON values as Python holds them after parsing, and Python's equality on them. */
module JsonValues {

  /** Object keys: the ones the registry code names, and every other one. */
  datatype Key =
    | SchemaId | AcceptedSchemaVersions | CurrentSchemaVersion | SchemaEnforcement | AllowedSources | Defaults
    | SourceFormat | FieldMapping | DataPath | SymbolField | NameField | SourceField | IdentifierField | IdentifierType
    | Governance | UniverseSymbolLimit | FullMarket | Enabled | Required | CalendarMarket | StagingPilot | Version
    | Provider | Instruments | DeliveryExpectation | MissingDelivery | SourceOverrides | Finlab | Baseline | RecordCount
    | MinimumRecordCount | Schedule | Action | ExpectedSources | DeliveryMode | LocalTime | DeadlineLocalTime
    | Other(name: string)

  type Mapping = map<Key, Json>

  datatype Json =
    | Null
    | Bool(b: bool)
    | Int(n: int)
    | Float(r: real)
    | Str(s: string)
    | Arr(items: seq<Json>)
    | Obj(m: Mapping)

  /** Reading an entry: null where the key is absent. */
  function Get(m: Mapping, key: Key): Json {
    if key in m then m[key] else Null
  }

  /** A common form for values that Python calls equal: true is 1, and 1 is 1.0. */
  function Canonical(j: Json): Json
    decreases j
  {
    match j
    case Null => Null
    case Bool(b) => Float(if b then 1.0 else 0.0)
    case Int(n) => Float(n as real)
    case Float(r) => Float(r)
    case Str(s) => Str(s)
    case Arr(items) => Arr(seq(|items|, i requires 0 <= i < |items| => Canonical(items[i])))
    case Obj(m) => Obj(map key | key in m :: Canonical(m[key]))
  }

  predicate Same(a: Json, b: Json) { Canonical(a) == Canonical(b) }

  /** Objects that differ at a key are not the same. */
  lemma FieldDiffers(a: Mapping, b: Mapping, key: Key)
    requires key in a && (key in b ==> !Same(a[key], b[key]))
    ensures !Same(Obj(a), Obj(b))
  {
    assert key in Canonical(Obj(a)).m && Canonical(Obj(a)).m[key] == Canonical(a[key]);
    assert key in Canonical(Obj(b)).m <==> key in b;
    if key in b {
      assert Canonical(Obj(b)).m[key] == Canonical(b[key]);
    }
  }

  /** The value that a path of keys leads to. */
  ghost predicate Leads(j: Json, path: seq<Key>, value: Json) {
    if path == [] then j == value
    else j.Obj? && path[0] in j.m && Leads(j.m[path[0]], path[1..], value)
  }
}
