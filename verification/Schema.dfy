/**
 The EIP-712 schema builder (ethereum/eip712/types.go) as functions: which type definitions a JSON
 message adds to a type map, and under which keys.

 The title caser of golang.org/x/text is a parameter, of which only `TitleCaser` is used.
 */
module Schema {
  import opened Text
  import opened Json

  datatype TypeField = TypeField(name: string, typ: string)
  type TypeMap = map<string, seq<TypeField>>

  /** A failure, too, leaves definitions behind: those of the fields that came before it. */
  datatype Built = Built(types: TypeMap, key: string) | TooManyDuplicates(types: TypeMap)

  const MAX_DUPLICATES: nat := 1000

  // ---------- Names ----------

  /** Word by word, `cases.Title` keeps letters and digits, and leaves a capitalised word alone. */
  ghost predicate TitleCaser(title: string -> string) {
    && (forall s :: AllAlnum(s) ==> AllAlnum(title(s)))
    && (forall s :: AllAlnum(s) && IsTypeName(s) ==> title(s) == s)
  }

  predicate IsTypeName(s: string) {
    |s| >= 4 && s[..4] == "Type"
  }

  function Titled(title: string -> string, words: seq<string>): string {
    if words == [] then "" else title(words[0]) + Titled(title, words[1..])
  }

  function SanitizedParts(title: string -> string, parts: seq<string>): string {
    if parts == [] then ""
    else (if parts[0] == "_" then "Type" else Titled(title, Split(parts[0], '_'))) + SanitizedParts(title, parts[1..])
  }

  /** `sanitizeTypedef`: `_.foo_bar.baz` becomes `TypeFooBarBaz`. */
  function Sanitized(title: string -> string, s: string): string {
    SanitizedParts(title, Split(s, '.'))
  }

  /** The naming rules of one message: its root type, and how prefixes turn into type names. */
  datatype Naming = Naming(title: string -> string, rootType: string) {
    function TypeDef(prefix: string): string {
      if prefix == "_" then rootType else Sanitized(title, prefix)
    }

    ghost predicate Valid() {
      TitleCaser(title) && IsTypeName(rootType)
    }
  }

  function SubPrefix(prefix: string, fieldName: string): string {
    prefix + "." + fieldName
  }

  function Indexed(typeDef: string, index: nat): string {
    typeDef + Decimal(index)
  }

  // ---------- Adding one definition ----------

  /** `addTypesToRoot` from the duplicate index `i` on. */
  function Probe(m: TypeMap, typeDef: string, types: seq<TypeField>, i: nat): Built
    requires i < MAX_DUPLICATES
    decreases MAX_DUPLICATES - i
  {
    var key := Indexed(typeDef, i);
    if key in m && m[key] == types then Built(m, key)
    else if key !in m then Built(m[key := types], key)
    else if i + 1 == MAX_DUPLICATES then TooManyDuplicates(m)
    else Probe(m, typeDef, types, i + 1)
  }

  // ---------- Walking a message ----------

  /** The EIP-712 type of a JSON primitive; empty for everything else. */
  function EthType(j: Json): string {
    match j
    case Bool(_) => "bool"
    case Num(_) => "int64"
    case Str(_) => "string"
    case _ => ""
  }

  /** An array stands for its first element. */
  function Element(j: Json): (e: Json)
    ensures e == j || e < j
  {
    if j.Arr? && j.items != [] then j.items[0] else j
  }

  function Suffix(j: Json): string {
    if j.Arr? then "[]" else ""
  }

  /** The type of a field whose element has the type `base`. */
  function Suffixed(base: string, j: Json): string {
    base + Suffix(j)
  }

  datatype FieldBuilt = Typed(types: TypeMap, typ: string) | Untyped | FieldFails(types: TypeMap)
  datatype FieldsBuilt = FieldsBuilt(types: TypeMap, defs: seq<TypeField>) | FieldsFail(types: TypeMap)

  /** `recursivelyAddTypesToRoot`: the map with all types of the object `j`, and the key of its own. */
  function Build(n: Naming, m: TypeMap, prefix: string, j: Json): Built
    requires j.Obj?
    decreases j, 2
  {
    match BuildFields(n, m, prefix, j, SortedKeys(j))
    case FieldsFail(m') => TooManyDuplicates(m')
    case FieldsBuilt(m', defs) => Probe(m', n.TypeDef(prefix), defs, 0)
  }

  function BuildFields(n: Naming, m: TypeMap, prefix: string, j: Json, keys: seq<string>): FieldsBuilt
    decreases j, 1, |keys|
  {
    if keys == [] then FieldsBuilt(m, [])
    else
      match BuildField(n, m, prefix, j, keys[0])
      case FieldFails(m') => FieldsFail(m')
      case Untyped => BuildFields(n, m, prefix, j, keys[1..])
      case Typed(m', typ) =>
        match BuildFields(n, m', prefix, j, keys[1..])
        case FieldsFail(m'') => FieldsFail(m'')
        case FieldsBuilt(m'', defs) => FieldsBuilt(m'', [TypeField(keys[0], typ)] + defs)
  }

  /** Null values, nested arrays and arrays of nulls get no type. */
  function BuildField(n: Naming, m: TypeMap, prefix: string, j: Json, key: string): FieldBuilt
    decreases j, 0
  {
    match Get(j, key)
    case Missing => Untyped
    case Present(v) =>
      if v.Arr? && v.items == [] then Typed(m, "string[]")
      else if EthType(Element(v)) != "" then Typed(m, Suffixed(EthType(Element(v)), v))
      else if Element(v).Obj? then
        match Build(n, m, SubPrefix(prefix, key), Element(v))
        case TooManyDuplicates(m') => FieldFails(m')
        case Built(m', k) => Typed(m', Suffixed(Sanitized(n.title, k), v))
      else Untyped
  }

  // ---------- Messages ----------

  datatype Outcome = Types(types: TypeMap) | Failed

  /** `msgRootType`: the last segment of the message's type string; empty if there is none. */
  function RootType(msg: Json): string {
    match Get(msg, "type")
    case Present(Str(s)) =>
      var parts := Split(s, '/');
      if s == "" then "" else "Type" + parts[|parts| - 1]
    case _ => ""
  }

  /** The message is an object and has a type. */
  predicate Named(msg: Found) {
    msg.Present? && msg.value.Obj? && RootType(msg.value) != ""
  }

  /** `addMsgTypesToRoot`. */
  function AddMsg(title: string -> string, m: TypeMap, field: string, msg: Found): Outcome {
    if !Named(msg) then Failed
    else
      match Build(Naming(title, RootType(msg.value)), m, "_", msg.value)
      case TooManyDuplicates(_) => Failed
      case Built(m', key) => Types(WithTx(m', TypeField(field, key)))
  }

  /** `addMsgTypeDefToTxSchema`. */
  function WithTx(m: TypeMap, entry: TypeField): TypeMap {
    m["Tx" := (if "Tx" in m then m["Tx"] else []) + [entry]]
  }

  function MsgField(i: nat): string {
    "msg" + Decimal(i)
  }

  const BASE_TX: seq<TypeField> := [
      TypeField("account_number", "string"), TypeField("chain_id", "string"), TypeField("fee", "Fee"),
      TypeField("memo", "string"), TypeField("sequence", "string")]

  const BASE_TYPES: TypeMap := map[
    "EIP712Domain" := [
      TypeField("name", "string"), TypeField("version", "string"), TypeField("chainId", "uint256"),
      TypeField("verifyingContract", "string"), TypeField("salt", "string")],
    "Tx" := BASE_TX,
    "Fee" := [TypeField("amount", "Coin[]"), TypeField("gas", "string")],
    "Coin" := [TypeField("denom", "string"), TypeField("amount", "string")]]

  /** A way to add one message to a type map. */
  type Adder = (TypeMap, string, Found) -> Outcome

  /** The types of the first `count` messages, added to `start` one after the other. */
  function AddAll(add: Adder, start: TypeMap, payload: Json, count: nat): Outcome {
    if count == 0 then Types(start)
    else
      match AddAll(add, start, payload, count - 1)
      case Failed => Failed
      case Types(m) => add(m, MsgField(count - 1), Get(payload, MsgField(count - 1)))
  }

  function MsgAdder(title: string -> string): Adder {
    (m, field, msg) => AddMsg(title, m, field, msg)
  }

  /** `createEIP712Types`. */
  function Create(title: string -> string, payload: Json, count: nat): Outcome {
    AddAll(MsgAdder(title), BASE_TYPES, payload, count)
  }
}
