/**
 What a generated EIP-712 schema means: it is closed, it describes every message field by field, and
 outside of `Tx` it only ever adds definitions.
 */
module SchemaMeaning {
  import opened Text
  import opened Json
  import opened Schema
  import opened SchemaLaws

  // ---------- Closed schemas ----------

  const PRIMITIVES := {"bool", "int64", "string", "uint256"}

  predicate Known(m: TypeMap, t: string) {
    t in PRIMITIVES || t in m
  }

  /** A reference, possibly to an array of a type. */
  predicate Resolves(m: TypeMap, t: string) {
    Known(m, t) || (|t| >= 2 && t[|t| - 2..] == "[]" && Known(m, t[..|t| - 2]))
  }

  ghost predicate AllResolve(m: TypeMap, defs: seq<TypeField>) {
    forall f :: f in defs ==> Resolves(m, f.typ)
  }

  /** Every type that a definition refers to is primitive or defined. */
  ghost predicate Closed(m: TypeMap) {
    forall k :: k in m ==> AllResolve(m, m[k])
  }

  lemma SuffixedResolves(m: TypeMap, base: string, v: Json)
    requires Known(m, base)
    ensures Resolves(m, Suffixed(base, v))
  {
    if v.Arr? {
      var t := Suffixed(base, v);
      assert t[|t| - 2..] == "[]" && t[..|t| - 2] == base;
    } else {
      assert Suffixed(base, v) == base;
    }
  }

  lemma BaseTypesClosed()
    ensures Closed(BASE_TYPES)
  {
    assert "Coin[]"[..4] == "Coin" && "Coin[]"[4..] == "[]";
  }

  lemma ProbeClosed(m: TypeMap, typeDef: string, types: seq<TypeField>)
    requires IsTypeName(typeDef) && Closed(m) && AllResolve(m, types)
    ensures var r := Probe(m, typeDef, types, 0); r.Built? ==> Closed(r.types)
  {
    ProbeAdds(m, typeDef, types, 0);
    var r := Probe(m, typeDef, types, 0);
    if r.Built? {
      forall k | k in r.types ensures AllResolve(r.types, r.types[k]) {
        assert k in m || r.types[k] == types;
      }
    }
  }

  /** Adding a message to a closed map leaves it closed, even where names collide. */
  lemma {:induction false} BuildClosed(n: Naming, m: TypeMap, prefix: string, j: Json)
    requires n.Valid() && Rooted(prefix) && SafePrefix(prefix) && SafeKeys(j) && j.Obj? && Closed(m)
    ensures var r := Build(n, m, prefix, j); r.Built? ==> Closed(r.types)
    decreases j, 2
  {
    BuildFieldsClosed(n, m, prefix, j, SortedKeys(j));
    var fs := BuildFields(n, m, prefix, j, SortedKeys(j));
    if fs.FieldsBuilt? {
      TypeDefName(n, prefix);
      ProbeClosed(fs.types, n.TypeDef(prefix), fs.defs);
    }
  }

  lemma {:induction false} BuildFieldsClosed(n: Naming, m: TypeMap, prefix: string, j: Json, keys: seq<string>)
    requires n.Valid() && Rooted(prefix) && SafePrefix(prefix) && SafeKeys(j) && Closed(m)
    ensures var r := BuildFields(n, m, prefix, j, keys);
            r.FieldsBuilt? ==> Closed(r.types) && AllResolve(r.types, r.defs)
    decreases j, 1, |keys|
  {
    if keys != [] {
      BuildFieldClosed(n, m, prefix, j, keys[0]);
      var f := BuildField(n, m, prefix, j, keys[0]);
      if !f.FieldFails? {
        var next := if f.Typed? then f.types else m;
        BuildFieldsClosed(n, next, prefix, j, keys[1..]);
        BuildFieldsExtends(n, next, prefix, j, keys[1..]);
      }
    }
  }

  lemma {:induction false} BuildFieldClosed(n: Naming, m: TypeMap, prefix: string, j: Json, key: string)
    requires n.Valid() && Rooted(prefix) && SafePrefix(prefix) && SafeKeys(j) && Closed(m)
    ensures var r := BuildField(n, m, prefix, j, key); r.Typed? ==> Closed(r.types) && Resolves(r.types, r.typ)
    decreases j, 0
  {
    var v := Get(j, key);
    if v.Present? {
      SafeValue(j, key);
      var e := Element(v.value);
      if EthType(e) != "" {
        SuffixedResolves(m, EthType(e), v.value);
      } else if e.Obj? {
        var sub := SubPrefix(prefix, key);
        SubPrefixRooted(prefix, key);
        BuildClosed(n, m, sub, e);
        NestedKey(n, m, prefix, key, e);
        var r := Build(n, m, sub, e);
        if r.Built? {
          SuffixedResolves(r.types, r.key, v.value);
        }
      } else {
        assert "string[]"[..6] == "string" && "string[]"[6..] == "[]";
      }
    }
  }

  lemma SafeValue(j: Json, key: string)
    requires SafeKeys(j) && Get(j, key).Present?
    ensures PathSafe(key) && SafeKeys(Element(Get(j, key).value))
  {
    assert Field(key, Get(j, key).value) in j.fields;
  }

  /** The key of a nested type survives being sanitized a second time. */
  lemma NestedKey(n: Naming, m: TypeMap, prefix: string, key: string, e: Json)
    requires n.Valid() && Rooted(prefix) && SafePrefix(prefix) && PathSafe(key) && e.Obj?
    ensures var r := Build(n, m, SubPrefix(prefix, key), e);
            r.Built? ==> r.key in r.types && Sanitized(n.title, r.key) == r.key
  {
    var sub := SubPrefix(prefix, key);
    SubPrefixRooted(prefix, key);
    assert |sub| > 1;
    BuildExtends(n, m, sub, e);
    var r := Build(n, m, sub, e);
    if r.Built? {
      SanitizedFixed(n.title, r.key);
    }
  }

  // ---------- Schemas describe messages ----------

  /** Fields that get a type: all but nulls, nested arrays and arrays of nulls. */
  predicate HasType(j: Json, key: string) {
    match Get(j, key)
    case Missing => false
    case Present(Null) => false
    case Present(Arr(items)) => items == [] || !(items[0].Null? || items[0].Arr?)
    case Present(_) => true
  }

  /** The definition at `key` lists the typed fields of `j` in descending order, each with its own type. */
  ghost predicate Describes(m: TypeMap, key: string, j: Json)
    decreases j, 2
  {
    j.Obj? && key in m && IsTypeName(key) && FieldsDescribed(m, m[key], j, SortedKeys(j))
  }

  ghost predicate FieldsDescribed(m: TypeMap, defs: seq<TypeField>, j: Json, keys: seq<string>)
    decreases j, 1, |keys|
  {
    if keys == [] then defs == []
    else if !HasType(j, keys[0]) then FieldsDescribed(m, defs, j, keys[1..])
    else
      && defs != [] && defs[0].name == keys[0]
      && ValueDescribed(m, defs[0].typ, j, keys[0])
      && FieldsDescribed(m, defs[1..], j, keys[1..])
  }

  /** An array type, of which `base` is the element type. */
  predicate ArrayOf(typ: string, base: string) {
    typ == base + "[]"
  }

  /** A value has the type of its kind; an array, that of its first element; an empty one counts as strings. */
  ghost predicate ValueDescribed(m: TypeMap, typ: string, j: Json, key: string)
    requires Get(j, key).Present?
    decreases j, 0
  {
    match Get(j, key).value
    case Null => false
    case Bool(_) => typ == "bool"
    case Num(_) => typ == "int64"
    case Str(_) => typ == "string"
    case Obj(_) => Describes(m, typ, Get(j, key).value)
    case Arr(items) =>
      if items == [] then typ == "string[]"
      else
        match items[0]
        case Null => false
        case Bool(_) => typ == "bool[]"
        case Num(_) => typ == "int64[]"
        case Str(_) => typ == "string[]"
        case Arr(_) => false
        case Obj(_) => |typ| >= 2 && ArrayOf(typ, typ[..|typ| - 2]) && Describes(m, typ[..|typ| - 2], items[0])
  }

  /** A description stays right in every map that carries the definitions. */
  lemma {:induction false} DescribesCarried(m: TypeMap, big: TypeMap, key: string, j: Json)
    requires Describes(m, key, j) && Carries(m, big)
    ensures Describes(big, key, j)
    decreases j, 2
  {
    FieldsCarried(m, big, m[key], j, SortedKeys(j));
  }

  lemma {:induction false} FieldsCarried(m: TypeMap, big: TypeMap, defs: seq<TypeField>, j: Json, keys: seq<string>)
    requires FieldsDescribed(m, defs, j, keys) && Carries(m, big)
    ensures FieldsDescribed(big, defs, j, keys)
    decreases j, 1, |keys|
  {
    if keys != [] {
      if HasType(j, keys[0]) {
        ValueCarried(m, big, defs[0].typ, j, keys[0]);
        FieldsCarried(m, big, defs[1..], j, keys[1..]);
      } else {
        FieldsCarried(m, big, defs, j, keys[1..]);
      }
    }
  }

  lemma {:induction false} ValueCarried(m: TypeMap, big: TypeMap, typ: string, j: Json, key: string)
    requires HasType(j, key) && ValueDescribed(m, typ, j, key) && Carries(m, big)
    ensures ValueDescribed(big, typ, j, key)
    decreases j, 0
  {
    var v := Get(j, key).value;
    if v.Obj? {
      DescribesCarried(m, big, typ, v);
    } else if v.Arr? && v.items != [] && v.items[0].Obj? {
      DescribesCarried(m, big, typ[..|typ| - 2], v.items[0]);
    }
  }

  /** The key that building returns describes the message. */
  lemma {:induction false} BuildDescribes(n: Naming, m: TypeMap, prefix: string, j: Json)
    requires n.Valid() && Rooted(prefix) && SafePrefix(prefix) && SafeKeys(j) && j.Obj?
    ensures var r := Build(n, m, prefix, j); r.Built? ==> Describes(r.types, r.key, j)
    decreases j, 2
  {
    var fs := BuildFields(n, m, prefix, j, SortedKeys(j));
    if fs.FieldsBuilt? {
      BuildFieldsDescribe(n, m, prefix, j, SortedKeys(j));
      TypeDefName(n, prefix);
      ProbeAdds(fs.types, n.TypeDef(prefix), fs.defs, 0);
      var r := Build(n, m, prefix, j);
      if r.Built? {
        FieldsCarried(fs.types, r.types, fs.defs, j, SortedKeys(j));
      }
    }
  }

  lemma {:induction false} BuildFieldsDescribe(n: Naming, m: TypeMap, prefix: string, j: Json, keys: seq<string>)
    requires n.Valid() && Rooted(prefix) && SafePrefix(prefix) && SafeKeys(j)
    ensures var r := BuildFields(n, m, prefix, j, keys); r.FieldsBuilt? ==> FieldsDescribed(r.types, r.defs, j, keys)
    decreases j, 1, |keys|
  {
    var r := BuildFields(n, m, prefix, j, keys);
    if keys != [] && r.FieldsBuilt? {
      var f := BuildField(n, m, prefix, j, keys[0]);
      BuildFieldDescribes(n, m, prefix, j, keys[0]);
      var next := if f.Typed? then f.types else m;
      BuildFieldsDescribe(n, next, prefix, j, keys[1..]);
      if f.Typed? {
        BuildFieldsExtends(n, next, prefix, j, keys[1..]);
        ValueCarried(f.types, r.types, f.typ, j, keys[0]);
        assert r.defs[1..] == BuildFields(n, next, prefix, j, keys[1..]).defs;
      }
    }
  }

  lemma {:induction false} BuildFieldDescribes(n: Naming, m: TypeMap, prefix: string, j: Json, key: string)
    requires n.Valid() && Rooted(prefix) && SafePrefix(prefix) && SafeKeys(j)
    ensures var r := BuildField(n, m, prefix, j, key);
      && (r.Untyped? ==> !HasType(j, key))
      && (r.Typed? ==> HasType(j, key) && ValueDescribed(r.types, r.typ, j, key))
    decreases j, 0
  {
    var v := Get(j, key);
    if v.Present? {
      SafeValue(j, key);
      var e := Element(v.value);
      if EthType(e) == "" && e.Obj? {
        SubPrefixRooted(prefix, key);
        BuildDescribes(n, m, SubPrefix(prefix, key), e);
        NestedKey(n, m, prefix, key, e);
        var r := Build(n, m, SubPrefix(prefix, key), e);
        if r.Built? {
          SuffixedIs(r.key, v.value);
        }
      }
    }
  }

  lemma SuffixedIs(base: string, v: Json)
    ensures var typ := Suffixed(base, v);
      if v.Arr? then |typ| >= 2 && ArrayOf(typ, typ[..|typ| - 2]) && typ[..|typ| - 2] == base else typ == base
  {
  }

  // ---------- Whole payloads ----------

  /** Everything but the transaction type itself is kept. */
  ghost predicate ExtendsButTx(m: TypeMap, m': TypeMap) {
    "Tx" in m' && forall k :: k in m && k != "Tx" ==> k in m' && m'[k] == m[k]
  }

  lemma ButTxCarries(m: TypeMap, m': TypeMap)
    requires ExtendsButTx(m, m')
    ensures Carries(m, m')
  {
    assert !IsTypeName("Tx");
  }

  /** A map to which messages were added one after the other. */
  ghost predicate Good(m: TypeMap) {
    Closed(m) && "Tx" in m
  }

  lemma WithTxClosed(m: TypeMap, entry: TypeField)
    requires Good(m) && entry.typ in m
    ensures Good(WithTx(m, entry))
  {
    var m' := WithTx(m, entry);
    assert m'.Keys == m.Keys;
    forall k | k in m' ensures AllResolve(m', m'[k]) {
      if k == "Tx" {
        assert AllResolve(m, m["Tx"]);
      } else {
        assert AllResolve(m, m[k]);
      }
    }
  }

  /** `m'` is `m` with one more entry in `Tx`, which describes the message, and with more definitions. */
  ghost predicate OneMore(m: TypeMap, m': TypeMap, field: string, msg: Found)
    requires "Tx" in m
  {
    && Good(m') && ExtendsButTx(m, m') && msg.Present?
    && |m'["Tx"]| == |m["Tx"]| + 1 && m["Tx"] <= m'["Tx"]
    && m'["Tx"][|m["Tx"]|].name == field
    && Describes(m', m'["Tx"][|m["Tx"]|].typ, msg.value)
  }

  /** One message: a new entry in `Tx` that describes it, new definitions, and nothing else. */
  lemma AddMsgMeaning(title: string -> string, m: TypeMap, field: string, msg: Found)
    requires TitleCaser(title) && Good(m) && (msg.Present? ==> SafeKeys(msg.value))
    ensures var r := AddMsg(title, m, field, msg); r.Types? ==> OneMore(m, r.types, field, msg)
  {
    var r := AddMsg(title, m, field, msg);
    if r.Types? {
      RootIsRooted();
      var n := Naming(title, RootType(msg.value));
      var b := Build(n, m, "_", msg.value);
      BuildExtends(n, m, "_", msg.value);
      BuildClosed(n, m, "_", msg.value);
      BuildDescribes(n, m, "_", msg.value);
      WithTxClosed(b.types, TypeField(field, b.key));
      assert ExtendsButTx(b.types, r.types);
      ButTxCarries(b.types, r.types);
      DescribesCarried(b.types, r.types, b.key, msg.value);
    }
  }

  /** The entry of message `i` in `Tx`, after the fields that every transaction has. */
  ghost predicate EntryDescribes(m: TypeMap, payload: Json, base: nat, i: nat)
    requires "Tx" in m
  {
    var msg := Get(payload, "msg" + Decimal(i));
    && base + i < |m["Tx"]| && m["Tx"][base + i].name == "msg" + Decimal(i)
    && msg.Present? && Describes(m, m["Tx"][base + i].typ, msg.value)
  }

  /** The schema of the first `count` messages of a payload, grown from `start`. */
  ghost predicate SchemaOf(m: TypeMap, start: TypeMap, payload: Json, count: nat) {
    && Good(m) && "Tx" in start && ExtendsButTx(start, m)
    && start["Tx"] <= m["Tx"] && |m["Tx"]| == |start["Tx"]| + count
    && forall i :: 0 <= i < count ==> EntryDescribes(m, payload, |start["Tx"]|, i)
  }

  lemma EntryCarried(m: TypeMap, big: TypeMap, payload: Json, base: nat, i: nat)
    requires "Tx" in m && "Tx" in big && m["Tx"] <= big["Tx"] && Carries(m, big)
    requires EntryDescribes(m, payload, base, i)
    ensures EntryDescribes(big, payload, base, i)
  {
    DescribesCarried(m, big, m["Tx"][base + i].typ, Get(payload, MsgField(i)).value);
  }

  lemma SchemaOfNext(m: TypeMap, m': TypeMap, start: TypeMap, payload: Json, count: nat)
    requires SchemaOf(m, start, payload, count) && OneMore(m, m', MsgField(count), Get(payload, MsgField(count)))
    ensures SchemaOf(m', start, payload, count + 1)
  {
    ButTxCarries(m, m');
    forall i | 0 <= i < count ensures EntryDescribes(m', payload, |start["Tx"]|, i) {
      EntryCarried(m, m', payload, |start["Tx"]|, i);
    }
    assert EntryDescribes(m', payload, |start["Tx"]|, count);
  }

  /** What holds of the start and survives every message holds of the result. */
  lemma {:induction false} AddAllInvariant(add: Adder, start: TypeMap, payload: Json, count: nat,
                                           inv: (TypeMap, nat) -> bool)
    requires inv(start, 0)
    requires forall m, i: nat :: inv(m, i) ==>
      var r := add(m, MsgField(i), Get(payload, MsgField(i))); r.Types? ==> inv(r.types, i + 1)
    ensures var r := AddAll(add, start, payload, count); r.Types? ==> inv(r.types, count)
    decreases count
  {
    if count > 0 {
      AddAllInvariant(add, start, payload, count - 1, inv);
    }
  }

  /**
   The schema of a whole payload is closed, keeps the four built-in definitions except for the entries
   appended to `Tx`, and has one entry per message, which describes that message.
   */
  lemma CreateMeaning(title: string -> string, payload: Json, count: nat)
    requires TitleCaser(title) && SafeKeys(payload)
    ensures var r := Create(title, payload, count); r.Types? ==> SchemaOf(r.types, BASE_TYPES, payload, count)
  {
    BaseTypesClosed();
    AddAllMeaning(title, BASE_TYPES, payload, count);
  }

  lemma AddAllMeaning(title: string -> string, start: TypeMap, payload: Json, count: nat)
    requires TitleCaser(title) && SafeKeys(payload) && Good(start)
    ensures var r := AddAll(MsgAdder(title), start, payload, count);
            r.Types? ==> SchemaOf(r.types, start, payload, count)
  {
    var inv := (m: TypeMap, i: nat) => SchemaOf(m, start, payload, i);
    forall m, i: nat | inv(m, i)
      ensures var r := MsgAdder(title)(m, MsgField(i), Get(payload, MsgField(i))); r.Types? ==> inv(r.types, i + 1)
    {
      SchemaOfMore(title, m, start, payload, i);
    }
    AddAllInvariant(MsgAdder(title), start, payload, count, inv);
  }

  lemma SchemaOfMore(title: string -> string, m: TypeMap, start: TypeMap, payload: Json, i: nat)
    requires TitleCaser(title) && SafeKeys(payload) && SchemaOf(m, start, payload, i)
    ensures var r := AddMsg(title, m, MsgField(i), Get(payload, MsgField(i)));
            r.Types? ==> SchemaOf(r.types, start, payload, i + 1)
  {
    var msg := Get(payload, MsgField(i));
    assert msg.Present? ==> Field(MsgField(i), msg.value) in payload.fields;
    AddMsgMeaning(title, m, MsgField(i), msg);
    var r := AddMsg(title, m, MsgField(i), msg);
    if r.Types? {
      SchemaOfNext(m, r.types, start, payload, i);
    }
  }

  lemma {:induction false} AddAllSame(add: Adder, start: TypeMap, a: Json, b: Json, count: nat)
    requires forall m, f :: add(m, f, Get(a, f)) == add(m, f, Get(b, f))
    ensures AddAll(add, start, a, count) == AddAll(add, start, b, count)
    decreases count
  {
    if count > 0 {
      AddAllSame(add, start, a, b, count - 1);
    }
  }

  /** Reordering object keys anywhere in the payload leaves the schema the same. */
  lemma CreateOrderFree(title: string -> string, a: Json, b: Json, count: nat)
    requires a.Obj? && Same(a, b)
    ensures Create(title, a, count) == Create(title, b, count)
  {
    forall m, f ensures MsgAdder(title)(m, f, Get(a, f)) == MsgAdder(title)(m, f, Get(b, f)) {
      AddMsgAtOrderFree(title, m, f, a, b);
    }
    AddAllSame(MsgAdder(title), BASE_TYPES, a, b, count);
  }

  lemma AddMsgAtOrderFree(title: string -> string, m: TypeMap, field: string, a: Json, b: Json)
    requires a.Obj? && Same(a, b)
    ensures AddMsg(title, m, field, Get(a, field)) == AddMsg(title, m, field, Get(b, field))
  {
    if field in Keys(a.fields) {
      assert SameAt(a, b, field);
      AddMsgOrderFree(title, m, field, Get(a, field).value, Get(b, field).value);
    }
  }

  lemma AddMsgOrderFree(title: string -> string, m: TypeMap, field: string, a: Json, b: Json)
    requires Same(a, b)
    ensures AddMsg(title, m, field, Present(a)) == AddMsg(title, m, field, Present(b))
  {
    SamePrimitive(a, b);
    if a.Obj? {
      RootTypeOrderFree(a, b);
      BuildOrderFree(Naming(title, RootType(a)), m, "_", a, b);
    }
  }

  lemma SameString(a: Json, b: Json)
    requires Same(a, b)
    ensures a.Str? == b.Str? && (a.Str? ==> a == b)
  {
  }

  lemma RootTypeOrderFree(a: Json, b: Json)
    requires a.Obj? && Same(a, b)
    ensures RootType(a) == RootType(b)
  {
    if "type" in Keys(a.fields) {
      assert SameAt(a, b, "type");
      SameString(Get(a, "type").value, Get(b, "type").value);
    }
  }

  lemma TxCarries(m: TypeMap, entry: TypeField, big: TypeMap)
    requires Carries(WithTx(m, entry), big)
    ensures Carries(m, big)
  {
    assert !IsTypeName("Tx");
  }

  /** Repeating a message, right away or after others, appends its entry to `Tx` and changes nothing else. */
  lemma RepeatedMessage(title: string -> string, m: TypeMap, big: TypeMap, field: string, again: string, msg: Json)
    requires TitleCaser(title) && msg.Obj? && AddMsg(title, m, field, Present(msg)).Types?
    requires Carries(AddMsg(title, m, field, Present(msg)).types, big)
    ensures var b := Build(Naming(title, RootType(msg)), m, "_", msg);
      && b.Built?
      && AddMsg(title, m, field, Present(msg)) == Types(WithTx(b.types, TypeField(field, b.key)))
      && AddMsg(title, big, again, Present(msg)) == Types(WithTx(big, TypeField(again, b.key)))
  {
    RootIsRooted();
    var n := Naming(title, RootType(msg));
    var b := Build(n, m, "_", msg);
    TxCarries(b.types, TypeField(field, b.key), big);
    BuildStable(n, m, big, "_", msg);
  }
}
