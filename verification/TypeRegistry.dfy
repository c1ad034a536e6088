/** The shared type map of ethereum/eip712/types.go, and the loops that fill it. */
module TypeRegistry {
  import opened Json
  import opened Schema
  import opened SchemaLaws

  datatype KeyResult = Key(key: string) | NoKey

  class Registry {
    var types: TypeMap

    constructor ()
      ensures types == BASE_TYPES
    {
      types := BASE_TYPES;
    }

    /** Inserts the definition at the next free index, unless an equal one comes first. */
    method AddTypesToRoot(typeDef: string, defs: seq<TypeField>) returns (r: KeyResult)
      modifies this
      ensures match Probe(old(types), typeDef, defs, 0)
              case Built(m, key) => r == Key(key) && types == m
              case TooManyDuplicates(m) => r == NoKey && types == m == old(types)
      ensures Extends(old(types), types)
    {
      var i: nat := 0;
      var indexed := Indexed(typeDef, i);
      while true
        invariant i < MAX_DUPLICATES && types == old(types) && indexed == Indexed(typeDef, i)
        invariant Probe(types, typeDef, defs, 0) == Probe(types, typeDef, defs, i)
        decreases MAX_DUPLICATES - i
      {
        if indexed in types && types[indexed] == defs {
          return Key(indexed);
        }
        if indexed !in types {
          break;
        }
        i := i + 1;
        if i == MAX_DUPLICATES {
          return NoKey;
        }
        indexed := Indexed(typeDef, i);
      }
      types := types[indexed := defs];
      return Key(indexed);
    }

    /** The loop over the sorted fields of an object; a failure leaves the definitions made before it. */
    method RecursivelyAddTypesToRoot(n: Naming, prefix: string, payload: Json) returns (r: KeyResult)
      requires payload.Obj?
      modifies this
      ensures match Build(n, old(types), prefix, payload)
              case Built(m, key) => r == Key(key) && types == m
              case TooManyDuplicates(m) => r == NoKey && types == m
      ensures Extends(old(types), types)
      decreases payload, 1
    {
      var toAdd: seq<TypeField> := [];
      var keys := SortedKeys(payload);
      var i := 0;
      ghost var before := types;
      assert keys[0..] == keys;
      while i < |keys|
        invariant 0 <= i <= |keys| && Extends(before, types)
        invariant BuildFields(n, before, prefix, payload, keys) ==
                  Prepended(toAdd, BuildFields(n, types, prefix, payload, keys[i..]))
      {
        UnrollFields(n, types, prefix, payload, keys, i, toAdd);
        var f := AddField(n, prefix, payload, keys[i]);
        if f.FieldFails? {
          return NoKey;
        }
        if f.Typed? {
          toAdd := toAdd + [TypeField(keys[i], f.typ)];
        }
        i := i + 1;
      }
      assert keys[i..] == [] && toAdd + [] == toAdd;
      assert BuildFields(n, before, prefix, payload, keys) == FieldsBuilt(types, toAdd);
      r := AddTypesToRoot(n.TypeDef(prefix), toAdd);
    }

    /** One turn of that loop. */
    method AddField(n: Naming, prefix: string, payload: Json, key: string) returns (f: FieldBuilt)
      requires payload.Obj?
      modifies this
      ensures match BuildField(n, old(types), prefix, payload, key)
              case Typed(m, typ) => f == Typed(m, typ) && types == m
              case Untyped => f == Untyped && types == old(types)
              case FieldFails(m) => f == FieldFails(m) && types == m
      ensures Extends(old(types), types)
      decreases payload, 0
    {
      var found := Get(payload, key);
      if found.Missing? {
        return Untyped;
      }
      var field := found.value;
      if field.Arr? && |field.items| == 0 {
        return Typed(types, "string[]");
      }
      var element := Element(field);
      var ethType := EthType(element);
      if ethType != "" {
        return Typed(types, Suffixed(ethType, field));
      }
      if element.Obj? {
        var r := RecursivelyAddTypesToRoot(n, SubPrefix(prefix, key), element);
        if r.NoKey? {
          return FieldFails(types);
        }
        return Typed(types, Suffixed(Sanitized(n.title, r.key), field));
      }
      return Untyped;
    }

    method AddMsgTypesToRoot(title: string -> string, field: string, msg: Found) returns (ok: bool)
      modifies this
      ensures match AddMsg(title, old(types), field, msg)
              case Types(m) => ok && types == m
              case Failed => !ok && types == LeftBehind(title, old(types), msg)
    {
      if msg.Missing? || !msg.value.Obj? {
        return false;
      }
      var rootType := RootType(msg.value);
      if rootType == "" {
        return false;
      }
      var r := RecursivelyAddTypesToRoot(Naming(title, rootType), "_", msg.value);
      if r.NoKey? {
        return false;
      }
      types := WithTx(types, TypeField(field, r.key));
      return true;
    }
  }

  /** What a message that fails leaves in the map. */
  ghost function LeftBehind(title: string -> string, m: TypeMap, msg: Found): TypeMap {
    if Named(msg) then Build(Naming(title, RootType(msg.value)), m, "_", msg.value).types else m
  }

  /** Definitions already collected, in front of those still to come. */
  ghost function Prepended(defs: seq<TypeField>, rest: FieldsBuilt): FieldsBuilt {
    match rest
    case FieldsFail(m) => FieldsFail(m)
    case FieldsBuilt(m, more) => FieldsBuilt(m, defs + more)
  }

  lemma UnrollFields(n: Naming, m: TypeMap, prefix: string, j: Json, keys: seq<string>, i: nat, defs: seq<TypeField>)
    requires i < |keys|
    ensures Prepended(defs, BuildFields(n, m, prefix, j, keys[i..])) ==
            match BuildField(n, m, prefix, j, keys[i])
            case FieldFails(m') => FieldsFail(m')
            case Untyped => Prepended(defs, BuildFields(n, m, prefix, j, keys[i + 1..]))
            case Typed(m', typ) =>
              Prepended(defs + [TypeField(keys[i], typ)], BuildFields(n, m', prefix, j, keys[i + 1..]))
  {
    assert keys[i..][0] == keys[i] && keys[i..][1..] == keys[i + 1..];
    var f := BuildField(n, m, prefix, j, keys[i]);
    if f.Typed? {
      var rest := BuildFields(n, f.types, prefix, j, keys[i + 1..]);
      if rest.FieldsBuilt? {
        assert defs + [TypeField(keys[i], f.typ)] + rest.defs == defs + ([TypeField(keys[i], f.typ)] + rest.defs);
      }
    }
  }

  /** `createEIP712Types`. */
  method CreateTypes(title: string -> string, payload: Json, count: nat) returns (r: Outcome)
    ensures r == Create(title, payload, count)
  {
    var reg := new Registry();
    var i := 0;
    while i < count
      invariant 0 <= i <= count
      invariant AddAll(MsgAdder(title), BASE_TYPES, payload, i) == Types(reg.types)
      modifies reg
    {
      var ok := AddNth(reg, title, payload, i);
      i := i + 1;
      if !ok {
        AddAllFails(MsgAdder(title), BASE_TYPES, payload, i, count);
        return Failed;
      }
    }
    return Types(reg.types);
  }

  /** One turn of that loop. */
  method AddNth(reg: Registry, title: string -> string, payload: Json, i: nat) returns (ok: bool)
    requires AddAll(MsgAdder(title), BASE_TYPES, payload, i) == Types(reg.types)
    modifies reg
    ensures match AddAll(MsgAdder(title), BASE_TYPES, payload, i + 1)
            case Types(m) => ok && reg.types == m
            case Failed => !ok
  {
    var field := MsgField(i);
    AddAllNext(MsgAdder(title), BASE_TYPES, payload, i, reg.types);
    ok := reg.AddMsgTypesToRoot(title, field, Get(payload, field));
  }

  lemma AddAllNext(add: Adder, start: TypeMap, payload: Json, i: nat, m: TypeMap)
    requires AddAll(add, start, payload, i) == Types(m)
    ensures AddAll(add, start, payload, i + 1) == add(m, MsgField(i), Get(payload, MsgField(i)))
  {
  }

  lemma {:induction false} AddAllFails(add: Adder, start: TypeMap, payload: Json, i: nat, count: nat)
    requires i <= count && AddAll(add, start, payload, i) == Failed
    ensures AddAll(add, start, payload, count) == Failed
    decreases count
  {
    if i < count {
      AddAllFails(add, start, payload, i, count - 1);
    }
  }
}
