/**
 The names of generated EIP-712 types (ethereum/eip712/types.go): the type of a message is named after the
 last segment of its type string, a nested type after its path in title case, and each carries the
 number of the first free name.
 */
module SchemaNames {
  import opened Text
  import opened Json
  import opened Schema
  import opened SchemaLaws
  import opened SchemaMeaning

  // ---------- The root type ----------

  /** As in `cosmos-sdk/MsgSend`, which gives `TypeMsgSend`. */
  lemma RootTypeOf(msg: Json, path: string, name: string)
    requires '/' !in name
    requires
      Get(msg, "type") == Present(Str(path + "/" + name)) || (Get(msg, "type") == Present(Str(name)) && name != "")
    ensures RootType(msg) == "Type" + name
  {
    SplitNone(name, '/');
    SplitAppend(path, name, '/');
  }

  /** There is a root type exactly where there is a type string. */
  lemma RootTypeMissing(msg: Json)
    ensures RootType(msg) == "" <==> forall s :: Get(msg, "type") == Present(Str(s)) ==> s == ""
  {
  }

  // ---------- Nested types ----------

  /** A path in title case, from the root on. */
  lemma SanitizedRoot(title: string -> string)
    ensures Sanitized(title, "_") == "Type"
  {
    SplitNone("_", '.');
    assert SanitizedParts(title, ["_"]) == "Type" + SanitizedParts(title, []);
  }

  lemma SanitizedSub(title: string -> string, prefix: string, key: string)
    requires '.' !in key
    ensures Sanitized(title, prefix + "." + key) ==
            Sanitized(title, prefix) + if key == "_" then "Type" else Titled(title, Split(key, '_'))
  {
    SplitAppend(prefix, key, '.');
    SplitNone(key, '.');
    PartsConcat(title, Split(prefix, '.'), [key]);
    assert [key][1..] == [];
  }

  lemma {:induction false} PartsConcat(title: string -> string, a: seq<string>, b: seq<string>)
    ensures SanitizedParts(title, a + b) == SanitizedParts(title, a) + SanitizedParts(title, b)
  {
    if a == [] {
      assert a + b == b;
    } else {
      assert (a + b)[1..] == a[1..] + b;
      PartsConcat(title, a[1..], b);
    }
  }

  /** Underscores separate words, each of which goes through the title caser. */
  lemma TitledWords(title: string -> string, word: string, rest: string)
    requires '_' !in word
    ensures Titled(title, Split(word, '_')) == title(word)
    ensures Titled(title, Split(word + "_" + rest, '_')) == title(word) + Titled(title, Split(rest, '_'))
  {
    SplitNone(word, '_');
    SplitAppend(word, rest, '_');
    assert Titled(title, [word]) == title(word) + Titled(title, []);
    assert ([word] + Split(rest, '_'))[1..] == Split(rest, '_');
  }

  /** For example, `_.foo_bar.baz` gives `TypeFooBarBaz`. */
  lemma FooBarBaz()
    ensures Sanitized(AsciiTitle, "_.foo_bar.baz") == "TypeFooBarBaz"
  {
    var whole, prefix, key := "_.foo_bar.baz", "_.foo_bar", "baz";
    assert prefix + "." + key == whole && "TypeFooBar" + "Baz" == "TypeFooBarBaz";
    RootFooBar(prefix);
    Baz();
    SanitizedSub(AsciiTitle, prefix, key);
  }

  lemma RootFooBar(prefix: string)
    requires prefix == "_.foo_bar"
    ensures Sanitized(AsciiTitle, prefix) == "TypeFooBar"
  {
    var key := "foo_bar";
    assert "_" + "." + key == prefix && "Type" + "FooBar" == "TypeFooBar";
    SanitizedRoot(AsciiTitle);
    FooBar();
    SanitizedSub(AsciiTitle, "_", key);
  }

  lemma FooBar()
    ensures Titled(AsciiTitle, Split("foo_bar", '_')) == "FooBar"
  {
    TitledWords(AsciiTitle, "foo", "bar");
    TitledWords(AsciiTitle, "bar", "");
    assert "foo" + "_" + "bar" == "foo_bar";
    assert AsciiTitle("foo") == "Foo" && AsciiTitle("bar") == "Bar" && "Foo" + "Bar" == "FooBar";
  }

  lemma Baz()
    ensures Titled(AsciiTitle, Split("baz", '_')) == "Baz"
  {
    TitledWords(AsciiTitle, "baz", "");
    assert AsciiTitle("baz") == "Baz";
  }

  // ---------- Numbers of names ----------

  /** `key` is the first of the numbered names that is free or has the same definition. */
  ghost predicate FirstFree(m: TypeMap, typeDef: string, types: seq<TypeField>, key: string, i: nat) {
    && i < 1000 && key == typeDef + Decimal(i)
    && (key in m ==> m[key] == types)
    && forall k :: 0 <= k < i ==> Taken(m, typeDef, types, k)
  }

  lemma {:induction false} ProbeFirstFree(m: TypeMap, typeDef: string, types: seq<TypeField>, i: nat) returns (n: nat)
    requires i < MAX_DUPLICATES && Probe(m, typeDef, types, i).Built?
    requires forall k :: 0 <= k < i ==> Taken(m, typeDef, types, k)
    ensures FirstFree(m, typeDef, types, Probe(m, typeDef, types, i).key, n)
    decreases MAX_DUPLICATES - i
  {
    if Taken(m, typeDef, types, i) {
      n := ProbeFirstFree(m, typeDef, types, i + 1);
    } else {
      n := i;
    }
  }

  /** An object's own type: the message's root type at the root, and else its path. */
  lemma BuildNamed(n: Naming, m: TypeMap, prefix: string, j: Json) returns (i: nat)
    requires j.Obj? && Build(n, m, prefix, j).Built?
    ensures i < 1000
    ensures Build(n, m, prefix, j).key ==
            (if prefix == "_" then n.rootType else Sanitized(n.title, prefix)) + Decimal(i)
  {
    var fs := BuildFields(n, m, prefix, j, SortedKeys(j));
    i := ProbeFirstFree(fs.types, n.TypeDef(prefix), fs.defs, 0);
  }

  /** The type of an object, or of an array of objects, at a field. */
  lemma FieldNamed(n: Naming, m: TypeMap, prefix: string, j: Json, key: string, e: Json) returns (i: nat)
    requires n.Valid() && Rooted(prefix) && SafePrefix(prefix) && SafeKeys(j) && e.Obj?
    requires Get(j, key) == Present(e) || (exists rest :: Get(j, key) == Present(Arr([e] + rest)))
    requires BuildField(n, m, prefix, j, key).Typed?
    ensures i < 1000
    ensures BuildField(n, m, prefix, j, key).typ ==
            Sanitized(n.title, prefix + "." + key) + Decimal(i) + if Get(j, key).value.Arr? then "[]" else ""
  {
    SafeValue(j, key);
    assert Element(Get(j, key).value) == e;
    NestedKey(n, m, prefix, key, e);
    i := BuildNamed(n, m, SubPrefix(prefix, key), e);
  }

  /** The type of a message in `Tx`. */
  lemma MessageNamed(title: string -> string, m: TypeMap, field: string, msg: Json, path: string, name: string)
    returns (i: nat)
    requires '/' !in name && Get(msg, "type") == Present(Str(path + "/" + name))
    requires "Tx" in m && AddMsg(title, m, field, Present(msg)).Types?
    ensures i < 1000
    ensures var tx := AddMsg(title, m, field, Present(msg)).types["Tx"];
      tx != [] && tx[|tx| - 1] == TypeField(field, "Type" + name + Decimal(i))
  {
    RootTypeOf(msg, path, name);
    i := BuildNamed(Naming(title, RootType(msg)), m, "_", msg);
  }
}
