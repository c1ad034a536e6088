/**
 Laws of the EIP-712 schema builder: it overwrites nothing, its result is closed and describes the
 message, building again changes nothing, and the order of JSON keys does not matter.
 */
module SchemaLaws {
  import opened Text
  import opened Json
  import opened Schema

  // ---------- Names ----------

  /** Prefixes start at the root, and are made of plain names. */
  ghost predicate Rooted(prefix: string) {
    Split(prefix, '.')[0] == "_"
  }

  ghost predicate SafePrefix(prefix: string) {
    forall c :: c in prefix ==> IsAlnum(c) || c == '_' || c == '.'
  }

  lemma RootIsRooted()
    ensures Rooted("_") && SafePrefix("_")
  {
    SplitNone("_", '.');
  }

  lemma SubPrefixRooted(prefix: string, key: string)
    requires Rooted(prefix)
    ensures Rooted(SubPrefix(prefix, key))
    ensures SafePrefix(prefix) && PathSafe(key) ==> SafePrefix(SubPrefix(prefix, key))
  {
    SplitAppend(prefix, key, '.');
  }

  lemma {:induction false} TitledAlnum(title: string -> string, words: seq<string>)
    requires TitleCaser(title) && forall w :: w in words ==> AllAlnum(w)
    ensures AllAlnum(Titled(title, words))
  {
    if words != [] {
      TitledAlnum(title, words[1..]);
    }
  }

  lemma {:induction false} PartsAlnum(title: string -> string, parts: seq<string>)
    requires TitleCaser(title) && forall p, c :: p in parts && c in p ==> IsAlnum(c) || c == '_'
    ensures AllAlnum(SanitizedParts(title, parts))
  {
    if parts != [] {
      SplitChars(parts[0], '_');
      forall w | w in Split(parts[0], '_') ensures AllAlnum(w) {
        assert forall c :: c in w ==> c in parts[0];
      }
      TitledAlnum(title, Split(parts[0], '_'));
      assert AllAlnum("Type");
      PartsAlnum(title, parts[1..]);
    }
  }

  /** A sanitized prefix is a type name of letters and digits. */
  lemma SanitizedName(title: string -> string, prefix: string)
    requires Rooted(prefix)
    ensures IsTypeName(Sanitized(title, prefix))
    ensures TitleCaser(title) && SafePrefix(prefix) ==> AllAlnum(Sanitized(title, prefix))
  {
    var parts := Split(prefix, '.');
    assert Sanitized(title, prefix) == "Type" + SanitizedParts(title, parts[1..]);
    if TitleCaser(title) && SafePrefix(prefix) {
      SplitChars(prefix, '.');
      PartsAlnum(title, parts);
    }
  }

  /** Sanitizing a type name once more leaves it as it is. */
  lemma SanitizedFixed(title: string -> string, key: string)
    requires TitleCaser(title) && AllAlnum(key) && IsTypeName(key)
    ensures Sanitized(title, key) == key
  {
    assert '.' !in key && '_' !in key;
    SplitNone(key, '.');
    SplitNone(key, '_');
    assert key[0] == key[..4][0] == 'T';
    assert Titled(title, [key]) == title(key) + Titled(title, []);
    assert SanitizedParts(title, [key]) == title(key) + SanitizedParts(title, []);
  }

  lemma IndexedName(typeDef: string, i: nat)
    requires IsTypeName(typeDef)
    ensures IsTypeName(Indexed(typeDef, i))
    ensures AllAlnum(typeDef) ==> AllAlnum(Indexed(typeDef, i))
  {
    assert Indexed(typeDef, i)[..4] == typeDef[..4];
    DecimalAlnum(i);
  }

  /** Title casing of ASCII words: what is assumed of the caser is what it does there. */
  function AsciiTitle(s: string): string {
    if s != "" && 'a' <= s[0] <= 'z' then [((s[0] as int) - 32) as char] + s[1..] else s
  }

  lemma AsciiTitleIsCaser()
    ensures TitleCaser(AsciiTitle)
  {
    forall s | AllAlnum(s) ensures AllAlnum(AsciiTitle(s)) {
      if s != "" {
        assert s == [s[0]] + s[1..] && s[0] in s;
      }
    }
    forall s | AllAlnum(s) && IsTypeName(s) ensures AsciiTitle(s) == s {
      assert s[0] == s[..4][0] == 'T';
    }
  }

  // ---------- Growing maps ----------

  /** Nothing that was defined is redefined. */
  ghost predicate Extends(m: TypeMap, m': TypeMap) {
    forall k :: k in m ==> k in m' && m'[k] == m[k]
  }

  /** `m'` has all message types of `m`; it may differ elsewhere, as in `Tx`. */
  ghost predicate Carries(m: TypeMap, m': TypeMap) {
    forall k :: k in m && IsTypeName(k) ==> k in m' && m'[k] == m[k]
  }

  /** What one call of `addTypesToRoot` does, whatever the names collide with. */
  lemma {:induction false} ProbeAdds(m: TypeMap, typeDef: string, types: seq<TypeField>, i: nat)
    requires i < MAX_DUPLICATES && IsTypeName(typeDef)
    ensures var r := Probe(m, typeDef, types, i);
      r.Built? ==>
        && Extends(m, r.types) && r.types.Keys == m.Keys + {r.key}
        && r.types[r.key] == types
        && IsTypeName(r.key) && (AllAlnum(typeDef) ==> AllAlnum(r.key))
    decreases MAX_DUPLICATES - i
  {
    IndexedName(typeDef, i);
    var key := Indexed(typeDef, i);
    if key in m && m[key] != types && i + 1 < MAX_DUPLICATES {
      ProbeAdds(m, typeDef, types, i + 1);
    }
  }

  /** The k-th name holds another definition. */
  predicate Taken(m: TypeMap, typeDef: string, types: seq<TypeField>, k: nat) {
    Indexed(typeDef, k) in m && m[Indexed(typeDef, k)] != types
  }

  /** The probe fails exactly if all thousand names are taken by other definitions. */
  lemma {:induction false} ProbeFails(m: TypeMap, typeDef: string, types: seq<TypeField>, i: nat)
    requires i < MAX_DUPLICATES
    ensures Probe(m, typeDef, types, i).TooManyDuplicates? <==>
            forall k :: i <= k < MAX_DUPLICATES ==> Taken(m, typeDef, types, k)
    decreases MAX_DUPLICATES - i
  {
    if Taken(m, typeDef, types, i) && i + 1 < MAX_DUPLICATES {
      ProbeFails(m, typeDef, types, i + 1);
    }
  }

  /** Probing again, in a map that carries the result, finds the same key and changes nothing. */
  lemma {:induction false} ProbeStable(m: TypeMap, big: TypeMap, typeDef: string, types: seq<TypeField>, i: nat)
    requires i < MAX_DUPLICATES && IsTypeName(typeDef)
    requires Probe(m, typeDef, types, i).Built? && Carries(Probe(m, typeDef, types, i).types, big)
    ensures Probe(big, typeDef, types, i) == Built(big, Probe(m, typeDef, types, i).key)
    decreases MAX_DUPLICATES - i
  {
    IndexedName(typeDef, i);
    ProbeAdds(m, typeDef, types, i);
    var key := Indexed(typeDef, i);
    if key in m && m[key] != types && i + 1 < MAX_DUPLICATES {
      ProbeStable(m, big, typeDef, types, i + 1);
    }
  }

  lemma TypeDefName(n: Naming, prefix: string)
    requires n.Valid() && Rooted(prefix)
    ensures IsTypeName(n.TypeDef(prefix))
    ensures prefix != "_" && SafePrefix(prefix) ==> AllAlnum(n.TypeDef(prefix))
  {
    SanitizedName(n.title, prefix);
  }

  // ---------- Building only adds ----------

  lemma {:induction false} BuildExtends(n: Naming, m: TypeMap, prefix: string, j: Json)
    requires n.Valid() && Rooted(prefix) && j.Obj?
    ensures var r := Build(n, m, prefix, j);
      r.Built? ==>
        && Extends(m, r.types) && r.key in r.types && IsTypeName(r.key)
        && (prefix != "_" && SafePrefix(prefix) ==> AllAlnum(r.key))
    decreases j, 2
  {
    BuildFieldsExtends(n, m, prefix, j, SortedKeys(j));
    var fs := BuildFields(n, m, prefix, j, SortedKeys(j));
    if fs.FieldsBuilt? {
      TypeDefName(n, prefix);
      ProbeAdds(fs.types, n.TypeDef(prefix), fs.defs, 0);
    }
  }

  lemma {:induction false} BuildFieldsExtends(n: Naming, m: TypeMap, prefix: string, j: Json, keys: seq<string>)
    requires n.Valid() && Rooted(prefix)
    ensures var r := BuildFields(n, m, prefix, j, keys); r.FieldsBuilt? ==> Extends(m, r.types)
    decreases j, 1, |keys|
  {
    if keys != [] {
      BuildFieldExtends(n, m, prefix, j, keys[0]);
      var f := BuildField(n, m, prefix, j, keys[0]);
      if f.Typed? {
        BuildFieldsExtends(n, f.types, prefix, j, keys[1..]);
      } else if f.Untyped? {
        BuildFieldsExtends(n, m, prefix, j, keys[1..]);
      }
    }
  }

  lemma {:induction false} BuildFieldExtends(n: Naming, m: TypeMap, prefix: string, j: Json, key: string)
    requires n.Valid() && Rooted(prefix)
    ensures var r := BuildField(n, m, prefix, j, key); r.Typed? ==> Extends(m, r.types)
    decreases j, 0
  {
    var v := Get(j, key);
    if v.Present? && Element(v.value).Obj? {
      SubPrefixRooted(prefix, key);
      BuildExtends(n, m, SubPrefix(prefix, key), Element(v.value));
    }
  }

  // ---------- Building again ----------

  /**
   Stability: if adding a message to some map gave the key k, then adding it to any map that carries
   the result leaves that map unchanged and gives k again.
   */
  lemma {:induction false} BuildStable(n: Naming, m: TypeMap, big: TypeMap, prefix: string, j: Json)
    requires n.Valid() && Rooted(prefix) && j.Obj?
    requires Build(n, m, prefix, j).Built? && Carries(Build(n, m, prefix, j).types, big)
    ensures Build(n, big, prefix, j) == Built(big, Build(n, m, prefix, j).key)
    decreases j, 2
  {
    var fs := BuildFields(n, m, prefix, j, SortedKeys(j));
    TypeDefName(n, prefix);
    ProbeAdds(fs.types, n.TypeDef(prefix), fs.defs, 0);
    BuildFieldsStable(n, m, big, prefix, j, SortedKeys(j));
    ProbeStable(fs.types, big, n.TypeDef(prefix), fs.defs, 0);
  }

  lemma {:induction false} BuildFieldsStable(n: Naming, m: TypeMap, big: TypeMap, prefix: string, j: Json,
                                             keys: seq<string>)
    requires n.Valid() && Rooted(prefix)
    requires BuildFields(n, m, prefix, j, keys).FieldsBuilt? && Carries(BuildFields(n, m, prefix, j, keys).types, big)
    ensures BuildFields(n, big, prefix, j, keys) == FieldsBuilt(big, BuildFields(n, m, prefix, j, keys).defs)
    decreases j, 1, |keys|
  {
    if keys != [] {
      var f := BuildField(n, m, prefix, j, keys[0]);
      var next := if f.Typed? then f.types else m;
      BuildFieldsExtends(n, next, prefix, j, keys[1..]);
      BuildFieldStable(n, m, big, prefix, j, keys[0]);
      BuildFieldsStable(n, next, big, prefix, j, keys[1..]);
    }
  }

  lemma {:induction false} BuildFieldStable(n: Naming, m: TypeMap, big: TypeMap, prefix: string, j: Json, key: string)
    requires n.Valid() && Rooted(prefix)
    requires var r := BuildField(n, m, prefix, j, key); !r.FieldFails? && (r.Typed? ==> Carries(r.types, big))
    ensures BuildField(n, big, prefix, j, key) ==
            var r := BuildField(n, m, prefix, j, key); if r.Typed? then Typed(big, r.typ) else r
    decreases j, 0
  {
    var v := Get(j, key);
    if v.Present? && Element(v.value).Obj? {
      SubPrefixRooted(prefix, key);
      BuildStable(n, m, big, SubPrefix(prefix, key), Element(v.value));
    }
  }

  // ---------- The order of JSON keys ----------

  lemma SameElement(a: Json, b: Json)
    requires Same(a, b)
    ensures Same(Element(a), Element(b))
    ensures a.Arr? == b.Arr? && (a.Arr? ==> |a.items| == |b.items|)
  {
  }

  lemma SamePrimitive(a: Json, b: Json)
    requires Same(a, b)
    ensures EthType(a) == EthType(b) && a.Obj? == b.Obj?
  {
  }

  /** Payloads that differ only in the order of object keys give the same map and the same key. */
  lemma {:induction false} BuildOrderFree(n: Naming, m: TypeMap, prefix: string, a: Json, b: Json)
    requires a.Obj? && Same(a, b)
    ensures Build(n, m, prefix, a) == Build(n, m, prefix, b)
    decreases a, 2
  {
    SameSortedKeys(a, b);
    BuildFieldsOrderFree(n, m, prefix, a, b, SortedKeys(a));
  }

  lemma {:induction false} BuildFieldsOrderFree(n: Naming, m: TypeMap, prefix: string, a: Json, b: Json,
                                                keys: seq<string>)
    requires a.Obj? && Same(a, b)
    ensures BuildFields(n, m, prefix, a, keys) == BuildFields(n, m, prefix, b, keys)
    decreases a, 1, |keys|
  {
    if keys != [] {
      BuildFieldOrderFree(n, m, prefix, a, b, keys[0]);
      var f := BuildField(n, m, prefix, a, keys[0]);
      BuildFieldsOrderFree(n, if f.Typed? then f.types else m, prefix, a, b, keys[1..]);
    }
  }

  lemma {:induction false} BuildFieldOrderFree(n: Naming, m: TypeMap, prefix: string, a: Json, b: Json, key: string)
    requires a.Obj? && Same(a, b)
    ensures BuildField(n, m, prefix, a, key) == BuildField(n, m, prefix, b, key)
    decreases a, 0
  {
    if key in Keys(a.fields) {
      assert SameAt(a, b, key);
      var v, w := Get(a, key).value, Get(b, key).value;
      SameElement(v, w);
      SamePrimitive(Element(v), Element(w));
      if Element(v).Obj? {
        BuildOrderFree(n, m, SubPrefix(prefix, key), Element(v), Element(w));
      }
    }
  }
}
