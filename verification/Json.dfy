/** JSON values as the EIP-712 code reads them through gjson: objects are lists of fields, in order. */
module Json {
  import opened Text

  datatype Field = Field(key: string, value: Json)

  datatype Json =
    | Null
    | Bool(b: bool)
    | Num(raw: string)
    | Str(s: string)
    | Arr(items: seq<Json>)
    | Obj(fields: seq<Field>)

  datatype Found = Missing | Present(value: Json)

  /** The value of the first field with the given key. */
  function Lookup(fields: seq<Field>, key: string): (r: Found)
    ensures r.Present? <==> key in Keys(fields)
    ensures r.Present? ==> Field(key, r.value) in fields
  {
    if fields == [] then Missing
    else if fields[0].key == key then Present(fields[0].value)
    else Lookup(fields[1..], key)
  }

  function Keys(fields: seq<Field>): (ks: seq<string>)
    ensures |ks| == |fields|
    ensures forall i :: 0 <= i < |fields| ==> ks[i] == fields[i].key
  {
    seq(|fields|, i requires 0 <= i < |fields| => fields[i].key)
  }

  /** `payload.Get(key)` for a key without path syntax: missing unless the payload is an object. */
  function Get(j: Json, key: string): (r: Found)
    ensures r.Present? ==> r.value < j
  {
    if j.Obj? then Lookup(j.fields, key) else Missing
  }

  /** `sortedJSONKeys` of an object. */
  function SortedKeys(j: Json): seq<string>
    requires j.Obj?
  {
    SortDescending(Keys(j.fields))
  }

  /** Keys that gjson reads as plain names, not as paths. */
  predicate PathSafe(key: string) {
    key != "" && forall c :: c in key ==> IsAlnum(c) || c == '_'
  }

  ghost predicate SafeKeys(j: Json) {
    match j
    case Arr(items) => forall x :: x in items ==> SafeKeys(x)
    case Obj(fields) => forall f :: f in fields ==> PathSafe(f.key) && SafeKeys(f.value)
    case _ => true
  }

  /** Equal up to the order of object fields, at every depth. */
  ghost predicate Same(a: Json, b: Json)
    decreases a
  {
    match a
    case Arr(items) =>
      b.Arr? && |items| == |b.items| && forall i :: 0 <= i < |items| ==> Same(items[i], b.items[i])
    case Obj(_) =>
      && b.Obj?
      && (forall k :: k in Keys(a.fields) <==> k in Keys(b.fields))
      && forall k :: k in Keys(a.fields) ==> SameAt(a, b, k)
    case _ => a == b
  }

  ghost predicate SameAt(a: Json, b: Json, k: string)
    requires a.Obj?
    decreases a, 0
  {
    var x, y := Get(a, k), Get(b, k);
    x.Present? && y.Present? && Same(x.value, y.value)
  }

  /** Key order does not show in the sorted keys. */
  lemma SameSortedKeys(a: Json, b: Json)
    requires a.Obj? && Same(a, b)
    ensures SortedKeys(a) == SortedKeys(b)
  {
    DescendingUnique(SortedKeys(a), SortedKeys(b));
  }
}
