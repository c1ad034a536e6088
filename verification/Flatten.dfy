/**
 Flattening of message payloads (ethereum/eip712/message.go): the array `msgs` becomes the fields
 `msg0`, `msg1`, and so on.
 */
module Flatten {
  import opened Text
  import opened Json
  import opened Schema
  import opened SchemaLaws
  import opened SchemaMeaning

  datatype Flattened = Flattened(payload: Json, count: nat) | Rejected
  datatype Messages = Messages(items: seq<Json>) | NoMessages

  /** `getPayloadMessages`. */
  function PayloadMessages(payload: Json): Messages {
    match Get(payload, "msgs")
    case Missing => NoMessages
    case Present(Null) => Messages([])
    case Present(Arr(items)) => Messages(items)
    case Present(_) => NoMessages
  }

  datatype Fields = Fields(fields: seq<Field>) | BadFields

  /** `payloadWithNewMessage` for the messages up to `n`; each needs a free field and an object. */
  function WithMessages(name: nat -> string, fields: seq<Field>, msgs: seq<Json>, n: nat): Fields
    requires n <= |msgs|
  {
    if n == 0 then Fields(fields)
    else
      match WithMessages(name, fields, msgs, n - 1)
      case BadFields => BadFields
      case Fields(fs) =>
        if name(n - 1) in Keys(fs) || !msgs[n - 1].Obj? then BadFields
        else Fields(fs + [Field(name(n - 1), msgs[n - 1])])
  }

  /** `sjson.Delete`: without the first field of that key. */
  function Without(fields: seq<Field>, key: string): seq<Field> {
    if fields == [] then []
    else if fields[0].key == key then fields[1..]
    else [fields[0]] + Without(fields[1..], key)
  }

  /** `FlattenPayloadMessages`. */
  function Flat(payload: Json): Flattened {
    match PayloadMessages(payload)
    case NoMessages => Rejected
    case Messages(msgs) =>
      if !payload.Obj? then Rejected
      else match WithMessages(MsgField, payload.fields, msgs, |msgs|)
        case BadFields => Rejected
        case Fields(fs) => Flattened(Obj(Without(fs, "msgs")), |msgs|)
  }

  method FlattenPayloadMessages(payload: Json) returns (r: Flattened)
    ensures r == Flat(payload)
  {
    var found := PayloadMessages(payload);
    if found.NoMessages? || !payload.Obj? {
      return Rejected;
    }
    var msgs := found.items;
    var flattened := payload.fields;
    var i := 0;
    while i < |msgs|
      invariant 0 <= i <= |msgs|
      invariant WithMessages(MsgField, payload.fields, msgs, i) == Fields(flattened)
    {
      var field := MsgField(i);
      if field in Keys(flattened) || !msgs[i].Obj? {
        WithMessagesFails(MsgField, payload.fields, msgs, i + 1, |msgs|);
        return Rejected;
      }
      flattened := flattened + [Field(field, msgs[i])];
      i := i + 1;
    }
    return Flattened(Obj(Without(flattened, "msgs")), |msgs|);
  }

  lemma {:induction false} WithMessagesFails(name: nat -> string, fields: seq<Field>, msgs: seq<Json>, i: nat, n: nat)
    requires i <= n <= |msgs| && WithMessages(name, fields, msgs, i).BadFields?
    ensures WithMessages(name, fields, msgs, n).BadFields?
    decreases n
  {
    if i < n {
      WithMessagesFails(name, fields, msgs, i, n - 1);
    }
  }

  // ---------- Field lists ----------

  ghost predicate Distinct(fields: seq<Field>) {
    forall i, j :: 0 <= i < j < |fields| ==> fields[i].key != fields[j].key
  }

  lemma {:induction false} LookupAppend(fields: seq<Field>, f: Field, key: string)
    ensures Lookup(fields + [f], key) ==
            if Lookup(fields, key).Present? then Lookup(fields, key)
            else if f.key == key then Present(f.value) else Missing
  {
    if fields == [] {
      assert fields + [f] == [f];
    } else {
      assert (fields + [f])[1..] == fields[1..] + [f];
      LookupAppend(fields[1..], f, key);
    }
  }

  lemma {:induction false} LookupPrefix(some: seq<Field>, all: seq<Field>, key: string)
    requires some <= all && Lookup(some, key).Present?
    ensures Lookup(all, key) == Lookup(some, key)
  {
    if some[0].key != key {
      LookupPrefix(some[1..], all[1..], key);
    }
  }

  lemma LookupNew(fields: seq<Field>, key: string, value: Json)
    requires key !in Keys(fields)
    ensures Lookup(fields, key).Missing? && Lookup(fields + [Field(key, value)], key) == Present(value)
  {
    LookupAppend(fields, Field(key, value), key);
  }

  lemma {:induction false} LookupWithout(fields: seq<Field>, gone: string, key: string)
    requires Distinct(fields)
    ensures Lookup(Without(fields, gone), key) == if key == gone then Missing else Lookup(fields, key)
  {
    if fields != [] {
      if fields[0].key == gone {
        assert Lookup(fields[1..], gone).Missing?;
      } else {
        LookupWithout(fields[1..], gone, key);
        assert Without(fields, gone)[1..] == Without(fields[1..], gone);
      }
    }
  }

  lemma MsgFieldNames(i: nat, j: nat)
    ensures MsgField(i) != "msgs" && (MsgField(i) == MsgField(j) ==> i == j)
  {
    assert MsgField(i)[3..] == Decimal(i) && MsgField(j)[3..] == Decimal(j);
    assert "msgs"[3] == 's' && MsgField(i)[3] == Decimal(i)[0];
    assert Decimal(i)[0] in Decimal(i);
    if MsgField(i) == MsgField(j) {
      DecimalInjective(i, j);
    }
  }

  /** Keys other than the message fields read as before. */
  lemma {:induction false} LookupOther(name: nat -> string, fields: seq<Field>, msgs: seq<Json>, n: nat, key: string)
    requires n <= |msgs| && WithMessages(name, fields, msgs, n).Fields?
    requires forall i :: 0 <= i < n ==> key != name(i)
    ensures Lookup(WithMessages(name, fields, msgs, n).fields, key) == Lookup(fields, key)
    decreases n
  {
    if n > 0 {
      LookupOther(name, fields, msgs, n - 1, key);
      LookupAppend(WithMessages(name, fields, msgs, n - 1).fields, Field(name(n - 1), msgs[n - 1]), key);
    }
  }

  ghost predicate Injective(name: nat -> string) {
    forall i: nat, j: nat :: name(i) == name(j) ==> i == j
  }

  lemma MsgFieldInjective()
    ensures Injective(MsgField)
  {
    forall i: nat, j: nat | MsgField(i) == MsgField(j) ensures i == j { MsgFieldNames(i, j); }
  }

  /** The field of message `n` is free among the messages before it exactly if it was free at first. */
  lemma LookupNext(name: nat -> string, fields: seq<Field>, msgs: seq<Json>, n: nat)
    requires Injective(name) && n <= |msgs| && WithMessages(name, fields, msgs, n).Fields?
    ensures Lookup(WithMessages(name, fields, msgs, n).fields, name(n)) == Lookup(fields, name(n))
  {
    LookupOther(name, fields, msgs, n, name(n));
  }

  /** The last message's field was free and holds that message. */
  lemma LookupLast(name: nat -> string, fields: seq<Field>, msgs: seq<Json>, n: nat)
    requires 0 < n <= |msgs| && WithMessages(name, fields, msgs, n).Fields?
    ensures Lookup(WithMessages(name, fields, msgs, n - 1).fields, name(n - 1)).Missing?
    ensures Lookup(WithMessages(name, fields, msgs, n).fields, name(n - 1)) == Present(msgs[n - 1])
  {
    LookupNew(WithMessages(name, fields, msgs, n - 1).fields, name(n - 1), msgs[n - 1]);
  }

  /** Fields are only added behind the ones already there. */
  lemma {:induction false} WithMessagesGrows(name: nat -> string, fields: seq<Field>, msgs: seq<Json>, i: nat, n: nat)
    requires i <= n <= |msgs| && WithMessages(name, fields, msgs, n).Fields?
    ensures WithMessages(name, fields, msgs, i).Fields?
    ensures WithMessages(name, fields, msgs, i).fields <= WithMessages(name, fields, msgs, n).fields
    decreases n
  {
    if i < n {
      WithMessagesGrows(name, fields, msgs, i, n - 1);
    }
  }

  /** Message field `i` was free and holds the i-th message. */
  lemma LookupMessage(name: nat -> string, fields: seq<Field>, msgs: seq<Json>, n: nat, i: nat)
    requires Injective(name) && i < n <= |msgs| && WithMessages(name, fields, msgs, n).Fields?
    ensures Lookup(fields, name(i)).Missing?
    ensures Lookup(WithMessages(name, fields, msgs, n).fields, name(i)) == Present(msgs[i])
  {
    WithMessagesGrows(name, fields, msgs, i + 1, n);
    LookupLast(name, fields, msgs, i + 1);
    LookupPrefix(WithMessages(name, fields, msgs, i + 1).fields, WithMessages(name, fields, msgs, n).fields, name(i));
    LookupNext(name, fields, msgs, i);
  }

  lemma {:induction false} WithMessagesDistinct(name: nat -> string, fields: seq<Field>, msgs: seq<Json>, n: nat)
    requires n <= |msgs| && WithMessages(name, fields, msgs, n).Fields? && Distinct(fields)
    ensures Distinct(WithMessages(name, fields, msgs, n).fields)
    decreases n
  {
    if n > 0 {
      WithMessagesDistinct(name, fields, msgs, n - 1);
      var before := WithMessages(name, fields, msgs, n - 1).fields;
      assert forall i :: 0 <= i < |before| ==> before[i].key == Keys(before)[i];
    }
  }

  // ---------- Flattening is lossless ----------

  /** The messages of a payload are the elements of `msgs`; null stands for none. */
  ghost predicate MessagesAre(payload: Json, msgs: seq<Json>) {
    Get(payload, "msgs") == Present(Arr(msgs)) || (Get(payload, "msgs") == Present(Null) && msgs == [])
  }

  /** The field of message `i`, as in `msg2`. */
  ghost predicate IsFieldOf(key: string, i: nat) {
    key == "msg" + Decimal(i)
  }

  /** A message becomes the field of its number, which was free. */
  lemma FlatMessage(payload: Json, msgs: seq<Json>, i: nat)
    requires payload.Obj? && MessagesAre(payload, msgs) && Flat(payload).Flattened? && i < |msgs|
    ensures Get(payload, "msg" + Decimal(i)) == Missing
    ensures Distinct(payload.fields) ==> Get(Flat(payload).payload, "msg" + Decimal(i)) == Present(msgs[i])
  {
    var fs := WithMessages(MsgField, payload.fields, msgs, |msgs|).fields;
    MsgFieldNames(i, i);
    MsgFieldInjective();
    LookupMessage(MsgField, payload.fields, msgs, |msgs|, i);
    if Distinct(payload.fields) {
      WithMessagesDistinct(MsgField, payload.fields, msgs, |msgs|);
      LookupWithout(fs, "msgs", MsgField(i));
    }
  }

  /** What the flattened payload has at each key: `msgs` is gone, its items are fields, the rest stays. */
  lemma FlatFields(payload: Json, msgs: seq<Json>, key: string)
    requires payload.Obj? && Distinct(payload.fields) && MessagesAre(payload, msgs) && Flat(payload).Flattened?
    ensures var f := Flat(payload);
      && f.count == |msgs|
      && (key == "msgs" ==> Get(f.payload, key) == Missing)
      && (forall i: nat :: i < |msgs| && IsFieldOf(key, i) ==>
            Get(payload, key) == Missing && Get(f.payload, key) == Present(msgs[i]))
      && (key != "msgs" && (forall i: nat :: i < |msgs| ==> !IsFieldOf(key, i)) ==>
            Get(f.payload, key) == Get(payload, key))
  {
    var fs := WithMessages(MsgField, payload.fields, msgs, |msgs|).fields;
    WithMessagesDistinct(MsgField, payload.fields, msgs, |msgs|);
    LookupWithout(fs, "msgs", key);
    if i: nat :| i < |msgs| && IsFieldOf(key, i) {
      forall k: nat | k < |msgs| && IsFieldOf(key, k)
        ensures Get(payload, key) == Missing && Get(Flat(payload).payload, key) == Present(msgs[k])
      {
        FlatMessage(payload, msgs, k);
      }
      MsgFieldNames(i, i);
    } else {
      forall i | 0 <= i < |msgs| ensures key != MsgField(i) {
        assert !IsFieldOf(key, i);
      }
      LookupOther(MsgField, payload.fields, msgs, |msgs|, key);
    }
  }

  /** The original value at a key, recovered from the flattened payload and the number of messages. */
  ghost function Original(f: Json, count: nat, key: string): Found {
    if key == "msgs" then Present(Arr(seq(count, (i: nat) => ValueAt(f, "msg" + Decimal(i)))))
    else if exists i: nat :: i < count && IsFieldOf(key, i) then Missing
    else Get(f, key)
  }

  function ValueAt(f: Json, key: string): Json {
    match Get(f, key)
    case Missing => Null
    case Present(v) => v
  }

  /**
   The flattened payload and the returned count give every field of the original back; only for `msgs`
   itself it takes that there was an array.
   */
  lemma FlatIsLossless(payload: Json, key: string)
    requires payload.Obj? && Distinct(payload.fields) && Flat(payload).Flattened?
    requires key == "msgs" ==> Get(payload, key).value.Arr?
    ensures Get(payload, key) == Original(Flat(payload).payload, Flat(payload).count, key)
  {
    var f, msgs := Flat(payload), PayloadMessages(payload).items;
    FlatFields(payload, msgs, key);
    if key == "msgs" {
      forall i: nat | i < |msgs| ensures ValueAt(f.payload, "msg" + Decimal(i)) == msgs[i] {
        FlatMessage(payload, msgs, i);
      }
      assert Original(f.payload, f.count, key).value.items == msgs;
    }
  }

  /** Two payloads with messages that flatten alike have the same fields. */
  lemma FlatAgrees(p: Json, q: Json, key: string)
    requires p.Obj? && Distinct(p.fields) && q.Obj? && Distinct(q.fields)
    requires Flat(p) == Flat(q) && Flat(p).Flattened? && Flat(p).count > 0
    ensures Get(p, key) == Get(q, key)
  {
    FlatFields(p, PayloadMessages(p).items, key);
    FlatFields(q, PayloadMessages(q).items, key);
    FlatIsLossless(p, key);
    FlatIsLossless(q, key);
  }

  /** The first field of that key with another value. */
  function Replaced(fields: seq<Field>, key: string, value: Json): seq<Field> {
    if fields == [] then []
    else if fields[0].key == key then [Field(key, value)] + fields[1..]
    else [fields[0]] + Replaced(fields[1..], key, value)
  }

  lemma {:induction false} ReplacedFields(fields: seq<Field>, key: string, value: Json)
    ensures Without(Replaced(fields, key, value), key) == Without(fields, key)
    ensures Lookup(fields, key).Present? ==> Lookup(Replaced(fields, key, value), key) == Present(value)
    ensures |Replaced(fields, key, value)| == |fields|
    ensures forall i :: 0 <= i < |fields| ==> Replaced(fields, key, value)[i].key == fields[i].key
  {
    if fields != [] && fields[0].key != key {
      ReplacedFields(fields[1..], key, value);
      assert Replaced(fields, key, value)[1..] == Replaced(fields[1..], key, value);
    }
  }

  /** Without messages, a null and an empty `msgs` make no difference, whatever the other fields are. */
  lemma NullAndEmptyCollide(payload: Json, value: Json)
    requires payload.Obj? && Flat(payload).Flattened? && Flat(payload).count == 0 && value in {Null, Arr([])}
    ensures var twin := Obj(Replaced(payload.fields, "msgs", value));
      && Flat(twin) == Flat(payload) && Get(twin, "msgs") == Present(value)
      && (Distinct(payload.fields) ==> Distinct(twin.fields))
  {
    ReplacedFields(payload.fields, "msgs", value);
    var twin := Obj(Replaced(payload.fields, "msgs", value));
    FlatWithoutMessages(twin);
    FlatWithoutMessages(payload);
  }

  lemma FlatWithoutMessages(payload: Json)
    requires payload.Obj? && PayloadMessages(payload) == Messages([])
    ensures Flat(payload) == Flattened(Obj(Without(payload.fields, "msgs")), 0)
  {
  }

  /** Every payload that flattens alike has the same fields. */
  ghost predicate Determined(p: Json) {
    forall q: Json, key: string :: q.Obj? && Distinct(q.fields) && Flat(q) == Flat(p) ==> Get(q, key) == Get(p, key)
  }

  /** The flattened payload determines the original if and only if that has a message. */
  lemma DeterminedExactly(p: Json)
    requires p.Obj? && Distinct(p.fields) && Flat(p).Flattened?
    ensures Determined(p) <==> !MessagesAre(p, [])
  {
    if PayloadMessages(p).items != [] {
      forall q: Json, key: string | q.Obj? && Distinct(q.fields) && Flat(q) == Flat(p)
        ensures Get(q, key) == Get(p, key)
      {
        FlatAgrees(p, q, key);
      }
    } else {
      var value := if Get(p, "msgs") == Present(Null) then Arr([]) else Null;
      NullAndEmptyCollide(p, value);
      assert Get(Obj(Replaced(p.fields, "msgs", value)), "msgs") != Get(p, "msgs");
    }
  }

  /** Flattening succeeds exactly on payloads whose messages are objects and whose message fields are free. */
  lemma FlatSucceeds(payload: Json)
    requires payload.Obj?
    ensures Flat(payload).Flattened? <==> exists msgs :: MessagesAre(payload, msgs) && CanFlatten(payload, msgs)
  {
    if PayloadMessages(payload).Messages? {
      var msgs := PayloadMessages(payload).items;
      MsgFieldInjective();
      WithMessagesSucceeds(MsgField, payload.fields, msgs, |msgs|);
      assert MessagesAre(payload, msgs);
      CanFlattenFields(payload, msgs);
    }
  }

  ghost predicate CanFlatten(payload: Json, msgs: seq<Json>) {
    forall i :: 0 <= i < |msgs| ==> CanFlattenOne(payload, msgs, i)
  }

  /** The message is an object, and the field of its number is free. */
  ghost predicate CanFlattenOne(payload: Json, msgs: seq<Json>, i: nat)
    requires i < |msgs|
  {
    msgs[i].Obj? && Get(payload, "msg" + Decimal(i)) == Missing
  }

  lemma CanFlattenFields(payload: Json, msgs: seq<Json>)
    requires payload.Obj?
    ensures CanFlatten(payload, msgs) <==>
            forall i :: 0 <= i < |msgs| ==> msgs[i].Obj? && Lookup(payload.fields, MsgField(i)).Missing?
  {
    forall i | 0 <= i < |msgs|
      ensures CanFlattenOne(payload, msgs, i) <==> msgs[i].Obj? && Lookup(payload.fields, MsgField(i)).Missing?
    {
    }
  }

  lemma {:induction false} WithMessagesSucceeds(name: nat -> string, fields: seq<Field>, msgs: seq<Json>, n: nat)
    requires Injective(name) && n <= |msgs|
    ensures WithMessages(name, fields, msgs, n).Fields? <==>
            forall i :: 0 <= i < n ==> msgs[i].Obj? && Lookup(fields, name(i)).Missing?
    decreases n
  {
    if n > 0 {
      WithMessagesSucceeds(name, fields, msgs, n - 1);
      if WithMessages(name, fields, msgs, n - 1).Fields? {
        LookupNext(name, fields, msgs, n - 1);
      }
    }
  }

  // ---------- From payload to schema ----------

  lemma {:induction false} WithMessagesSafe(name: nat -> string, fields: seq<Field>, msgs: seq<Json>, n: nat)
    requires n <= |msgs| && WithMessages(name, fields, msgs, n).Fields?
    requires SafeKeys(Obj(fields)) && (forall m :: m in msgs ==> SafeKeys(m)) && forall i: nat :: PathSafe(name(i))
    ensures SafeKeys(Obj(WithMessages(name, fields, msgs, n).fields))
    decreases n
  {
    if n > 0 {
      WithMessagesSafe(name, fields, msgs, n - 1);
      assert msgs[n - 1] in msgs;
    }
  }

  lemma {:induction false} WithoutSafe(fields: seq<Field>, key: string)
    ensures forall f :: f in Without(fields, key) ==> f in fields
  {
    if fields != [] {
      WithoutSafe(fields[1..], key);
    }
  }

  lemma FlatSafe(payload: Json)
    requires payload.Obj? && SafeKeys(payload) && Flat(payload).Flattened?
    ensures SafeKeys(Flat(payload).payload)
  {
    var msgs := PayloadMessages(payload).items;
    if msgs != [] {
      assert Field("msgs", Arr(msgs)) in payload.fields;
      assert SafeKeys(Arr(msgs));
    }
    assert payload == Obj(payload.fields);
    forall i: nat ensures PathSafe(MsgField(i)) { DecimalAlnum(i); }
    WithMessagesSafe(MsgField, payload.fields, msgs, |msgs|);
    WithoutSafe(WithMessages(MsgField, payload.fields, msgs, |msgs|).fields, "msgs");
  }

  /** The k-th entry of `Tx` has that name, and its type describes the message. */
  ghost predicate IsEntry(m: TypeMap, k: nat, name: string, msg: Json) {
    "Tx" in m && k < |m["Tx"]| && m["Tx"][k].name == name && Describes(m, m["Tx"][k].typ, msg)
  }

  /**
   From a payload to its schema: the i-th message entry of `Tx` describes the i-th element of the
   original `msgs`, in a closed map that keeps the built-in definitions.
   */
  lemma FlattenedSchema(title: string -> string, payload: Json, msgs: seq<Json>, i: nat)
    requires TitleCaser(title) && payload.Obj? && SafeKeys(payload) && Distinct(payload.fields)
    requires Flat(payload).Flattened? && Get(payload, "msgs") == Present(Arr(msgs)) && i < |msgs|
    ensures var f := Flat(payload);
            var r := Create(title, f.payload, f.count);
            r.Types? ==>
              && SchemaOf(r.types, BASE_TYPES, f.payload, f.count)
              && IsEntry(r.types, |BASE_TX| + i, "msg" + Decimal(i), msgs[i])
  {
    var f := Flat(payload);
    FlatSafe(payload);
    FlatFields(payload, msgs, "msgs");
    FlatMessage(payload, msgs, i);
    CreateMeaning(title, f.payload, f.count);
    var r := Create(title, f.payload, f.count);
    if r.Types? {
      assert EntryDescribes(r.types, f.payload, |BASE_TX|, i);
    }
  }
}
