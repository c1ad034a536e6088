/**
 Laws of the `TxResult` wire format: round trip, last-one-wins merging, and indifference to
 unknown fields.
 */
module WireLaws {
  import opened Machine
  import opened Varint
  import opened Wire
  import opened UnknownFields

  // ---------- Unknown fields are ignored ----------

  /** The bytes of one field with a number above 7, as far as skipping can tell. */
  ghost predicate IsUnknown(u: seq<byte>) {
    && |u| < TWO63 && Skip(u) == Skipped(|u|)
    && Read(u, 0).Varint? && FieldNumber(Read(u, 0).value) > 7 && Read(u, 0).value % 8 != 4
  }

  /**
   Whatever bytes decode successfully before it, and whatever bytes follow it, an unknown field makes no
   difference, neither to the message nor to an error.
   */
  lemma UnknownIgnored(m: TxResult, s: seq<byte>, u: seq<byte>, t: seq<byte>)
    requires |s + u + t| < TWO63 && Decode(m, s).Decoded? && IsUnknown(u)
    ensures Decode(m, s + u + t) == Decode(m, s + t)
  {
    var m1 := Decode(m, s).msg;
    assert Step(m1, u) == Stepped(m1, |u|);
    assert u[|u|..] == [];
    assert Decode(m1, u) == Decoded(m1);
    assert s + u + t == s + (u + t);
    DecodeConcat(m, s, u + t);
    DecodeConcat(m1, u, t);
    DecodeConcat(m, s, t);
  }

  function Concat(us: seq<seq<byte>>): seq<byte> {
    if us == [] then [] else us[0] + Concat(us[1..])
  }

  lemma Regrouped(s: seq<byte>, u: seq<byte>, more: seq<byte>, t: seq<byte>)
    ensures s + (u + more) + t == s + u + (more + t) && s + more + t == s + (more + t)
  {
  }

  /** The same for any number of unknown fields in a row. */
  lemma {:induction false} UnknownFieldsIgnored(m: TxResult, s: seq<byte>, us: seq<seq<byte>>, t: seq<byte>)
    requires |s + Concat(us) + t| < TWO63 && Decode(m, s).Decoded? && forall u :: u in us ==> IsUnknown(u)
    ensures Decode(m, s + Concat(us) + t) == Decode(m, s + t)
    decreases us
  {
    if us == [] {
      assert s + Concat(us) + t == s + t;
    } else {
      var more := Concat(us[1..]);
      Regrouped(s, us[0], more, t);
      UnknownIgnored(m, s, us[0], more + t);
      UnknownFieldsIgnored(m, s, us[1..], t);
    }
  }

  /** Every field of the grammar with a number above 7 is such a field, with groups nested to any depth. */
  lemma GrammarIsUnknown(x: Unknown)
    requires WellFormed(x) && FieldNumber(ValueOf(x.tag)) > 7 && |Bytes(x)| < TWO63
    ensures IsUnknown(Bytes(x))
  {
    assert Bytes(x) + [] == Bytes(x);
    SkipUnknown(x, []);
    TagFirst(x);
  }

  lemma TagFirst(x: Unknown)
    requires WellFormed(x)
    ensures Read(Bytes(x), 0) == Varint(ValueOf(x.tag), |x.tag|)
  {
    assert Bytes(x) == x.tag + Bytes(x)[|x.tag|..];
    ReadVarint(x.tag, Bytes(x)[|x.tag|..]);
  }

  // ---------- Streams of known and unknown fields ----------

  /** What a sender may put on the wire, in any order and any number of times. */
  datatype Item = Known(tag: seq<byte>, value: seq<byte>) | Extra(bytes: seq<byte>)

  ghost predicate ValidItem(x: Item) {
    match x
    case Known(tag, value) => IsTag(tag, 0) && 1 <= FieldNumber(ValueOf(tag)) <= 7 && IsVarint(value)
    case Extra(u) => IsUnknown(u)
  }

  function ItemBytes(x: Item): seq<byte> {
    match x
    case Known(tag, value) => tag + value
    case Extra(u) => u
  }

  function StreamBytes(xs: seq<Item>): seq<byte> {
    if xs == [] then [] else ItemBytes(xs[0]) + StreamBytes(xs[1..])
  }

  /** The meaning of a stream: known fields overwrite, unknown fields say nothing. */
  function Apply(m: TxResult, xs: seq<Item>): TxResult
    decreases xs
  {
    if xs == [] then m else Apply(ApplyOne(m, xs[0]), xs[1..])
  }

  function ApplyOne(m: TxResult, x: Item): TxResult {
    if x.Known? && 1 <= FieldNumber(ValueOf(x.tag)) <= 7 then SetField(m, FieldNumber(ValueOf(x.tag)), ValueOf(x.value))
    else m
  }

  lemma StepItem(m: TxResult, x: Item)
    requires ValidItem(x) && |ItemBytes(x)| < TWO63
    ensures Step(m, ItemBytes(x)) == Stepped(ApplyOne(m, x), |ItemBytes(x)|)
  {
    if x.Known? {
      StepKnown(m, x.tag, x.value, []);
      assert x.tag + x.value + [] == x.tag + x.value;
    }
  }

  lemma StepKnown(m: TxResult, tag: seq<byte>, value: seq<byte>, rest: seq<byte>)
    requires IsTag(tag, 0) && 1 <= FieldNumber(ValueOf(tag)) <= 7 && IsVarint(value)
    requires |tag + value + rest| < TWO63
    ensures Step(m, tag + value + rest) ==
            Stepped(SetField(m, FieldNumber(ValueOf(tag)), ValueOf(value)), |tag| + |value|)
  {
    var s := tag + value + rest;
    assert s == tag + (value + rest) && s[|tag|..] == value + rest;
    ReadVarint(tag, value + rest);
    ReadVarint(value, rest);
  }

  /** Decoding computes the meaning of every stream of well-formed fields. */
  lemma {:induction false} DecodeStream(m: TxResult, xs: seq<Item>)
    requires forall x :: x in xs ==> ValidItem(x)
    requires |StreamBytes(xs)| < TWO63
    ensures Decode(m, StreamBytes(xs)) == Decoded(Apply(m, xs))
    decreases xs
  {
    if xs != [] {
      var first, rest := ItemBytes(xs[0]), StreamBytes(xs[1..]);
      StepItem(m, xs[0]);
      StepPrefix(m, first, rest);
      assert (first + rest)[|first|..] == rest;
      DecodeStream(ApplyOne(m, xs[0]), xs[1..]);
    }
  }

  // ---------- Round trip and merge ----------

  /** `m` after fields `k` to 7 with the non-zero values of `vs` were read into it. */
  function SetFrom(m: TxResult, vs: seq<uint64>, k: nat): TxResult
    requires |vs| == 7 && 1 <= k <= 8
    decreases 8 - k
  {
    if k == 8 then m
    else SetFrom(SetNonZero(m, k, vs[k - 1]), vs, k + 1)
  }

  /** A field as the writer puts it. */
  lemma StepField(m: TxResult, k: nat, v: uint64, rest: seq<byte>)
    requires 1 <= k <= 7 && |[8 * k] + Encode(v) + rest| < TWO63
    ensures Step(m, [8 * k] + Encode(v) + rest) == Stepped(SetField(m, k, v), 1 + |Encode(v)|)
  {
    assert Read([8 * k], 0) == Varint(8 * k, 1);
    assert FieldNumber(8 * k) == k;
    EncodeIsVarint(v);
    StepKnown(m, [8 * k], Encode(v), rest);
  }

  lemma DecodeField(m: TxResult, k: nat, v: uint64, rest: seq<byte>)
    requires 1 <= k <= 7 && |[8 * k] + Encode(v) + rest| < TWO63
    ensures Decode(m, [8 * k] + Encode(v) + rest) == Decode(SetField(m, k, v), rest)
  {
    StepField(m, k, v, rest);
    assert ([8 * k] + Encode(v) + rest)[1 + |Encode(v)|..] == rest;
  }

  lemma {:induction false} DecodeFields(m: TxResult, vs: seq<uint64>, k: nat)
    requires |vs| == 7 && 1 <= k <= 8
    requires |FieldsFrom(vs, k)| < TWO63
    ensures Decode(m, FieldsFrom(vs, k)) == Decoded(SetFrom(m, vs, k))
    decreases 8 - k
  {
    if k < 8 {
      var v, rest := vs[k - 1], FieldsFrom(vs, k + 1);
      if v == 0 {
        assert FieldsFrom(vs, k) == rest;
        DecodeFields(m, vs, k + 1);
      } else {
        DecodeField(m, k, v, rest);
        assert FieldsFrom(vs, k) == [8 * k] + Encode(v) + rest;
        DecodeFields(SetField(m, k, v), vs, k + 1);
      }
    }
  }

  /** `a` overridden by the fields of `b` that are not zero. */
  function Override(a: TxResult, b: TxResult): TxResult {
    TxResult(
      if b.height != 0 then b.height else a.height,
      if b.txIndex != 0 then b.txIndex else a.txIndex,
      if b.msgIndex != 0 then b.msgIndex else a.msgIndex,
      if b.ethTxIndex != 0 then b.ethTxIndex else a.ethTxIndex,
      a.failed || b.failed,
      if b.gasUsed != 0 then b.gasUsed else a.gasUsed,
      if b.cumulativeGasUsed != 0 then b.cumulativeGasUsed else a.cumulativeGasUsed)
  }

  /** Each value is read back as it was written, in particular a negative one. */
  lemma ValueRoundTrip(b: TxResult)
    ensures Signed64(ToUint64(b.height)) == b.height && Signed32(ToUint64(b.ethTxIndex)) == b.ethTxIndex
    ensures b.txIndex % TWO32 == b.txIndex && b.msgIndex % TWO32 == b.msgIndex
    ensures b.gasUsed % TWO64 == b.gasUsed && b.cumulativeGasUsed % TWO64 == b.cumulativeGasUsed
    ensures BoolValue(b.failed) % TWO64 != 0 <==> b.failed
  {
  }

  lemma SetFromIsOverride(m: TxResult, b: TxResult)
    ensures SetFrom(m, Values(b), 1) == Override(m, b)
  {
    ValueRoundTrip(b);
    var vs, o := Values(b), Override(m, b);
    var m2 := m.(height := o.height, txIndex := o.txIndex);
    var m4 := m2.(msgIndex := o.msgIndex, ethTxIndex := o.ethTxIndex);
    var m6 := m4.(failed := o.failed, gasUsed := o.gasUsed);
    SetTwo(m, vs, 1);
    SetTwo(m2, vs, 3);
    SetTwo(m4, vs, 5);
    assert SetFrom(m6, vs, 7) == o;
  }

  function SetNonZero(m: TxResult, k: nat, v: uint64): TxResult
    requires 1 <= k <= 7
  {
    if v == 0 then m else SetField(m, k, v)
  }

  lemma SetTwo(m: TxResult, vs: seq<uint64>, k: nat)
    requires |vs| == 7 && 1 <= k <= 6
    ensures SetFrom(m, vs, k) == SetFrom(SetNonZero(SetNonZero(m, k, vs[k - 1]), k + 1, vs[k]), vs, k + 2)
  {
  }

  lemma FieldsSize(vs: seq<uint64>, k: nat)
    requires |vs| == 7 && 1 <= k <= 8
    ensures |FieldsFrom(vs, k)| <= 11 * (8 - k)
    decreases 8 - k
  {
    if k < 8 {
      RoomForUint64();
      EncodeAtMostTen(vs[k - 1], 0);
      FieldsSize(vs, k + 1);
    }
  }

  lemma {:induction false} EncodeAtMostTen(v: nat, k: nat)
    requires k < 10 && v < Room(k)
    ensures |Encode(v)| <= 10 - k
    decreases v
  {
    if v >= 128 {
      EncodeAtMostTen(v / 128, k + 1);
    }
  }

  /** Decoding a marshalled message into `m` overrides exactly its non-zero fields. */
  lemma DecodeMarshalled(m: TxResult, b: TxResult)
    ensures |Marshalled(b)| <= 77
    ensures Decode(m, Marshalled(b)) == Decoded(Override(m, b))
  {
    FieldsSize(Values(b), 1);
    DecodeFields(m, Values(b), 1);
    SetFromIsOverride(m, b);
  }

  /** Unmarshalling a marshalled message into a fresh one gives it back. */
  lemma RoundTrip(m: TxResult)
    ensures |Marshalled(m)| <= 77
    ensures Decode(ZERO, Marshalled(m)) == Decoded(m)
  {
    DecodeMarshalled(ZERO, m);
  }

  /** Last one wins: two marshalled messages in a row decode to their merge. */
  lemma Merge(a: TxResult, b: TxResult)
    ensures |Marshalled(a) + Marshalled(b)| <= 154
    ensures Decode(ZERO, Marshalled(a) + Marshalled(b)) == Decoded(Override(a, b))
  {
    DecodeMarshalled(ZERO, a);
    DecodeMarshalled(a, b);
    DecodeConcat(ZERO, Marshalled(a), Marshalled(b));
  }

  /** The one message that marshals to no bytes at all is the zero message. */
  lemma EmptyOnlyForZero(m: TxResult)
    ensures Marshalled(m) == [] <==> m == ZERO
  {
    RoundTrip(m);
    assert Decode(ZERO, []) == Decoded(ZERO);
    if m == ZERO {
      EmptyFrom(Values(m), 1);
    }
  }

  lemma EmptyFrom(vs: seq<uint64>, k: nat)
    requires |vs| == 7 && 1 <= k <= 8 && forall j :: 0 <= j < 7 ==> vs[j] == 0
    ensures FieldsFrom(vs, k) == []
    decreases 8 - k
  {
  }
}
