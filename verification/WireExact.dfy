/**
 Which bytes the decoder of types/indexer.pb.go accepts, and what it makes of them: varints of at most
 ten bytes, streams of the seven known fields and of well-formed unknown ones, and nothing else.
 */
module WireExact {
  import opened Machine
  import opened Varint
  import opened Wire
  import opened UnknownFields
  import opened WireLaws

  // ---------- Varints ----------

  /** Seven bits of each byte, the least significant first. */
  ghost function Base128(s: seq<byte>): nat {
    if s == [] then 0 else s[0] % 128 + 128 * Base128(s[1..])
  }

  /** The first `n` bytes have their high bit set. */
  ghost predicate Continued(s: seq<byte>, n: nat) {
    n <= |s| && forall i :: 0 <= i < n ==> s[i] >= 128
  }

  /** A varint ends at its first byte without the high bit, if that is among the first ten. */
  lemma {:induction false} ReadEnds(s: seq<byte>, k: nat, n: nat)
    requires Continued(s, n) && n < |s| && s[n] < 128 && k + n < 10
    ensures Read(s, k) == Varint(Base128(s[..n + 1]), n + 1)
    decreases n
  {
    if n > 0 {
      ReadEnds(s[1..], k + 1, n - 1);
      assert s[..n + 1][1..] == s[1..][..n];
    } else {
      assert s[..1][1..] == [];
    }
  }

  /** Fewer than ten bytes, none of which ends it, are a truncated varint. */
  lemma {:induction false} ReadRunsOut(s: seq<byte>, k: nat)
    requires Continued(s, |s|) && k + |s| < 10
    ensures Read(s, k) == BadVarint(UnexpectedEOF, Base128(s))
    decreases |s|
  {
    if s != [] {
      ReadRunsOut(s[1..], k + 1);
    }
  }

  /** Ten bytes, none of which ends it, are an overlong one. */
  lemma {:induction false} ReadOverflows(s: seq<byte>, k: nat, n: nat)
    requires Continued(s, n) && k + n == 10
    ensures Read(s, k) == BadVarint(IntOverflow, Base128(s[..n]))
    decreases n
  {
    if n > 0 {
      ReadOverflows(s[1..], k + 1, n - 1);
      assert s[..n][1..] == s[1..][..n - 1];
    }
  }

  /** What a read gives, by the number of leading bytes with the high bit set. */
  lemma {:induction false} ReadExactly(s: seq<byte>, n: nat)
    requires Continued(s, n) && n <= 10
    ensures n == 10 ==> Read(s, 0) == BadVarint(IntOverflow, Base128(s[..10]))
    ensures n < 10 && n == |s| ==> Read(s, 0) == BadVarint(UnexpectedEOF, Base128(s))
    ensures n < 10 && n < |s| && s[n] < 128 ==> Read(s, 0) == Varint(Base128(s[..n + 1]), n + 1)
  {
    if n == 10 {
      ReadOverflows(s, 0, n);
    } else if n == |s| {
      ReadRunsOut(s, 0);
    } else if s[n] < 128 {
      ReadEnds(s, 0, n);
    }
  }

  lemma {:induction false} AtMostTen(s: seq<byte>, k: nat)
    requires Read(s, k).Varint?
    ensures k + Read(s, k).size <= 10
    decreases |s|
  {
    if s[0] >= 128 {
      AtMostTen(s[1..], k + 1);
    }
  }

  // ---------- What is accepted ----------

  ghost predicate ValidStream(xs: seq<Item>) {
    forall x :: x in xs ==> ValidItem(x)
  }

  /** Every step is over one item of the grammar. */
  lemma SteppedIsItem(m: TxResult, s: seq<byte>) returns (x: Item)
    requires |s| < TWO63 && Step(m, s).Stepped?
    ensures ValidItem(x) && ItemBytes(x) == s[..Step(m, s).size] && Step(m, s).msg == ApplyOne(m, x)
  {
    var n := Read(s, 0).size;
    ReadCut(s, 0);
    if FieldNumber(Read(s, 0).value) <= 7 {
      var rest := s[n..];
      var k := Read(rest, 0).size;
      ReadCut(rest, 0);
      x := Known(s[..n], rest[..k]);
      assert s[..n] + rest[..k] == s[..n + k];
    } else {
      var k := Skip(s).size;
      UnknownCut(s, k);
      x := Extra(s[..k]);
    }
  }

  lemma UnknownCut(s: seq<byte>, k: nat)
    requires |s| < TWO63 && Skip(s) == Skipped(k) && k <= |s|
    requires Read(s, 0).Varint? && FieldNumber(Read(s, 0).value) > 7
    ensures IsUnknown(s[..k])
  {
    SkippedIsField(s, k);
    var x :| WellFormed(x) && Bytes(x) == s[..k];
    SameTag(x, s, k);
    GrammarIsUnknown(x);
  }

  lemma SameTag(x: Unknown, s: seq<byte>, k: nat)
    requires WellFormed(x) && k <= |s| && Bytes(x) == s[..k]
    ensures Read(s, 0).Varint? && Read(s, 0).value == ValueOf(x.tag)
  {
    TagFirst(x);
    assert s[..k] + s[k..] == s;
    ReadPrefix(s[..k], s[k..], 0);
  }

  /** Whatever decodes is a stream of such items, and decodes to its meaning. */
  lemma {:induction false} DecodedIsStream(m: TxResult, s: seq<byte>) returns (xs: seq<Item>)
    requires |s| < TWO63 && Decode(m, s).Decoded?
    ensures ValidStream(xs) && StreamBytes(xs) == s && Decode(m, s) == Decoded(Apply(m, xs))
    decreases |s|
  {
    xs := [];
    if s != [] {
      var n := Step(m, s).size;
      var x := SteppedIsItem(m, s);
      var rest := DecodedIsStream(Step(m, s).msg, s[n..]);
      xs := [x] + rest;
      assert xs[1..] == rest && s[..n] + s[n..] == s;
    }
  }

  /** The decoder accepts exactly the streams of known and unknown fields. */
  lemma DecodesExactly(m: TxResult, s: seq<byte>)
    requires |s| < TWO63
    ensures Decode(m, s).Decoded? <==> exists xs :: ValidStream(xs) && StreamBytes(xs) == s
  {
    if Decode(m, s).Decoded? {
      var xs := DecodedIsStream(m, s);
    }
    if xs :| ValidStream(xs) && StreamBytes(xs) == s {
      DecodeStream(m, xs);
    }
  }

  // ---------- How the rest is refused ----------

  /** The error for a field that is refused by its tag, or for want of a value, and the message it leaves. */
  lemma Refusals(m: TxResult, tag: seq<byte>, rest: seq<byte>)
    requires IsVarint(tag) && |tag + rest| < TWO63
    ensures var num, wireType, step := FieldNumber(ValueOf(tag)), ValueOf(tag) % 8, Step(m, tag + rest);
      && (wireType == 4 ==> step == BadStep(EndGroupForNonGroup, m))
      && (wireType != 4 && num <= 0 ==> step == BadStep(IllegalTag, m))
      && (wireType !in {0, 4} && 1 <= num <= 7 ==> step == BadStep(WrongWireType, m))
      && (wireType == 0 && 1 <= num <= 7 && Read(rest, 0).BadVarint? ==>
            step == BadStep(Read(rest, 0).error, if num == 5 then m else SetField(m, num, Read(rest, 0).partial)))
      && (wireType != 4 && num > 7 && step.BadStep? ==> step.left == m)
  {
    ReadVarint(tag, rest);
    assert (tag + rest)[|tag|..] == rest;
  }

  /** What skipping says of a field outside of any group, by the wire type of its tag. */
  lemma SkipRefusals(tag: seq<byte>, rest: seq<byte>)
    requires IsVarint(tag) && |tag + rest| < TWO63
    ensures var wireType, skip := ValueOf(tag) % 8, Skip(tag + rest);
      && (wireType in {6, 7} ==> skip == BadSkip(IllegalWireType))
      && (wireType == 4 ==> skip == BadSkip(UnexpectedEndOfGroup))
      && (wireType in {0, 2} && Read(rest, 0).BadVarint? ==> skip == BadSkip(Read(rest, 0).error))
      && (wireType == 2 && Read(rest, 0).Varint? && Signed64(Read(rest, 0).value) < 0 ==>
            skip == BadSkip(InvalidLength))
      && (wireType == 3 && rest == [] ==> skip == BadSkip(UnexpectedEOF))
  {
    ReadVarint(tag, rest);
    assert (tag + rest)[|tag|..] == rest;
    if ValueOf(tag) % 8 == 3 && rest == [] {
      assert NextToken(tag + rest) == Token(3, |tag|);
      assert SkipBy(NextToken, rest, |tag|, 1) == BadSkip(UnexpectedEOF);
    }
  }

  /** Bytes that do not begin with a tag are refused as the varint that they fail to be. */
  lemma NoTag(m: TxResult, s: seq<byte>)
    requires |s| < TWO63 && Read(s, 0).BadVarint?
    ensures Step(m, s) == BadStep(Read(s, 0).error, m)
  {
  }

  /** After a stream of good fields, decoding fails as its first bad field does, with what was read by then. */
  lemma FirstBadField(m: TxResult, xs: seq<Item>, t: seq<byte>)
    requires ValidStream(xs) && t != [] && |StreamBytes(xs) + t| < TWO63 && Step(Apply(m, xs), t).BadStep?
    ensures var bad := Step(Apply(m, xs), t); Decode(m, StreamBytes(xs) + t) == BadMessage(bad.error, bad.left)
  {
    DecodeStream(m, xs);
    DecodeConcat(m, StreamBytes(xs), t);
  }

  // ---------- What the fields mean ----------

  /** The bytes are one field, which turns `m` into `m'`. */
  ghost predicate Sets(m: TxResult, s: seq<byte>, m': TxResult) {
    |s| < TWO63 && Decode(m, s) == Decoded(m')
  }

  /** The seven fields by their tags, each with a value of any size. */
  lemma FieldMeanings(m: TxResult, value: seq<byte>)
    requires IsVarint(value)
    ensures var v := ValueOf(value);
      && Sets(m, [0x08] + value, m.(height := Signed64(v)))
      && Sets(m, [0x10] + value, m.(txIndex := v % 0x1_0000_0000))
      && Sets(m, [0x18] + value, m.(msgIndex := v % 0x1_0000_0000))
      && Sets(m, [0x20] + value, m.(ethTxIndex := Signed32(v)))
      && Sets(m, [0x28] + value, m.(failed := v % TWO64 != 0))
      && Sets(m, [0x30] + value, m.(gasUsed := v % TWO64))
      && Sets(m, [0x38] + value, m.(cumulativeGasUsed := v % TWO64))
  {
    var v := ValueOf(value);
    OneField(m, 1, 0x08, value, m.(height := Signed64(v)));
    OneField(m, 2, 0x10, value, m.(txIndex := v % 0x1_0000_0000));
    OneField(m, 3, 0x18, value, m.(msgIndex := v % 0x1_0000_0000));
    OneField(m, 4, 0x20, value, m.(ethTxIndex := Signed32(v)));
    OneField(m, 5, 0x28, value, m.(failed := v % TWO64 != 0));
    OneField(m, 6, 0x30, value, m.(gasUsed := v % TWO64));
    OneField(m, 7, 0x38, value, m.(cumulativeGasUsed := v % TWO64));
  }

  lemma OneField(m: TxResult, k: nat, tag: byte, value: seq<byte>, m': TxResult)
    requires 1 <= k <= 7 && tag == 8 * k && IsVarint(value) && m' == SetField(m, k, ValueOf(value))
    ensures Sets(m, [tag] + value, m')
  {
    AtMostTen(value, 0);
    assert Read([tag], 0) == Varint(tag, 1);
    assert FieldNumber(tag) == k;
    var xs := [Known([tag], value)];
    assert StreamBytes(xs) == [tag] + value + StreamBytes(xs[1..]);
    DecodeStream(m, xs);
  }
}
