/** The generated codec of types/indexer.pb.go, loop by loop, proved against module `Wire`. */
module TxCodec {
  import opened Machine
  import opened Varint
  import opened Wire

  datatype Option<T> = None | Some(value: T)

  // ---------- Sizes ----------

  function FieldSizeOf(v: uint64): nat {
    if v != 0 then 1 + Sov(v) else 0
  }

  /** `Size`: one tag byte and a varint for every field that is not zero; two bytes for `Failed`. */
  function SizeOf(m: TxResult): nat {
    FieldSizeOf(ToUint64(m.height)) + FieldSizeOf(m.txIndex) + FieldSizeOf(m.msgIndex) +
    FieldSizeOf(ToUint64(m.ethTxIndex)) + (if m.failed then 2 else 0) +
    FieldSizeOf(m.gasUsed) + FieldSizeOf(m.cumulativeGasUsed)
  }

  lemma FieldSizeIsLength(tag: byte, v: uint64)
    ensures FieldSizeOf(v) == |FieldBytes(tag, v)|
  {
    SovIsLength(v);
  }

  /** The size announced for a message is the number of bytes written for it. */
  lemma SizeIsLength(m: TxResult)
    ensures SizeOf(m) == |Marshalled(m)|
  {
    var vs := Values(m);
    forall k | 1 <= k <= 7 ensures FieldSizeOf(vs[k - 1]) == |FieldBytes(8 * k, vs[k - 1])| {
      FieldSizeIsLength(8 * k, vs[k - 1]);
    }
    assert FieldSizeOf(1) == 2 by { SovIsLength(1); }
    assert |FieldsFrom(vs, 7)| == FieldSizeOf(vs[6]) + |FieldsFrom(vs, 8)|;
    assert |FieldsFrom(vs, 5)| == FieldSizeOf(vs[4]) + FieldSizeOf(vs[5]) + |FieldsFrom(vs, 7)|;
    assert |FieldsFrom(vs, 3)| == FieldSizeOf(vs[2]) + FieldSizeOf(vs[3]) + |FieldsFrom(vs, 5)|;
    assert |FieldsFrom(vs, 1)| == FieldSizeOf(vs[0]) + FieldSizeOf(vs[1]) + |FieldsFrom(vs, 3)|;
  }

  // ---------- Writing backward ----------

  /** Writes a field so that it ends at `offset`, unless its value is the default. */
  method WriteField(dAtA: array<byte>, offset: nat, tag: byte, v: uint64) returns (i: nat)
    requires |FieldBytes(tag, v)| <= offset <= dAtA.Length
    modifies dAtA
    ensures i + |FieldBytes(tag, v)| == offset
    ensures dAtA[..] == old(dAtA[..i]) + FieldBytes(tag, v) + old(dAtA[offset..])
  {
    i := offset;
    ghost var was := dAtA[..];
    if v != 0 {
      SovIsLength(v);
      i := EncodeVarint(dAtA, i, v);
      WriteTag(dAtA, i, tag, was, Encode(v), was[offset..]);
      i := i - 1;
    }
  }

  /** The tag goes just before what was written last. */
  method WriteTag(dAtA: array<byte>, base: nat, tag: byte, ghost was: seq<byte>, ghost value: seq<byte>,
                  ghost rest: seq<byte>)
    requires 0 < base <= |was| && dAtA[..] == was[..base] + value + rest
    modifies dAtA
    ensures dAtA[..] == was[..base - 1] + ([tag] + value) + rest
  {
    dAtA[base - 1] := tag;
  }

  /** `Failed` needs no varint: its value byte and its tag are written directly. */
  method WriteFailed(dAtA: array<byte>, offset: nat, failed: bool) returns (i: nat)
    requires |FieldBytes(0x28, BoolValue(failed))| <= offset <= dAtA.Length
    modifies dAtA
    ensures i + |FieldBytes(0x28, BoolValue(failed))| == offset
    ensures dAtA[..] == old(dAtA[..i]) + FieldBytes(0x28, BoolValue(failed)) + old(dAtA[offset..])
  {
    i := offset;
    ghost var was := dAtA[..];
    if failed {
      i := i - 1;
      dAtA[i] := 1;
      assert dAtA[..] == was[..i] + [1] + was[offset..];
      WriteTag(dAtA, i, 0x28, was, [1], was[offset..]);
      i := i - 1;
      assert FieldBytes(0x28, 1) == [0x28] + [1];
    }
  }

  /** A field written in front of a tail, in a buffer that was `was` up to there. */
  lemma InFront(before: seq<byte>, after: seq<byte>, was: seq<byte>, offset: nat, i: nat, field: seq<byte>,
                tail: seq<byte>)
    requires i <= offset <= |was| && before == was[..offset] + tail
    requires after == before[..i] + field + before[offset..]
    ensures after == was[..i] + (field + tail)
  {
    assert before[..i] == was[..i] && before[offset..] == tail;
  }

  /** `tails(k)` is field `k` and what follows it. */
  ghost predicate Follows(tails: int -> seq<byte>, k: int, tag: byte, v: uint64) {
    tails(k) == FieldBytes(tag, v) + tails(k + 1)
  }

  ghost function Tails(m: TxResult): int -> seq<byte> {
    k => if 1 <= k <= 8 then FieldsFrom(Values(m), k) else []
  }

  lemma TailsFollow(m: TxResult)
    ensures Follows(Tails(m), 1, 0x08, ToUint64(m.height)) && Follows(Tails(m), 2, 0x10, m.txIndex)
    ensures Follows(Tails(m), 3, 0x18, m.msgIndex) && Follows(Tails(m), 4, 0x20, ToUint64(m.ethTxIndex))
    ensures Follows(Tails(m), 5, 0x28, BoolValue(m.failed)) && Follows(Tails(m), 6, 0x30, m.gasUsed)
    ensures Follows(Tails(m), 7, 0x38, m.cumulativeGasUsed)
    ensures Tails(m)(1) == Marshalled(m) && Tails(m)(8) == []
  {
    TailFollows(m, 1, 0x08);
    TailFollows(m, 2, 0x10);
    TailFollows(m, 3, 0x18);
    TailFollows(m, 4, 0x20);
    TailFollows(m, 5, 0x28);
    TailFollows(m, 6, 0x30);
    TailFollows(m, 7, 0x38);
  }

  lemma TailFollows(m: TxResult, k: nat, tag: byte)
    requires 1 <= k <= 7 && tag == 8 * k
    ensures Follows(Tails(m), k, tag, Values(m)[k - 1])
  {
    assert FieldsFrom(Values(m), k) == FieldBytes(tag, Values(m)[k - 1]) + FieldsFrom(Values(m), k + 1);
  }

  /** The buffer was `was` up to `i`, and holds `tails(k)` from there to its end. */
  ghost predicate Filled(now: seq<byte>, was: seq<byte>, i: nat, tails: int -> seq<byte>, k: int) {
    i + |tails(k)| == |was| && now == was[..i] + tails(k)
  }

  /** Writes field `k` in front of the fields after it. */
  method PutField(dAtA: array<byte>, offset: nat, tag: byte, v: uint64,
                  ghost was: seq<byte>, ghost tails: int -> seq<byte>, ghost k: int) returns (i: nat)
    requires Follows(tails, k, tag, v) && |tails(k)| <= |was| && Filled(dAtA[..], was, offset, tails, k + 1)
    modifies dAtA
    ensures Filled(dAtA[..], was, i, tails, k)
  {
    ghost var before := dAtA[..];
    i := WriteField(dAtA, offset, tag, v);
    InFront(before, dAtA[..], was, offset, i, FieldBytes(tag, v), tails(k + 1));
  }

  method PutFailed(dAtA: array<byte>, offset: nat, failed: bool, ghost was: seq<byte>, ghost tails: int -> seq<byte>)
    returns (i: nat)
    requires Follows(tails, 5, 0x28, BoolValue(failed)) && |tails(5)| <= |was|
    requires Filled(dAtA[..], was, offset, tails, 6)
    modifies dAtA
    ensures Filled(dAtA[..], was, i, tails, 5)
  {
    ghost var before := dAtA[..];
    i := WriteFailed(dAtA, offset, failed);
    InFront(before, dAtA[..], was, offset, i, FieldBytes(0x28, BoolValue(failed)), tails(6));
  }

  // ---------- Reading ----------

  /** What the truncation to an accumulator's width leaves of a varint. */
  lemma Truncation(raw: nat)
    ensures raw % TWO64 % 8 == raw % 8
    ensures Signed32(raw % TWO64 / 8) == FieldNumber(raw)
    ensures Signed64(raw % TWO64) == Signed64(raw)
    ensures Signed32(raw % TWO32) == Signed32(raw)
  {
    LowBits(raw, TWO64 / 8, 8);
  }

  lemma LowBits(raw: nat, high: nat, low: nat)
    requires high >= 1 && low >= 1
    ensures raw % (low * high) % low == raw % low
  {
    var m := low * high;
    var q, r := raw / m, raw % m;
    var q', r' := r / low, r % low;
    assert raw == low * (high * q + q') + r' by {
      assert raw == m * q + r && r == low * q' + r';
      assert m * q == low * (high * q);
      assert low * (high * q + q') == low * (high * q) + low * q';
    }
    DivModUnique(raw, low, high * q + q', r');
  }

  /** A varint read into a 64-bit accumulator. */
  method ReadVarint64(dAtA: seq<byte>, start: nat) returns (r: VarintRead)
    requires start <= |dAtA|
    ensures r == match Read(dAtA[start..], 0)
                 case BadVarint(e, p) => BadVarint(e, p % TWO64)
                 case Varint(v, n) => Varint(v % TWO64, n)
  {
    Width64(64);
    r := ReadLoop(dAtA, start, 64);
  }

  method FieldSizeAt(dAtA: seq<byte>, start: nat, wireType: int) returns (r: SkipResult)
    requires start <= |dAtA|
    ensures r == FieldSize(dAtA[start..], wireType)
  {
    match wireType {
      case 0 =>
        var v := ReadVarint64(dAtA, start);
        return if v.BadVarint? then BadSkip(v.error) else Skipped(v.size);
      case 1 =>
        return Skipped(8);
      case 2 =>
        var v := ReadVarint64(dAtA, start);
        if v.BadVarint? {
          return BadSkip(v.error);
        }
        Truncation(Read(dAtA[start..], 0).value);
        var length := Signed64(v.value);
        return if length < 0 then BadSkip(InvalidLength) else Skipped(v.size + length);
      case 3 =>
        return Skipped(0);
      case 4 =>
        return Skipped(0);
      case 5 =>
        return Skipped(4);
      case _ =>
        return BadSkip(IllegalWireType);
    }
  }

  method TokenAt(dAtA: seq<byte>, start: nat) returns (r: TokenResult)
    requires start <= |dAtA|
    ensures r == NextToken(dAtA[start..])
  {
    var tag := ReadVarint64(dAtA, start);
    if tag.BadVarint? {
      return BadToken(tag.error);
    }
    Truncation(Read(dAtA[start..], 0).value);
    assert dAtA[start..][tag.size..] == dAtA[start + tag.size..];
    var body := FieldSizeAt(dAtA, start + tag.size, tag.value % 8);
    return if body.BadSkip? then BadToken(body.error) else Token(tag.value % 8, tag.size + body.size);
  }

  /** A length prefix is below 2^63, so an index that passes 2^63 wraps exactly once. */
  lemma TokenSizeBound(s: seq<byte>)
    requires NextToken(s).Token?
    ensures NextToken(s).size < |s| + TWO63
  {
  }

  /** The sum of two Go `int`s whose mathematical sum is below 2^64. */
  function WrapInt(x: nat): int64
    requires x < TWO64
  {
    if x < TWO63 then x else x - TWO64
  }

  /** What is left of the skipping loop when the index stands at `pos`. */
  ghost function SkipFrom(next: Tokenizer, dAtA: seq<byte>, pos: nat, depth: nat): SkipResult
    requires |dAtA| < TWO63
  {
    if pos > |dAtA| then BadSkip(UnexpectedEOF) else SkipBy(next, dAtA[pos..], pos, depth)
  }

  /** One turn of the skipping loop. */
  lemma SkipTurn(next: Tokenizer, dAtA: seq<byte>, pos: nat, depth: nat, wireType: int, n: Size)
    requires pos < |dAtA| < TWO63 && next(dAtA[pos..]) == Token(wireType, n)
    ensures SkipFrom(next, dAtA, pos, depth) ==
            if wireType == 4 && depth == 0 then BadSkip(UnexpectedEndOfGroup)
            else if pos + n >= TWO63 then BadSkip(InvalidLength)
            else if DepthAfter(wireType, depth) == 0 then Skipped(pos + n)
            else SkipFrom(next, dAtA, pos + n, DepthAfter(wireType, depth))
  {
    if pos + n <= |dAtA| {
      assert dAtA[pos..][n..] == dAtA[pos + n..];
    }
  }

  /** `skipIndexer`. */
  method SkipLoop(dAtA: seq<byte>) returns (r: SkipResult)
    requires |dAtA| < TWO63
    ensures r == Skip(dAtA)
  {
    var iNdEx: int := 0;
    var depth: nat := 0;
    assert dAtA[0..] == dAtA;
    while iNdEx < |dAtA|
      invariant 0 <= iNdEx
      invariant Skip(dAtA) == SkipFrom(NextToken, dAtA, iNdEx, depth)
      decreases |dAtA| - iNdEx
    {
      var token := TokenAt(dAtA, iNdEx);
      if token.BadToken? {
        return BadSkip(token.error);
      }
      SkipTurn(NextToken, dAtA, iNdEx, depth, token.wireType, token.size);
      TokenSizeBound(dAtA[iNdEx..]);
      if token.wireType == 4 && depth == 0 {
        return BadSkip(UnexpectedEndOfGroup);
      }
      depth := DepthAfter(token.wireType, depth);
      iNdEx := WrapInt(iNdEx + token.size);
      if iNdEx < 0 {
        return BadSkip(InvalidLength);
      }
      if depth == 0 {
        return Skipped(iNdEx);
      }
    }
    return BadSkip(UnexpectedEOF);
  }

  /**
   The error reported for the field at position `at` of a message, of which `s` is the rest: where a field
   claims bytes past the end, it depends on whether that end, counted from the start, overflows an `int`.
   */
  function ErrorAt(e: WireError, s: seq<byte>, at: nat): WireError
    requires |s| < TWO63
  {
    if e == UnexpectedEOF && Skip(s).Skipped? && at + Skip(s).size >= TWO63 then InvalidLength else e
  }

  /** The error with which decoding `dAtA` from position `at` on fails. */
  ghost function ErrorFrom(m: TxResult, dAtA: seq<byte>, at: nat): WireError
    requires at <= |dAtA| < TWO63
    decreases |dAtA| - at
  {
    if at == |dAtA| then UnexpectedEOF
    else
      match Step(m, dAtA[at..])
      case BadStep(e, _) => ErrorAt(e, dAtA[at..], at)
      case Stepped(m', n) => ErrorFrom(m', dAtA, at + n)
  }

  /** A known field is not skipped past the end: its varint is read or it is not. */
  lemma KnownError(s: seq<byte>, at: nat, e: WireError)
    requires |s| < TWO63 && Read(s, 0).Varint? && Read(s, 0).value % 8 == 0
    requires Read(s[Read(s, 0).size..], 0).BadVarint?
    ensures Skip(s).BadSkip? && ErrorAt(e, s, at) == e
  {
    assert s != [];
    assert NextToken(s).BadToken?;
  }

  lemma DecodeTurn(m: TxResult, dAtA: seq<byte>, at: nat, m': TxResult, n: nat)
    requires at < |dAtA| < TWO63 && Step(m, dAtA[at..]) == Stepped(m', n)
    ensures Decode(m, dAtA[at..]) == Decode(m', dAtA[at + n..])
  {
    assert dAtA[at..][n..] == dAtA[at + n..];
  }

  lemma ErrorTurn(m: TxResult, dAtA: seq<byte>, at: nat, m': TxResult, n: nat)
    requires at < |dAtA| < TWO63 && Step(m, dAtA[at..]) == Stepped(m', n)
    ensures ErrorFrom(m, dAtA, at) == ErrorFrom(m', dAtA, at + n)
  {
  }

  /** From position `at` on, decoding into `m` gives `result`, or fails with `error`. */
  ghost predicate Ahead(dAtA: seq<byte>, result: DecodeResult, error: WireError, m: TxResult, at: int) {
    0 <= at <= |dAtA| < TWO63 && Decode(m, dAtA[at..]) == result && ErrorFrom(m, dAtA, at) == error
  }

  ghost predicate Ended(result: DecodeResult, error: WireError, m: TxResult, err: Option<WireError>) {
    match result
    case Decoded(msg) => err == None && m == msg
    case BadMessage(_, left) => err == Some(error) && m == left
  }

  /** What a turn of the loop has to do for whatever is said of the states before it and after the loop. */
  ghost predicate Turns(dAtA: seq<byte>, m: TxResult, at: int,
                        ahead: (TxResult, int) -> bool, ended: (TxResult, Option<WireError>) -> bool) {
    0 <= at < |dAtA| < TWO63 &&
    match Step(m, dAtA[at..])
    case Stepped(m', n) => ahead(m', at + n)
    case BadStep(e, left) => ended(left, Some(ErrorAt(e, dAtA[at..], at)))
  }

  lemma AheadTurns(dAtA: seq<byte>, result: DecodeResult, error: WireError, m: TxResult, at: int)
    requires at < |dAtA| && Ahead(dAtA, result, error, m, at)
    ensures Turns(dAtA, m, at, (m, at) => Ahead(dAtA, result, error, m, at), (m, err) => Ended(result, error, m, err))
  {
    var ahead := (m, at) => Ahead(dAtA, result, error, m, at);
    var ended := (m, err) => Ended(result, error, m, err);
    match Step(m, dAtA[at..])
    case Stepped(m', n) =>
      AheadStepped(dAtA, result, error, m, at, m', n);
      StepTurns(dAtA, m, at, m', n, ahead, ended);
    case BadStep(e, left) =>
      AheadFailed(dAtA, result, error, m, at, e, left);
      FailureTurns(dAtA, m, at, e, left, ahead, ended);
  }

  lemma StepTurns(dAtA: seq<byte>, m: TxResult, at: nat, m': TxResult, n: nat,
                  ahead: (TxResult, int) -> bool, ended: (TxResult, Option<WireError>) -> bool)
    requires at < |dAtA| < TWO63 && Step(m, dAtA[at..]) == Stepped(m', n) && ahead(m', at + n)
    ensures Turns(dAtA, m, at, ahead, ended)
  {
  }

  lemma FailureTurns(dAtA: seq<byte>, m: TxResult, at: nat, e: WireError, left: TxResult,
                     ahead: (TxResult, int) -> bool, ended: (TxResult, Option<WireError>) -> bool)
    requires at < |dAtA| < TWO63 && Step(m, dAtA[at..]) == BadStep(e, left)
    requires ended(left, Some(ErrorAt(e, dAtA[at..], at)))
    ensures Turns(dAtA, m, at, ahead, ended)
  {
  }

  lemma AheadStepped(dAtA: seq<byte>, result: DecodeResult, error: WireError, m: TxResult, at: int,
                     m': TxResult, n: nat)
    requires at < |dAtA| && Ahead(dAtA, result, error, m, at) && Step(m, dAtA[at..]) == Stepped(m', n)
    ensures Ahead(dAtA, result, error, m', at + n)
  {
    DecodeTurn(m, dAtA, at, m', n);
    ErrorTurn(m, dAtA, at, m', n);
  }

  lemma AheadFailed(dAtA: seq<byte>, result: DecodeResult, error: WireError, m: TxResult, at: int,
                    e: WireError, left: TxResult)
    requires at < |dAtA| && Ahead(dAtA, result, error, m, at) && Step(m, dAtA[at..]) == BadStep(e, left)
    ensures Ended(result, error, left, Some(ErrorAt(e, dAtA[at..], at)))
  {
  }

  /** The generated message type, whose fields `Unmarshal` overwrites one by one. */
  class TxResultMessage {
    var height: int64
    var txIndex: uint32
    var msgIndex: uint32
    var ethTxIndex: int32
    var failed: bool
    var gasUsed: uint64
    var cumulativeGasUsed: uint64

    constructor (m: TxResult)
      ensures Value() == m
    {
      height, txIndex, msgIndex, ethTxIndex := m.height, m.txIndex, m.msgIndex, m.ethTxIndex;
      failed, gasUsed, cumulativeGasUsed := m.failed, m.gasUsed, m.cumulativeGasUsed;
    }

    function Value(): TxResult
      reads this
    {
      TxResult(height, txIndex, msgIndex, ethTxIndex, failed, gasUsed, cumulativeGasUsed)
    }

    /** Writes the fields from the last to the first, so that the message ends the buffer. */
    method MarshalToSizedBuffer(dAtA: array<byte>) returns (n: nat)
      requires SizeOf(Value()) <= dAtA.Length
      modifies dAtA
      ensures n == SizeOf(Value())
      ensures dAtA[..] == old(dAtA[..dAtA.Length - n]) + Marshalled(Value())
    {
      SizeIsLength(Value());
      TailsFollow(Value());
      n := PutAll(dAtA, Tails(Value()));
    }

    method PutAll(dAtA: array<byte>, ghost tails: int -> seq<byte>) returns (n: nat)
      requires FirstFollow(tails) && LastFollow(tails) && tails(8) == [] && |tails(1)| <= dAtA.Length
      modifies dAtA
      ensures n == |tails(1)| && dAtA[..] == old(dAtA[..dAtA.Length - n]) + tails(1)
    {
      ghost var was := dAtA[..];
      Shrinks(tails);
      var i := PutLast(dAtA, was, tails);
      i := PutFirst(dAtA, i, was, tails);
      n := dAtA.Length - i;
    }

    ghost predicate FirstFollow(tails: int -> seq<byte>)
      reads this
    {
      && Follows(tails, 1, 0x08, ToUint64(height)) && Follows(tails, 2, 0x10, txIndex)
      && Follows(tails, 3, 0x18, msgIndex) && Follows(tails, 4, 0x20, ToUint64(ethTxIndex))
    }

    ghost predicate LastFollow(tails: int -> seq<byte>)
      reads this
    {
      && Follows(tails, 5, 0x28, BoolValue(failed)) && Follows(tails, 6, 0x30, gasUsed)
      && Follows(tails, 7, 0x38, cumulativeGasUsed)
    }

    lemma Shrinks(tails: int -> seq<byte>)
      requires FirstFollow(tails) && LastFollow(tails)
      ensures |tails(4)| <= |tails(3)| <= |tails(2)| <= |tails(1)|
      ensures |tails(8)| <= |tails(7)| <= |tails(6)| <= |tails(5)| <= |tails(4)|
    {
    }

    method PutLast(dAtA: array<byte>, ghost was: seq<byte>, ghost tails: int -> seq<byte>) returns (i: nat)
      requires LastFollow(tails) && dAtA[..] == was && tails(8) == []
      requires |tails(7)| <= |tails(6)| <= |tails(5)| <= |was|
      modifies dAtA
      ensures Filled(dAtA[..], was, i, tails, 5)
    {
      i := PutField(dAtA, dAtA.Length, 0x38, cumulativeGasUsed, was, tails, 7);
      i := PutField(dAtA, i, 0x30, gasUsed, was, tails, 6);
      i := PutFailed(dAtA, i, failed, was, tails);
    }

    method PutFirst(dAtA: array<byte>, i0: nat, ghost was: seq<byte>, ghost tails: int -> seq<byte>) returns (i: nat)
      requires FirstFollow(tails) && Filled(dAtA[..], was, i0, tails, 5)
      requires |tails(4)| <= |tails(3)| <= |tails(2)| <= |tails(1)| <= |was|
      modifies dAtA
      ensures Filled(dAtA[..], was, i, tails, 1)
    {
      i := PutField(dAtA, i0, 0x20, ToUint64(ethTxIndex), was, tails, 4);
      i := PutField(dAtA, i, 0x18, msgIndex, was, tails, 3);
      i := PutField(dAtA, i, 0x10, txIndex, was, tails, 2);
      i := PutField(dAtA, i, 0x08, ToUint64(height), was, tails, 1);
    }

    method Marshal() returns (bytes: seq<byte>)
      ensures bytes == Marshalled(Value()) && |bytes| == SizeOf(Value())
    {
      var size := SizeOf(Value());
      var dAtA := new byte[size](_ => 0);
      var n := MarshalToSizedBuffer(dAtA);
      SizeIsLength(Value());
      bytes := dAtA[..n];
      assert dAtA[..n] == dAtA[..];
    }

    /**
     On success the message is what decoding gives. On failure it is what decoding leaves, with the field
     being read cut short.
     */
    method Unmarshal(dAtA: seq<byte>) returns (err: Option<WireError>)
      requires |dAtA| < TWO63
      modifies this
      ensures match Decode(old(Value()), dAtA)
              case Decoded(m) => err == None && Value() == m
              case BadMessage(_, left) => err == Some(ErrorFrom(old(Value()), dAtA, 0)) && Value() == left
    {
      ghost var result, error := Decode(Value(), dAtA), ErrorFrom(Value(), dAtA, 0);
      ghost var ahead := (m, at) => Ahead(dAtA, result, error, m, at);
      ghost var ended := (m, err) => Ended(result, error, m, err);
      assert dAtA[0..] == dAtA;
      forall m, at {:trigger Turns(dAtA, m, at, ahead, ended)} | at < |dAtA| && ahead(m, at)
        ensures Turns(dAtA, m, at, ahead, ended)
      {
        AheadTurns(dAtA, result, error, m, at);
      }
      err := UnmarshalLoop(dAtA, ahead, ended);
    }

    method UnmarshalLoop(dAtA: seq<byte>,
                         ghost ahead: (TxResult, int) -> bool, ghost ended: (TxResult, Option<WireError>) -> bool)
      returns (err: Option<WireError>)
      requires |dAtA| < TWO63 && ahead(Value(), 0)
      requires forall m, at {:trigger Turns(dAtA, m, at, ahead, ended)} ::
        at < |dAtA| && ahead(m, at) ==> Turns(dAtA, m, at, ahead, ended)
      requires forall m :: ahead(m, |dAtA|) ==> ended(m, None)
      modifies this
      ensures ended(Value(), err)
    {
      var iNdEx := 0;
      while iNdEx < |dAtA|
        invariant 0 <= iNdEx <= |dAtA| && ahead(Value(), iNdEx)
        decreases |dAtA| - iNdEx
      {
        var size;
        size, err := UnmarshalTurn(dAtA, iNdEx, ahead, ended);
        if err.Some? {
          return;
        }
        iNdEx := iNdEx + size;
      }
      err := None;
    }

    method UnmarshalTurn(dAtA: seq<byte>, preIndex: nat,
                         ghost ahead: (TxResult, int) -> bool, ghost ended: (TxResult, Option<WireError>) -> bool)
      returns (size: nat, err: Option<WireError>)
      requires Turns(dAtA, Value(), preIndex, ahead, ended)
      modifies this
      ensures err == None ==> 0 < size <= |dAtA| - preIndex && ahead(Value(), preIndex + size)
      ensures err.Some? ==> ended(Value(), err)
    {
      size, err := UnmarshalField(dAtA, preIndex);
    }

    /** One turn of the `Unmarshal` loop. */
    method UnmarshalField(dAtA: seq<byte>, preIndex: nat) returns (size: nat, err: Option<WireError>)
      requires preIndex < |dAtA| < TWO63
      modifies this
      ensures match Step(old(Value()), dAtA[preIndex..])
              case Stepped(m, n) => err == None && size == n && Value() == m
              case BadStep(e, left) => err == Some(ErrorAt(e, dAtA[preIndex..], preIndex)) && Value() == left
    {
      var s := dAtA[preIndex..];
      size := 0;
      var tag := ReadVarint64(dAtA, preIndex);
      if tag.BadVarint? {
        assert NextToken(s).BadToken?;
        return 0, Some(tag.error);
      }
      var wire := tag.value;
      var fieldNum := Signed32(wire / 8);
      var wireType := wire % 8;
      Truncation(Read(s, 0).value);
      if wireType == 4 {
        return 0, Some(EndGroupForNonGroup);
      }
      if fieldNum <= 0 {
        return 0, Some(IllegalTag);
      }
      if fieldNum <= 7 {
        if wireType != 0 {
          return 0, Some(WrongWireType);
        }
        assert s[tag.size..] == dAtA[preIndex + tag.size..];
        size, err := ReadField(fieldNum, dAtA, preIndex + tag.size);
        if err == None {
          size := tag.size + size;
        } else {
          KnownError(s, preIndex, err.value);
        }
        return;
      }
      var skippy := SkipLoop(s);
      if skippy.BadSkip? {
        return 0, Some(skippy.error);
      }
      if WrapInt(preIndex + skippy.size) < 0 {
        return 0, Some(InvalidLength);
      }
      if preIndex + skippy.size > |dAtA| {
        return 0, Some(UnexpectedEOF);
      }
      return skippy.size, None;
    }

    /**
     The value of a known field. The accumulator is the field itself, except for `Failed`, so that a
     failure leaves the bits read so far in it.
     */
    method ReadField(fieldNum: int, dAtA: seq<byte>, iNdEx: nat) returns (size: nat, err: Option<WireError>)
      requires 1 <= fieldNum <= 7 && iNdEx <= |dAtA|
      modifies this
      ensures match Read(dAtA[iNdEx..], 0)
              case Varint(v, n) => err == None && size == n && Value() == SetField(old(Value()), fieldNum, v)
              case BadVarint(e, p) => err == Some(e) && Value() == LeftBy(old(Value()), fieldNum, p)
    {
      var width := if 2 <= fieldNum <= 4 then 32 else 64;
      var v := ReadLoop(dAtA, iNdEx, width);
      ghost var r := Read(dAtA[iNdEx..], 0);
      SetTruncated(Value(), fieldNum, width, if r.Varint? then r.value else r.partial);
      if v.BadVarint? {
        if fieldNum != 5 {
          StoreField(fieldNum, v.partial);
        }
        return 0, Some(v.error);
      }
      StoreField(fieldNum, v.value);
      return v.size, None;
    }

    method StoreField(fieldNum: int, value: uint64)
      requires 1 <= fieldNum <= 7
      modifies this
      ensures Value() == SetField(old(Value()), fieldNum, value)
    {
      match fieldNum {
        case 1 => height := Signed64(value);
        case 2 => txIndex := value % TWO32;
        case 3 => msgIndex := value % TWO32;
        case 4 => ethTxIndex := Signed32(value);
        case 5 => failed := value != 0;
        case 6 => gasUsed := value;
        case 7 => cumulativeGasUsed := value;
      }
    }
  }

  /** An accumulator of the field's width holds all that the field keeps. */
  lemma SetTruncated(m: TxResult, num: int, width: nat, v: nat)
    requires 1 <= num <= 7 && width == if 2 <= num <= 4 then 32 else 64
    ensures v % Pow2(width) < TWO64
    ensures SetField(m, num, v % Pow2(width)) == SetField(m, num, v)
  {
    if 2 <= num <= 4 {
      Width32(width);
    } else {
      Width64(width);
    }
    Truncation(v);
  }
}
