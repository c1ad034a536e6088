/**
 The wire format of `TxResult` (types/indexer.pb.go): what the backward writer produces, what the
 decoder accepts, and how unknown fields are skipped. Everything here is a function of the bytes;
 module `TxCodec` holds the generated loops and proves them against these functions.
 */
module Wire {
  import opened Machine
  import opened Varint

  datatype TxResult = TxResult(
    height: int64,
    txIndex: uint32,
    msgIndex: uint32,
    ethTxIndex: int32,
    failed: bool,
    gasUsed: uint64,
    cumulativeGasUsed: uint64)

  /** A freshly allocated message. */
  const ZERO := TxResult(0, 0, 0, 0, false, 0, 0)

  // ---------- Encoding ----------

  /** One varint field with a one-byte tag; proto3 leaves zero values out. */
  function FieldBytes(tag: byte, v: uint64): seq<byte> {
    if v == 0 then [] else [tag] + Encode(v)
  }

  function BoolValue(b: bool): uint64 {
    if b then 1 else 0
  }

  /** The seven fields as they go on the wire: signed values are sign-extended to 64 bits. */
  function Values(m: TxResult): (vs: seq<uint64>)
    ensures |vs| == 7
  {
    [ToUint64(m.height), m.txIndex, m.msgIndex, ToUint64(m.ethTxIndex), BoolValue(m.failed), m.gasUsed,
     m.cumulativeGasUsed]
  }

  /** Fields `k` to 7, in order, where field `k` has the tag `8 * k` (wire type 0). */
  function FieldsFrom(vs: seq<uint64>, k: nat): seq<byte>
    requires |vs| == 7 && 1 <= k <= 8
    decreases 8 - k
  {
    if k == 8 then [] else FieldBytes(8 * k, vs[k - 1]) + FieldsFrom(vs, k + 1)
  }

  /** The bytes of a marshalled message. */
  function Marshalled(m: TxResult): seq<byte> {
    FieldsFrom(Values(m), 1)
  }

  // ---------- Skipping unknown fields ----------

  datatype SkipResult = Skipped(size: nat) | BadSkip(error: WireError)

  type Size = n: nat | n >= 1 witness 1

  /** One tag and what its field claims: the wire type, and the bytes of both together. */
  datatype TokenResult = Token(wireType: int, size: Size) | BadToken(error: WireError)

  /** A way to read the token at the head of some bytes. */
  type Tokenizer = seq<byte> -> TokenResult

  /**
   `skipIndexer` with `pos` bytes behind it, `s` ahead of it, and `depth` groups open. Positions are
   Go `int`s: one that reaches 2^63 has wrapped to a negative number and is refused.
   */
  function SkipBy(next: Tokenizer, s: seq<byte>, pos: nat, depth: nat): (r: SkipResult)
    requires pos + |s| < TWO63
    ensures r.Skipped? ==> pos < r.size < TWO63
    decreases |s|
  {
    if s == [] then BadSkip(UnexpectedEOF) else
    match next(s)
    case BadToken(e) => BadSkip(e)
    case Token(wireType, n) =>
      if wireType == 4 && depth == 0 then BadSkip(UnexpectedEndOfGroup) else
      var d := DepthAfter(wireType, depth);
      if pos + n >= TWO63 then BadSkip(InvalidLength)
      else if d == 0 then Skipped(pos + n)
      else if n > |s| then BadSkip(UnexpectedEOF)
      else SkipBy(next, s[n..], pos + n, d)
  }

  /** Skips one field, whatever it is, from the start of `s`. */
  function Skip(s: seq<byte>): SkipResult
    requires |s| < TWO63
  {
    SkipBy(NextToken, s, 0, 0)
  }

  function DepthAfter(wireType: int, depth: nat): (d: nat)
    requires wireType == 4 ==> depth > 0
  {
    if wireType == 3 then depth + 1 else if wireType == 4 then depth - 1 else depth
  }

  function NextToken(s: seq<byte>): TokenResult {
    match Read(s, 0)
    case BadVarint(e, _) => BadToken(e)
    case Varint(tag, n) =>
      var wireType := tag % 8;
      match FieldSize(s[n..], wireType)
      case BadSkip(e) => BadToken(e)
      case Skipped(body) => Token(wireType, n + body)
  }

  /** The bytes a field claims after its tag; group markers claim none. */
  function FieldSize(s: seq<byte>, wireType: int): (r: SkipResult)
  {
    match wireType
    case 0 =>
      (match Read(s, 0)
       case BadVarint(e, _) => BadSkip(e)
       case Varint(v, n) => Skipped(n))
    case 1 => Skipped(8)
    case 2 =>
      (match Read(s, 0)
       case BadVarint(e, _) => BadSkip(e)
       case Varint(v, n) =>
         if Signed64(v) < 0 then BadSkip(InvalidLength) else Skipped(n + Signed64(v)))
    case 3 => Skipped(0)
    case 4 => Skipped(0)
    case 5 => Skipped(4)
    case _ => BadSkip(IllegalWireType)
  }

  // ---------- Decoding ----------

  /** A failure leaves a message behind, in which the field being read may hold a part of its value. */
  datatype StepResult = Stepped(msg: TxResult, size: nat) | BadStep(error: WireError, left: TxResult)
  datatype DecodeResult = Decoded(msg: TxResult) | BadMessage(error: WireError, left: TxResult)

  /** The message after field `num` was read with the untruncated varint `v`. */
  function SetField(m: TxResult, num: int, v: nat): TxResult
    requires 1 <= num <= 7
  {
    match num
    case 1 => m.(height := Signed64(v))
    case 2 => m.(txIndex := v % TWO32)
    case 3 => m.(msgIndex := v % TWO32)
    case 4 => m.(ethTxIndex := Signed32(v))
    case 5 => m.(failed := v % TWO64 != 0)
    case 6 => m.(gasUsed := v % TWO64)
    case _ => m.(cumulativeGasUsed := v % TWO64)
  }

  /** `int32(wire >> 3)`: a field number loses every bit above the 32nd. */
  function FieldNumber(tag: nat): int32 {
    Signed32(Low64(tag) / 8)
  }

  /** The fields are overwritten while they are read, except `Failed`, which is set at the end. */
  function LeftBy(m: TxResult, num: int, partial: nat): TxResult
    requires 1 <= num <= 7
  {
    if num == 5 then m else SetField(m, num, partial)
  }

  /** One turn of the `Unmarshal` loop on the bytes that remain. */
  function Step(m: TxResult, s: seq<byte>): (r: StepResult)
    requires |s| < TWO63
    ensures r.Stepped? ==> 1 <= r.size <= |s|
  {
    match Read(s, 0)
    case BadVarint(e, _) => BadStep(e, m)
    case Varint(tag, n) =>
      var num := FieldNumber(tag);
      var wireType := tag % 8;
      if wireType == 4 then BadStep(EndGroupForNonGroup, m)
      else if num <= 0 then BadStep(IllegalTag, m)
      else if num <= 7 then
        if wireType != 0 then BadStep(WrongWireType, m) else
        (match Read(s[n..], 0)
         case BadVarint(e, p) => BadStep(e, LeftBy(m, num, p))
         case Varint(v, k) => Stepped(SetField(m, num, v), n + k))
      else
        match Skip(s)
        case BadSkip(e) => BadStep(e, m)
        case Skipped(k) => if k > |s| then BadStep(UnexpectedEOF, m) else Stepped(m, k)
  }

  /** `Unmarshal` into the message `m`, which need not be fresh. */
  function Decode(m: TxResult, s: seq<byte>): DecodeResult
    requires |s| < TWO63
    decreases |s|
  {
    if s == [] then Decoded(m) else
    match Step(m, s)
    case BadStep(e, left) => BadMessage(e, left)
    case Stepped(m', n) => Decode(m', s[n..])
  }

  // ---------- Decoding a concatenation ----------

  lemma {:induction false} SkipPrefix(next: Tokenizer, s: seq<byte>, t: seq<byte>, pos: nat, depth: nat)
    requires forall x, y :: next(x).Token? ==> next(x + y) == next(x)
    requires pos + |s + t| < TWO63
    requires SkipBy(next, s, pos, depth).Skipped? && SkipBy(next, s, pos, depth).size <= pos + |s|
    ensures SkipBy(next, s + t, pos, depth) == SkipBy(next, s, pos, depth)
    decreases |s|
  {
    var Token(wireType, n) := next(s);
    var d := DepthAfter(wireType, depth);
    if d != 0 {
      assert (s + t)[n..] == s[n..] + t;
      SkipPrefix(next, s[n..], t, pos + n, d);
    }
  }

  lemma TokenPrefix(s: seq<byte>, t: seq<byte>)
    requires NextToken(s).Token?
    ensures NextToken(s + t) == NextToken(s)
  {
    var Varint(tag, n) := Read(s, 0);
    ReadPrefix(s, t, 0);
    assert (s + t)[n..] == s[n..] + t;
    FieldSizePrefix(s[n..], t, tag % 8);
  }

  lemma FieldSizePrefix(s: seq<byte>, t: seq<byte>, wireType: int)
    requires FieldSize(s, wireType).Skipped?
    ensures FieldSize(s + t, wireType) == FieldSize(s, wireType)
  {
    if wireType == 0 || wireType == 2 {
      ReadPrefix(s, t, 0);
    }
  }

  lemma StepPrefix(m: TxResult, s: seq<byte>, t: seq<byte>)
    requires |s + t| < TWO63
    requires Step(m, s).Stepped?
    ensures Step(m, s + t) == Step(m, s)
  {
    var Varint(tag, n) := Read(s, 0);
    ReadPrefix(s, t, 0);
    if FieldNumber(tag) <= 7 {
      assert (s + t)[n..] == s[n..] + t;
      ReadPrefix(s[n..], t, 0);
    } else {
      forall x, y | NextToken(x).Token? ensures NextToken(x + y) == NextToken(x) {
        TokenPrefix(x, y);
      }
      SkipPrefix(NextToken, s, t, 0, 0);
    }
  }

  /** Decoding a message followed by more bytes merges the rest into it. */
  lemma {:induction false} DecodeConcat(m: TxResult, s: seq<byte>, t: seq<byte>)
    requires |s + t| < TWO63
    requires Decode(m, s).Decoded?
    ensures Decode(m, s + t) == Decode(Decode(m, s).msg, t)
    decreases |s|
  {
    if s == [] {
      assert s + t == t;
    } else {
      StepPrefix(m, s, t);
      var Stepped(m', n) := Step(m, s);
      assert (s + t)[n..] == s[n..] + t;
      DecodeConcat(m', s[n..], t);
    }
  }
}
