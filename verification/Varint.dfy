/**
 Base 128 varints as the generated code of types/indexer.pb.go writes and reads them.

 `Varint` is the encoding of the Protocol Buffers Encoding specification, "Base 128 Varints":
 seven bits per byte, least significant group first, high bit set on every byte but the last.
 */
module Varint {
  import opened Machine

  datatype WireError =
    | IntOverflow
    | UnexpectedEOF
    | InvalidLength
    | UnexpectedEndOfGroup
    | IllegalWireType
    | EndGroupForNonGroup
    | IllegalTag
    | WrongWireType

  /**
   A varint read: its value before truncation to the field's width, and the bytes consumed. A failed
   read leaves behind what it had accumulated.
   */
  datatype VarintRead = Varint(value: nat, size: nat) | BadVarint(error: WireError, partial: nat)

  function Encode(v: nat): (s: seq<byte>)
    ensures |s| >= 1
  {
    if v < 128 then [v] else [v % 128 + 128] + Encode(v / 128)
  }

  /**
   Reads the varint at the head of `s`, `k` bytes of it having been read already. The shift is
   7 * k, and a tenth continuation byte would need a shift of 70: it is refused.
   */
  function Read(s: seq<byte>, k: nat): (r: VarintRead)
    ensures r.Varint? ==> 1 <= r.size <= |s|
    decreases |s|
  {
    if 7 * k >= 64 then BadVarint(IntOverflow, 0)
    else if s == [] then BadVarint(UnexpectedEOF, 0)
    else if s[0] < 128 then Varint(s[0], 1)
    else match Read(s[1..], k + 1)
      case BadVarint(e, p) => BadVarint(e, s[0] - 128 + 128 * p)
      case Varint(v, n) => Varint(s[0] - 128 + 128 * v, n + 1)
  }

  // ---------- Sizes ----------

  /** `x | 1`. */
  function OrOne(x: nat): nat {
    if x % 2 == 0 then x + 1 else x
  }

  /** `sovIndexer`: the size of a varint, computed from the bit length. */
  function Sov(x: nat): nat {
    (BitLen(OrOne(x)) + 6) / 7
  }

  lemma {:induction false} BitLenDropsSeven(x: nat)
    requires x >= 128
    ensures BitLen(x) == 7 + BitLen(x / 128)
  {
    assert x / 2 / 2 / 2 / 2 / 2 / 2 / 2 == x / 128;
    assert BitLen(x) == 1 + BitLen(x / 2) == 2 + BitLen(x / 2 / 2) == 3 + BitLen(x / 2 / 2 / 2);
    assert BitLen(x / 2 / 2 / 2) == 1 + BitLen(x / 2 / 2 / 2 / 2) == 2 + BitLen(x / 2 / 2 / 2 / 2 / 2);
    assert BitLen(x / 2 / 2 / 2 / 2 / 2) == 1 + BitLen(x / 2 / 2 / 2 / 2 / 2 / 2)
        == 2 + BitLen(x / 2 / 2 / 2 / 2 / 2 / 2 / 2);
  }

  lemma BitLenSmall(x: nat)
    requires 0 < x < 128
    ensures 1 <= BitLen(x) <= 7
  {
    BitLenMonotone(x, 127);
    assert BitLen(127) == 1 + BitLen(63) == 2 + BitLen(31) == 3 + BitLen(15);
    assert BitLen(15) == 1 + BitLen(7) == 2 + BitLen(3) == 3 + BitLen(1) == 4;
  }

  lemma {:induction false} BitLenMonotone(x: nat, y: nat)
    requires x <= y
    ensures BitLen(x) <= BitLen(y)
  {
    if x > 0 {
      BitLenMonotone(x / 2, y / 2);
    }
  }

  lemma OrOneKeeps(x: nat)
    requires x > 0
    ensures BitLen(OrOne(x)) == BitLen(x)
  {
    assert OrOne(x) / 2 == x / 2;
  }

  /** The size computed from the bit length is the length of the encoding. */
  lemma {:induction false} SovIsLength(v: nat)
    ensures Sov(v) == |Encode(v)|
    decreases v
  {
    if v < 128 {
      BitLenSmall(OrOne(v));
    } else {
      BitLenDropsSeven(OrOne(v));
      SovIsLength(v / 128);
      OrOneKeeps(v / 128);
      assert OrOne(v) / 128 == v / 128;
    }
  }

  // ---------- Round trip ----------

  /** Encoding then reading gives back every value that fits the remaining shifts. */
  lemma {:induction false} ReadEncode(v: nat, k: nat, rest: seq<byte>)
    requires v < Room(k)
    ensures Read(Encode(v) + rest, k) == Varint(v, |Encode(v)|)
    decreases v
  {
    if v >= 128 {
      ReadEncode(v / 128, k + 1, rest);
      assert (Encode(v) + rest)[1..] == Encode(v / 128) + rest;
    }
  }

  /** The values that varint bytes `k`, `k + 1`, ..., 9 can carry. */
  function Room(k: nat): (r: nat)
    decreases 10 - k
  {
    if k >= 10 then 0 else if k == 9 then 128 else 128 * Room(k + 1)
  }

  lemma RoomForUint64()
    ensures Room(0) >= TWO64
  {
    assert Room(7) == 128 * Room(8) == 128 * 128 * Room(9);
    assert Room(4) == 128 * Room(5) == 128 * 128 * Room(6) == 128 * 128 * 128 * Room(7);
    assert Room(1) == 128 * Room(2) == 128 * 128 * Room(3) == 128 * 128 * 128 * Room(4);
    assert Room(0) == 128 * Room(1);
  }

  /** Every 64-bit value is read back exactly, whatever follows it. */
  lemma ReadEncode64(v: uint64, rest: seq<byte>)
    ensures Read(Encode(v) + rest, 0) == Varint(v, |Encode(v)|)
  {
    RoomForUint64();
    ReadEncode(v, 0, rest);
  }

  /** A successful read looks at no byte after the varint. */
  lemma {:induction false} ReadPrefix(s: seq<byte>, t: seq<byte>, k: nat)
    requires Read(s, k).Varint?
    ensures Read(s + t, k) == Read(s, k)
    decreases |s|
  {
    if s[0] >= 128 {
      ReadPrefix(s[1..], t, k + 1);
      assert (s + t)[1..] == s[1..] + t;
    }
  }

  // ---------- The loops of the generated code ----------

  /** `x << shift` in an integer of `width` bits. */
  function ShiftLeft(x: nat, shift: nat, width: nat): nat {
    x * Pow2(shift) % Pow2(width)
  }

  /**
   `acc |= x << shift`, with an accumulator of any width: bits already gathered lie below the shift, so
   that nothing is overwritten, and what lies beyond the width is lost on both sides.
   */
  lemma OrShift(raw: nat, x: nat, shift: nat, width: nat)
    requires raw < Pow2(shift)
    ensures Or(raw % Pow2(width), ShiftLeft(x, shift, width)) == (raw + x * Pow2(shift)) % Pow2(width)
  {
    if shift < width {
      OrShiftWithin(raw, x, shift, width);
    } else {
      OrShiftBeyond(raw, x, shift, width);
    }
  }

  lemma OrShiftBeyond(raw: nat, x: nat, shift: nat, width: nat)
    requires width <= shift
    ensures Or(raw % Pow2(width), ShiftLeft(x, shift, width)) == (raw + x * Pow2(shift)) % Pow2(width)
  {
    Pow2Plus(width, shift - width);
    ShiftedOut(raw, x, Pow2(width), Pow2(shift - width), Pow2(shift));
  }

  /** A multiple of the width is lost. */
  lemma ShiftedOut(raw: nat, x: nat, p: nat, q: nat, s: nat)
    requires p >= 1 && s == p * q
    ensures x * s % p == 0 && (raw + x * s) % p == raw % p
  {
    var n := raw / p;
    Rearranged(x, p, q);
    assert raw == p * n + raw % p;
    assert p * (n + x * q) == p * n + p * (x * q);
    DivModUnique(x * s, p, x * q, 0);
    DivModUnique(raw + x * s, p, n + x * q, raw % p);
  }

  lemma Rearranged(x: nat, p: nat, q: nat)
    ensures x * (p * q) == p * (x * q)
  {
  }

  lemma OrShiftWithin(raw: nat, x: nat, shift: nat, width: nat)
    requires raw < Pow2(shift) && shift < width
    ensures Or(raw % Pow2(width), ShiftLeft(x, shift, width)) == (raw + x * Pow2(shift)) % Pow2(width)
  {
    var p, q, w := Pow2(shift), Pow2(width - shift), Pow2(width);
    Pow2Plus(shift, width - shift);
    Pow2Monotone(shift, width);
    ModSmall(raw, w);
    ShiftedBits(x, p, q, w, 0);
    ShiftedBits(x, p, q, w, raw);
    OrDisjoint(raw, x % q, shift);
  }

  lemma ModSmall(a: nat, m: nat)
    requires a < m
    ensures a % m == a
  {
  }

  /** What is left of `x`, shifted up by the factor `p` above `low`, in a width of `p * q`. */
  lemma ShiftedBits(x: nat, p: nat, q: nat, w: nat, low: nat)
    requires low < p && q >= 1 && w == p * q
    ensures (low + x * p) % w == low + p * (x % q)
  {
    var n, z := x / q, x % q;
    Expanded(p, q, n, z);
    Below(low, p, z, q);
    DivModUnique(low + x * p, w, n, low + p * z);
  }

  lemma Expanded(p: nat, q: nat, n: nat, z: nat)
    ensures (q * n + z) * p == p * q * n + p * z
  {
  }

  lemma Below(low: nat, p: nat, z: nat, q: nat)
    requires low < p && z < q
    ensures low + p * z < p * q
  {
    AtMost(z + 1, q, p);
  }

  /**
   The reading loop, which the source repeats at every varint: the accumulator has the field's own
   width, so that bits shifted beyond it are lost at each turn.
   */
  method ReadLoop(dAtA: seq<byte>, start: nat, width: nat) returns (r: VarintRead)
    requires start <= |dAtA|
    ensures r == Truncated(Read(dAtA[start..], 0), width)
  {
    var acc: nat := 0;
    var iNdEx := start;
    var shift: nat := 0;
    ghost var raw: nat := 0;
    ghost var k: nat := 0;
    ghost var whole := Read(dAtA[start..], 0);
    while true
      invariant start <= iNdEx <= |dAtA|
      invariant k == iNdEx - start && shift == 7 * k
      invariant Midway(whole, Read(dAtA[iNdEx..], k), acc, raw, k, Pow2(7 * k), width)
      decreases |dAtA| - iNdEx
    {
      if shift >= 64 {
        return BadVarint(IntOverflow, acc);
      }
      if iNdEx >= |dAtA| {
        return BadVarint(UnexpectedEOF, acc);
      }
      var b := dAtA[iNdEx];
      ghost var tail := Read(dAtA[iNdEx..], k);
      assert dAtA[iNdEx..][1..] == dAtA[iNdEx + 1..];
      iNdEx := iNdEx + 1;
      acc, raw := Gather(acc, b, shift, width, whole, tail, Read(dAtA[iNdEx..], k + 1), raw, k);
      if b < 128 {
        return Varint(acc, iNdEx - start);
      }
      shift := shift + 7;
      k := k + 1;
    }
  }

  /** What an accumulator of `width` bits holds of a read. */
  function Truncated(r: VarintRead, width: nat): VarintRead {
    match r
    case BadVarint(e, p) => BadVarint(e, p % Pow2(width))
    case Varint(v, n) => Varint(v % Pow2(width), n)
  }

  /** One byte: its seven bits go above those gathered so far. */
  method Gather(acc0: nat, b: byte, shift: nat, width: nat,
                ghost whole: VarintRead, ghost tail: VarintRead, ghost next: VarintRead, ghost raw0: nat, ghost k: nat)
    returns (acc: nat, ghost raw: nat)
    requires shift == 7 * k && Midway(whole, tail, acc0, raw0, k, Pow2(7 * k), width) && Continues(tail, b, next)
    ensures b < 128 ==> Varint(acc, k + 1) == Truncated(whole, width)
    ensures b >= 128 ==> Midway(whole, next, acc, raw, k + 1, Pow2(7 * (k + 1)), width)
  {
    OrShift(raw0, b % 128, shift, width);
    acc := Or(acc0, ShiftLeft(b % 128, shift, width));
    raw := raw0 + (b % 128) * Pow2(shift);
    MidwayStep(whole, tail, next, acc, raw0, raw, k, Pow2(shift), b, width);
    Pow2Plus7(shift);
    assert 7 * (k + 1) == shift + 7;
  }

  lemma MidwayStep(whole: VarintRead, tail: VarintRead, next: VarintRead, acc: nat, raw0: nat, raw: nat, k: nat, p: nat,
                   b: byte, width: nat)
    requires raw == raw0 + (b % 128) * p && acc == raw % Pow2(width)
    requires raw0 < p && ReadSoFar(whole, tail, raw0, k, p) && Continues(tail, b, next)
    ensures b < 128 ==> Varint(acc, k + 1) == Truncated(whole, width)
    ensures b >= 128 ==> Midway(whole, next, acc, raw, k + 1, 128 * p, width)
  {
    ReadSoFarStep(whole, tail, next, raw0, k, p, b);
    Gathered(raw0, b % 128, p);
  }

  /** The state of the loop when `k` bytes are read, `p` is 2^(7k), and `tail` is the read ahead. */
  ghost predicate Midway(whole: VarintRead, tail: VarintRead, acc: nat, raw: nat, k: nat, p: nat, width: nat) {
    acc == raw % Pow2(width) && raw < p && ReadSoFar(whole, tail, raw, k, p)
  }

  /** `tail` starts with the byte `b`, after which `next` is read. */
  ghost predicate Continues(tail: VarintRead, b: byte, next: VarintRead) {
    tail == if b < 128 then Varint(b, 1)
            else match next
              case BadVarint(e, p) => BadVarint(e, b - 128 + 128 * p)
              case Varint(v, n) => Varint(b - 128 + 128 * v, n + 1)
  }

  /** Seven more bits stay below the next shift. */
  lemma Gathered(raw: nat, x: nat, p: nat)
    requires raw < p && x < 128
    ensures raw + x * p < 128 * p
  {
    AtMost(x, 127, p);
  }

  lemma AtMost(x: nat, y: nat, p: nat)
    requires x <= y
    ensures x * p <= y * p
  {
  }

  lemma DivModUnique(a: int, m: int, q: int, r: int)
    requires m >= 1 && a == m * q + r && 0 <= r < m
    ensures a / m == q && a % m == r
  {
    var d := a / m - q;
    assert m * d == r - a % m;
    assert -m < m * d < m;
    assert d == 0;
  }

  /** What `k` turns of the loop have established about the whole read. */
  ghost predicate ReadSoFar(whole: VarintRead, tail: VarintRead, raw: nat, k: nat, p: nat) {
    whole == match tail
             case BadVarint(e, v) => BadVarint(e, raw + p * v)
             case Varint(v, n) => Varint(raw + p * v, n + k)
  }

  lemma ReadSoFarStep(whole: VarintRead, tail: VarintRead, next: VarintRead, raw: nat, k: nat, p: nat, b: byte)
    requires ReadSoFar(whole, tail, raw, k, p) && Continues(tail, b, next)
    ensures b < 128 ==> whole == Varint(raw + (b % 128) * p, k + 1)
    ensures b >= 128 ==> ReadSoFar(whole, next, raw + (b % 128) * p, k + 1, 128 * p)
  {
    if b >= 128 {
      assert b % 128 == b - 128;
      Distribute(p, b % 128, if next.Varint? then next.value else next.partial);
    }
  }

  lemma Distribute(p: nat, low: nat, v: nat)
    ensures p * (low + 128 * v) == low * p + 128 * p * v
  {
  }

  /** `encodeVarintIndexer`: writes `v` so that it ends just before `offset`. */
  method EncodeVarint(dAtA: array<byte>, offset: nat, v: uint64) returns (base: nat)
    requires Sov(v) <= offset <= dAtA.Length
    modifies dAtA
    ensures base + Sov(v) == offset
    ensures dAtA[..] == old(dAtA[..base]) + Encode(v) + old(dAtA[offset..])
  {
    SovIsLength(v);
    base := offset - Sov(v);
    var at := base;
    var x := v;
    ghost var want := dAtA[..base] + Encode(v) + dAtA[offset..];
    assert want[base..offset] == Encode(v);
    while x >= 128
      invariant base <= at && at + |Encode(x)| == offset
      invariant want[at..offset] == Encode(x)
      invariant forall j :: 0 <= j < at || offset <= j < dAtA.Length ==> dAtA[j] == want[j]
      decreases x
    {
      EncodeTail(x, want, at, offset);
      dAtA[at] := x % 128 + 128;
      x := x / 128;
      at := at + 1;
    }
    assert want[at] == want[at..offset][0] == x;
    dAtA[at] := x;
  }

  lemma EncodeTail(x: nat, want: seq<byte>, at: nat, offset: nat)
    requires x >= 128 && at <= offset <= |want| && want[at..offset] == Encode(x)
    ensures at < offset && want[at] == x % 128 + 128 && want[at + 1..offset] == Encode(x / 128)
  {
    assert want[at] == want[at..offset][0];
    assert want[at + 1..offset] == want[at..offset][1..];
  }
}
