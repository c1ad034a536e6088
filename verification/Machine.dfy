/** Fixed-width integers of the Go sources, as ranges of the mathematical integers. */
module Machine {
  const TWO31: int := 0x8000_0000
  const TWO32: int := 0x1_0000_0000
  const TWO63: int := 0x8000_0000_0000_0000
  const TWO64: int := 0x1_0000_0000_0000_0000
  const TWO256: int := 0x1_0000000000000000_0000000000000000_0000000000000000_0000000000000000

  type byte = x: int | 0 <= x < 256
  type uint32 = x: int | 0 <= x < TWO32
  type int32 = x: int | -TWO31 <= x < TWO31
  type uint64 = x: int | 0 <= x < TWO64
  type int64 = x: int | -TWO63 <= x < TWO63

  /** `uint64(x)` of a signed Go integer: two's complement, with sign extension. */
  function ToUint64(x: int64): uint64 {
    if x < 0 then x + TWO64 else x
  }

  /** `uint64(x)` of any integer value kept to its low 64 bits. */
  function Low64(x: nat): uint64 {
    x % TWO64
  }

  /** `int64(x)` of the low 64 bits. */
  function Signed64(x: nat): int64 {
    var u := x % TWO64;
    if u < TWO63 then u else u - TWO64
  }

  /** `int32(x)` of the low 32 bits. */
  function Signed32(x: nat): int32 {
    var u := x % TWO32;
    if u < TWO31 then u else u - TWO32
  }

  function Pow2(n: nat): (p: nat)
    ensures p >= 1
  {
    if n == 0 then 1 else 2 * Pow2(n - 1)
  }

  lemma {:induction false} Pow2Plus(m: nat, n: nat)
    ensures Pow2(m + n) == Pow2(m) * Pow2(n)
    decreases n
  {
    if n > 0 {
      Pow2Plus(m, n - 1);
      assert Pow2(m + n) == 2 * Pow2(m + n - 1);
    }
  }

  lemma {:induction false} Pow2Monotone(m: nat, n: nat)
    requires m <= n
    ensures Pow2(m) <= Pow2(n)
    decreases n
  {
    if m < n {
      Pow2Monotone(m, n - 1);
    }
  }

  lemma Pow2Plus7(n: nat)
    ensures Pow2(n + 7) == 128 * Pow2(n)
  {
    assert Pow2(n + 7) == 2 * Pow2(n + 6) == 4 * Pow2(n + 5) == 8 * Pow2(n + 4);
    assert Pow2(n + 4) == 2 * Pow2(n + 3) == 4 * Pow2(n + 2) == 8 * Pow2(n + 1);
  }

  lemma Squared(m: nat, n: nat, p: nat)
    requires n == 2 * m && Pow2(m) == p
    ensures Pow2(n) == p * p
  {
    Pow2Plus(m, m);
  }

  lemma Pow2Eight(n: nat)
    requires n == 8
    ensures Pow2(n) == 256
  {
    Pow2Plus7(n - 7);
  }

  /** The widths of the Go integers as powers of two. */
  lemma Width32(n: nat)
    requires n == 32
    ensures Pow2(n) == TWO32
  {
    Pow2Eight(n / 4);
    Squared(n / 4, n / 2, 256);
    Squared(n / 2, n, 65536);
  }

  lemma Width64(n: nat)
    requires n == 64
    ensures Pow2(n) == TWO64
  {
    Width32(n / 2);
    Squared(n / 2, n, TWO32);
  }

  lemma Width256(n: nat)
    requires n == 256
    ensures Pow2(n) == TWO256
  {
    Width64(n / 4);
    Squared(n / 4, n / 2, TWO64);
    Squared(n / 2, n, TWO64 * TWO64);
  }

  /** The number of bits needed for `x`: `bits.Len64` and `big.Int.BitLen`. */
  function BitLen(x: nat): nat {
    if x == 0 then 0 else 1 + BitLen(x / 2)
  }

  /** A number needs more than `n` bits exactly from 2^n on. */
  lemma {:induction false} BitLenExceeds(x: nat, n: nat)
    ensures BitLen(x) > n <==> x >= Pow2(n)
    decreases n
  {
    if n > 0 && x > 0 {
      BitLenExceeds(x / 2, n - 1);
    }
  }

  // ---------- Bitwise or ----------

  /** `a | b`. */
  function Or(a: nat, b: nat): nat {
    if a == 0 then b else if b == 0 then a
    else 2 * Or(a / 2, b / 2) + if a % 2 == 1 || b % 2 == 1 then 1 else 0
  }

  /** Bit `i` of `a`. */
  predicate Bit(a: nat, i: nat)
    decreases i
  {
    if i == 0 then a % 2 == 1 else Bit(a / 2, i - 1)
  }

  lemma OrParts(a: nat, b: nat)
    ensures Or(a, b) / 2 == Or(a / 2, b / 2)
    ensures Or(a, b) % 2 == 1 <==> a % 2 == 1 || b % 2 == 1
  {
  }

  /** `Or` is the or of each pair of bits. */
  lemma {:induction false} OrBits(a: nat, b: nat, i: nat)
    ensures Bit(Or(a, b), i) <==> Bit(a, i) || Bit(b, i)
    decreases i
  {
    OrParts(a, b);
    if i > 0 {
      OrBits(a / 2, b / 2, i - 1);
    }
  }

  /** Where no bit is set on both sides, it is an addition. */
  lemma {:induction false} OrDisjoint(a: nat, z: nat, n: nat)
    requires a < Pow2(n)
    ensures Or(a, Pow2(n) * z) == a + Pow2(n) * z
    decreases n
  {
    if a > 0 && Pow2(n) * z > 0 {
      var half := Pow2(n - 1) * z;
      assert Pow2(n) * z == 2 * half;
      OrDisjoint(a / 2, z, n - 1);
    }
  }
}
