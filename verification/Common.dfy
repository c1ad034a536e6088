/** Helpers that the precompiles share (precompiles/common/types.go). */
module Common {
  import opened Machine

  /** `math.MaxBitLen` of the SDK. */
  const MAX_BIT_LEN: nat := 256

  function Abs(x: int): nat {
    if x < 0 then -x else x
  }

  /** Overflow is decided by the bit length of the sum, which ignores its sign. */
  method SafeAdd(a: int, b: int) returns (sum: int, overflow: bool)
    ensures sum == a + b
    ensures overflow <==> !(-TWO256 < a + b < TWO256)
  {
    sum := a + b;
    overflow := BitLen(Abs(sum)) > MAX_BIT_LEN;
    Width256(MAX_BIT_LEN);
    BitLenExceeds(Abs(sum), MAX_BIT_LEN);
  }
}
