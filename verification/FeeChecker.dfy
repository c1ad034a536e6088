/**
 The dynamic fee checker (ante/evm/fee_checker.go) under the London rules: EIP-1559 prices in decimals
 of 18 digits, with a division that truncates and a charge that is rounded up.

 A decimal is the integer of its 10^-18 parts. The bit limits of the decimal type are not modelled.
 */
module FeeChecker {
  import opened Machine

  const UNIT: int := 1_000_000_000_000_000_000

  /** An amount of a decimal. */
  type Dec = int

  /** Go's integer division, which truncates toward zero. */
  function Quo(a: int, b: int): int
    requires b > 0
  {
    if a >= 0 then a / b else -((-a) / b)
  }

  /** `Ceil` then `RoundInt`. */
  function CeilInt(d: Dec): int {
    Quo(d, UNIT) + if d > 0 && d % UNIT != 0 then 1 else 0
  }

  function MinDec(a: Dec, b: Dec): Dec {
    if a < b then a else b
  }

  // ---------- The checker ----------

  datatype ExtensionOption = DynamicFee(hasPrice: bool, maxPriorityPrice: Dec) | OtherOption

  /** The tip cap: from the first dynamic fee option, zero if that has no price, by default 2^63 - 1. */
  function TipCap(options: seq<ExtensionOption>): Dec {
    if options == [] then (TWO63 - 1) * UNIT
    else if options[0].DynamicFee? then (if options[0].hasPrice then options[0].maxPriorityPrice else 0)
    else TipCap(options[1..])
  }

  datatype Verdict = Charged(fee: int, priority: int64) | Refused

  function FeeCap(fee: int, gas: int): Dec
    requires gas > 0
  {
    Quo(fee * UNIT, gas)
  }

  /** `effectiveGasPriceLegacyDec`. */
  function EffectivePrice(baseFee: Dec, feeCap: Dec, tipCap: Dec): Dec {
    MinDec(tipCap + baseFee, feeCap)
  }

  function Priority(price: Dec, baseFee: Dec, reduction: int): int64
    requires reduction > 0
  {
    var p := Quo(Quo(price - baseFee, reduction), UNIT);
    if -TWO63 <= p < TWO63 then p else TWO63 - 1
  }

  function Check(baseFee: Dec, tipCap: Dec, gas: uint64, fee: int, reduction: int): Verdict
    requires reduction > 0
  {
    if tipCap < 0 || gas == 0 || FeeCap(fee, gas) < baseFee then Refused
    else
      var price := EffectivePrice(baseFee, FeeCap(fee, gas), tipCap);
      Charged(CeilInt(price * gas), Priority(price, baseFee, reduction))
  }

  /** `FeeChecker` for a London block; a missing base fee counts as zero. */
  method CheckFee(hasBaseFee: bool, storedBaseFee: Dec, options: seq<ExtensionOption>, gas: uint64, fee: int,
                  reduction: int)
    returns (v: Verdict)
    requires reduction > 0
    ensures v == Check(if hasBaseFee then storedBaseFee else 0, TipCap(options), gas, fee, reduction)
  {
    var baseFee := if hasBaseFee then storedBaseFee else 0;
    var maxPriorityPrice := (TWO63 - 1) * UNIT;
    var i := 0;
    assert options[0..] == options;
    while i < |options|
      invariant 0 <= i <= |options| && TipCap(options) == TipCap(options[i..])
      invariant maxPriorityPrice == (TWO63 - 1) * UNIT
    {
      assert options[i..][0] == options[i] && options[i..][1..] == options[i + 1..];
      if options[i].DynamicFee? {
        maxPriorityPrice := if options[i].hasPrice then options[i].maxPriorityPrice else 0;
        break;
      }
      i := i + 1;
    }
    assert maxPriorityPrice == TipCap(options);
    if maxPriorityPrice < 0 || gas == 0 {
      return Refused;
    }
    var feeCap := FeeCap(fee, gas);
    if feeCap < baseFee {
      return Refused;
    }
    var price := EffectivePrice(baseFee, feeCap, maxPriorityPrice);
    return Charged(CeilInt(price * gas), Priority(price, baseFee, reduction));
  }

  // ---------- Arithmetic ----------

  /** The defining inequalities of the truncating quotient. */
  lemma QuoBounds(a: int, b: int)
    requires a >= 0 && b > 0
    ensures Quo(a, b) >= 0 && Quo(a, b) * b <= a < Quo(a, b) * b + b && a - Quo(a, b) * b == a % b
  {
  }

  lemma QuoMonotone(a: int, a': int, b: int)
    requires 0 <= a <= a' && b > 0
    ensures Quo(a, b) <= Quo(a', b)
  {
    QuoBounds(a, b);
    QuoBounds(a', b);
    var q, q' := Quo(a, b), Quo(a', b);
    assert (q' + 1) * b == q' * b + b;
    if q > q' {
      MulMono(q' + 1, q, b);
    }
  }

  lemma MulMono(x: int, y: int, z: int)
    requires x <= y && z >= 0
    ensures x * z <= y * z
  {
  }

  /** The ceiling is the least integer that is not below. */
  lemma CeilBounds(d: Dec)
    requires d >= 0
    ensures CeilInt(d) >= 0 && (CeilInt(d) - 1) * UNIT < d <= CeilInt(d) * UNIT
  {
  }

  lemma CeilMonotone(d: Dec, d': Dec)
    requires 0 <= d <= d'
    ensures CeilInt(d) <= CeilInt(d')
  {
    CeilBounds(d);
    CeilBounds(d');
  }

  // ---------- Bounds ----------

  /**
   With a base fee that is not negative, a charged transaction pays at least the base fee for its gas,
   at most what it offered, and at most base fee and tip; its priority is between 0 and 2^63 - 1.
   */
  lemma ChargeBounds(baseFee: Dec, tipCap: Dec, gas: uint64, fee: int, reduction: int)
    requires baseFee >= 0 && fee >= 0 && reduction > 0
    ensures var v := Check(baseFee, tipCap, gas, fee, reduction);
      v.Charged? ==>
        && CeilInt(baseFee * gas) <= v.fee <= fee
        && v.fee <= CeilInt((baseFee + tipCap) * gas)
        && 0 <= v.priority
  {
    var v := Check(baseFee, tipCap, gas, fee, reduction);
    if v.Charged? {
      var cap := FeeCap(fee, gas);
      var price := EffectivePrice(baseFee, cap, tipCap);
      QuoBounds(fee * UNIT, gas);
      MulMono(0, baseFee, gas);
      MulMono(baseFee, price, gas);
      MulMono(price, cap, gas);
      MulMono(price, baseFee + tipCap, gas);
      CeilMonotone(baseFee * gas, price * gas);
      CeilMonotone(price * gas, (baseFee + tipCap) * gas);
      CeilMonotone(price * gas, fee * UNIT);
      QuoBounds(price - baseFee, reduction);
      QuoBounds(Quo(price - baseFee, reduction), UNIT);
    }
  }

  /**
   Where the fee cap binds, the charge is the offered fee exactly if the truncation lost less than one
   unit over all the gas.
   */
  lemma CapBindsExactly(baseFee: Dec, tipCap: Dec, gas: uint64, fee: int, reduction: int)
    requires baseFee >= 0 && fee >= 0 && reduction > 0
    requires Check(baseFee, tipCap, gas, fee, reduction).Charged? && FeeCap(fee, gas) <= baseFee + tipCap
    ensures Check(baseFee, tipCap, gas, fee, reduction).fee == fee <==> (fee * UNIT) % gas < UNIT
  {
    var cap := FeeCap(fee, gas);
    QuoBounds(fee * UNIT, gas);
    assert EffectivePrice(baseFee, cap, tipCap) == cap;
    assert cap * gas == fee * UNIT - (fee * UNIT) % gas;
    MulMono(0, cap, gas);
    CeilBounds(cap * gas);
  }

  /** In particular it is exact for up to 10^18 gas. */
  lemma CapBindsUpToUnit(baseFee: Dec, tipCap: Dec, gas: uint64, fee: int, reduction: int)
    requires baseFee >= 0 && fee >= 0 && reduction > 0 && gas <= UNIT
    requires Check(baseFee, tipCap, gas, fee, reduction).Charged? && FeeCap(fee, gas) <= baseFee + tipCap
    ensures Check(baseFee, tipCap, gas, fee, reduction).fee == fee
  {
    CapBindsExactly(baseFee, tipCap, gas, fee, reduction);
  }

  /** Beyond that it need not be: one unit offered for 2 * 10^18 gas is charged nothing. */
  lemma TruncationLoses(reduction: int)
    requires reduction > 0
    ensures Check(0, 0, 2 * UNIT, 1, reduction).Charged? && Check(0, 0, 2 * UNIT, 1, reduction).fee == 0
  {
  }

  // ---------- Exact verdicts ----------

  /** The first dynamic fee option is the i-th. */
  ghost predicate FirstDynamic(options: seq<ExtensionOption>, i: nat) {
    i < |options| && options[i].DynamicFee? && forall k :: 0 <= k < i ==> options[k].OtherOption?
  }

  ghost predicate NoDynamic(options: seq<ExtensionOption>) {
    forall o :: o in options ==> o.OtherOption?
  }

  /** The first dynamic fee option caps the tip, at zero if it names no price. */
  lemma {:induction false} TipCapOfOption(options: seq<ExtensionOption>, i: nat)
    requires FirstDynamic(options, i)
    ensures TipCap(options) == if options[i].hasPrice then options[i].maxPriorityPrice else 0
    decreases i
  {
    if i > 0 {
      TipCapOfOption(options[1..], i - 1);
    }
  }

  /** Without such an option the tip is capped at MaxInt64. */
  lemma {:induction false} TipCapByDefault(options: seq<ExtensionOption>)
    requires NoDynamic(options)
    ensures TipCap(options) == 9_223_372_036_854_775_807 * UNIT
  {
    if options != [] {
      assert options[0] in options;
      TipCapByDefault(options[1..]);
    }
  }

  /** Refused are a negative tip, no gas, and an offer that does not cover the base fee for all the gas. */
  lemma RefusedExactly(baseFee: Dec, tipCap: Dec, gas: uint64, fee: int, reduction: int)
    requires baseFee >= 0 && fee >= 0 && reduction > 0
    ensures Check(baseFee, tipCap, gas, fee, reduction).Refused? <==>
            tipCap < 0 || gas == 0 || fee * UNIT < baseFee * gas
  {
    if gas > 0 {
      CapAtLeast(baseFee, gas, fee);
    }
  }

  lemma CapAtLeast(price: Dec, gas: uint64, fee: int)
    requires price >= 0 && fee >= 0 && gas > 0
    ensures FeeCap(fee, gas) >= price <==> fee * UNIT >= price * gas
  {
    var cap := FeeCap(fee, gas);
    QuoBounds(fee * UNIT, gas);
    assert (cap + 1) * gas == cap * gas + gas;
    if cap >= price {
      MulMono(price, cap, gas);
    } else {
      MulMono(cap + 1, price, gas);
    }
  }

  /** Where base fee and tip cost no more than the offer, they are charged, rounded up. */
  lemma TipBindsExactly(baseFee: Dec, tipCap: Dec, gas: uint64, fee: int, reduction: int)
    requires baseFee >= 0 && fee >= 0 && reduction > 0 && Check(baseFee, tipCap, gas, fee, reduction).Charged?
    requires (baseFee + tipCap) * gas <= fee * UNIT
    ensures var v := Check(baseFee, tipCap, gas, fee, reduction);
      && (v.fee - 1) * UNIT < (baseFee + tipCap) * gas <= v.fee * UNIT
      && v.priority == Priority(baseFee + tipCap, baseFee, reduction)
  {
    CapAtLeast(baseFee + tipCap, gas, fee);
    MulMono(0, baseFee + tipCap, gas);
    CeilBounds((baseFee + tipCap) * gas);
  }

  /**
   Without a dynamic fee option, every accepted transaction is charged what it offered, up to 10^18 gas and
   a tip of MaxInt64 on each unit of it.
   */
  lemma OfferCharged(baseFee: Dec, options: seq<ExtensionOption>, gas: uint64, fee: int, reduction: int)
    requires baseFee >= 0 && fee >= 0 && reduction > 0 && 0 < gas <= UNIT && NoDynamic(options)
    requires baseFee * gas <= fee * UNIT <= (baseFee + 9_223_372_036_854_775_807 * UNIT) * gas
    ensures var v := Check(baseFee, TipCap(options), gas, fee, reduction); v.Charged? && v.fee == fee
  {
    TipCapByDefault(options);
    RefusedExactly(baseFee, TipCap(options), gas, fee, reduction);
    CapAtMost(baseFee + TipCap(options), gas, fee);
    CapBindsUpToUnit(baseFee, TipCap(options), gas, fee, reduction);
  }

  lemma CapAtMost(price: Dec, gas: uint64, fee: int)
    requires price >= 0 && fee >= 0 && gas > 0 && fee * UNIT <= price * gas
    ensures FeeCap(fee, gas) <= price
  {
    CapAtLeast(price + 1, gas, fee);
    assert (price + 1) * gas == price * gas + gas;
  }

  /** The priority is the tip in whole units of the reduction, and MaxInt64 beyond that. */
  lemma PriorityExactly(price: Dec, baseFee: Dec, reduction: int)
    requires baseFee <= price && reduction > 0
    ensures var p, tip := Priority(price, baseFee, reduction), price - baseFee;
      if tip < TWO63 * UNIT * reduction
      then 0 <= p && p * UNIT * reduction <= tip < (p + 1) * UNIT * reduction
      else p == 9_223_372_036_854_775_807
  {
    var tip := price - baseFee;
    var q := Quo(tip, reduction);
    var p := Quo(q, UNIT);
    QuoBounds(tip, reduction);
    QuoBounds(q, UNIT);
    assert (q + 1) * reduction == q * reduction + reduction;
    MulMono(p * UNIT, q, reduction);
    MulMono(q + 1, (p + 1) * UNIT, reduction);
    if p >= TWO63 {
      MulMono(TWO63 * UNIT, p * UNIT, reduction);
    } else {
      MulMono((p + 1) * UNIT, TWO63 * UNIT, reduction);
    }
  }

  // ---------- Monotonicity ----------

  lemma MinMonotone(t: Dec, a: Dec, b: Dec)
    requires a <= b
    ensures MinDec(t, a) <= MinDec(t, b)
  {
  }

  lemma PriorityMonotone(p: Dec, p': Dec, baseFee: Dec, reduction: int)
    requires baseFee <= p <= p' && reduction > 0
    ensures Priority(p, baseFee, reduction) <= Priority(p', baseFee, reduction)
  {
    QuoMonotone(p - baseFee, p' - baseFee, reduction);
    QuoBounds(p - baseFee, reduction);
    QuoMonotone(Quo(p - baseFee, reduction), Quo(p' - baseFee, reduction), UNIT);
    QuoBounds(Quo(p - baseFee, reduction), UNIT);
  }

  /** Offering more is never refused where less was accepted, never charged less, and never ranked lower. */
  lemma OfferMonotone(baseFee: Dec, tipCap: Dec, gas: uint64, fee: int, fee': int, reduction: int)
    requires baseFee >= 0 && 0 <= fee <= fee' && reduction > 0
    requires Check(baseFee, tipCap, gas, fee, reduction).Charged?
    ensures var v, v' := Check(baseFee, tipCap, gas, fee, reduction), Check(baseFee, tipCap, gas, fee', reduction);
      v'.Charged? && v.fee <= v'.fee && v.priority <= v'.priority
  {
    var cap, cap' := FeeCap(fee, gas), FeeCap(fee', gas);
    MulMono(fee, fee', UNIT);
    QuoMonotone(fee * UNIT, fee' * UNIT, gas);
    QuoBounds(fee * UNIT, gas);
    MinMonotone(tipCap + baseFee, cap, cap');
    var p, p' := EffectivePrice(baseFee, cap, tipCap), EffectivePrice(baseFee, cap', tipCap);
    MulMono(p, p', gas);
    MulMono(0, p, gas);
    CeilMonotone(p * gas, p' * gas);
    PriorityMonotone(p, p', baseFee, reduction);
  }
}
