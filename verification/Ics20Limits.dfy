/**
 When an ICS-20 allowance (precompiles/ics20/approve_common.go) can be changed, in terms of the coins that an
 authorization lists.
 */
module Ics20Limits {
  import opened Machine
  import opened Coins
  import opened Ics20

  ghost predicate IsFirst(vs: seq<Allocation>, port: string, channel: string, i: nat) {
    && i < |vs| && vs[i].port == port && vs[i].channel == channel
    && forall k :: 0 <= k < i ==> vs[k].port != port || vs[k].channel != channel
  }

  /** In the first allocation for port and channel, the limit has a coin of the denomination, of that amount. */
  ghost predicate HasLimit(vs: seq<Allocation>, port: string, channel: string, denom: string, amount: int) {
    exists i: nat :: IsFirst(vs, port, channel, i) && Coin(denom, amount) in vs[i].limit
  }

  /** An increase takes such a coin and room for 256 bits; a decrease, such a coin that covers it. */
  lemma ChangesExactly(vs: seq<Allocation>, port: string, channel: string, denom: string, amount: int)
    requires AllValid(vs)
    ensures CanIncrease(vs, port, channel, denom, amount) <==>
            exists a :: HasLimit(vs, port, channel, denom, a) && a + amount < TWO256
    ensures CanDecrease(vs, port, channel, denom, amount) <==>
            exists a :: HasLimit(vs, port, channel, denom, a) && amount <= a
  {
    var a := Allotted(vs, port, channel, denom);
    forall b ensures HasLimit(vs, port, channel, denom, b) <==> b == a > 0 {
      LimitIs(vs, port, channel, denom, b);
    }
    assert a > 0 ==> HasLimit(vs, port, channel, denom, a);
  }

  lemma LimitIs(vs: seq<Allocation>, port: string, channel: string, denom: string, b: int)
    requires AllValid(vs)
    ensures HasLimit(vs, port, channel, denom, b) <==> b == Allotted(vs, port, channel, denom) > 0
  {
    var j := FirstMatch(vs, port, channel);
    if j < |vs| {
      assert vs[j] in vs && IsFirst(vs, port, channel, j);
      CoinIn(vs[j].limit, denom, b);
      if i: nat :| IsFirst(vs, port, channel, i) && Coin(denom, b) in vs[i].limit {
        assert i == j;
      }
    }
  }

  lemma {:induction false} CoinIn(cs: Coins, denom: string, b: int)
    requires Valid(cs)
    ensures Coin(denom, b) in cs <==> b == AmountOf(cs, denom) > 0
  {
    if cs != [] {
      ValidTail(cs);
      CoinIn(cs[1..], denom, b);
      OnlyAtHead(cs);
      assert cs == [cs[0]] + cs[1..];
    }
  }
}
