/**
 Allowances of the ICS-20 precompile (precompiles/ics20): spend limits per port and channel, changed in
 place. `DecreaseAllowance` removes a coin by shifting the array over which it is still ranging; the
 slices share one backing array, which the model keeps.
 */
module Ics20 {
  import opened Machine
  import opened Common
  import opened Lex
  import opened Text
  import opened Coins

  // ---------- Removing while ranging ----------

  /**
   The loop of `DecreaseAllowance`: it ranges over the slice as it was at the start, while `append` shifts the same
   backing array and shortens the slice.
   */
  method SubtractLoop(buffer: array<Coin>, n: nat, denom: string, expense: int, ghost limit: Coins, ghost k: nat)
    returns (len: nat)
    requires n <= buffer.Length && buffer[..n] == limit && k < n && limit[k].denom == denom
    requires forall j :: 0 <= j < n && j != k ==> limit[j].denom != denom
    modifies buffer
    ensures len <= n && buffer[..len] == AfterTurn(limit, k, limit[k].amount - expense)
  {
    len := n;
    ghost var diff := limit[k].amount - expense;
    var i := 0;
    while i < n
      invariant 0 <= i <= n
      invariant i <= k ==> len == n && buffer[..n] == limit
      invariant i > k ==> Turned(buffer[..n], len, limit, k, diff)
    {
      var coin := buffer[i];
      assert coin == buffer[..n][i];
      if i > k {
        StillOthers(buffer[..n], limit, k, diff, denom, i);
      }
      if coin.denom == denom {
        len := TakeOff(buffer, i, n, coin, expense, limit);
      }
      i := i + 1;
    }
    assert buffer[..len] == buffer[..n][..len];
  }

  /** The turn that finds the coin: it drops the coin or reduces its amount. */
  method TakeOff(buffer: array<Coin>, i: nat, n: nat, coin: Coin, expense: int, ghost limit: Coins) returns (len: nat)
    requires i < n <= buffer.Length && buffer[..n] == limit && coin == limit[i]
    modifies buffer
    ensures Turned(buffer[..n], len, limit, i, coin.amount - expense)
  {
    len := n;
    var coinDiff := coin.amount - expense;
    if coinDiff <= 0 {
      assert buffer[..i] == limit[..i] && buffer[i + 1..n] == limit[i + 1..] && buffer[n - 1] == limit[n - 1];
      ShiftLeft(buffer, i, n);
      len := len - 1;
    } else {
      buffer[i] := Coin(coin.denom, coinDiff);
      assert buffer[..n] == limit[i := Coin(coin.denom, coinDiff)];
    }
  }

  /** `append(s[:i], s[i+1:]...)` on a slice of length `n`: the last element stays where it was, too. */
  method ShiftLeft(a: array<Coin>, i: nat, n: nat)
    requires i < n <= a.Length
    modifies a
    ensures a[..n] == old(a[..i]) + old(a[i + 1..n]) + [old(a[n - 1])]
    ensures a[n..] == old(a[n..])
  {
    forall j | i <= j < n - 1 {
      a[j] := a[j + 1];
    }
  }

  /** The spend limit after the turn that found the coin at `k`, of which `diff` is left. */
  ghost function AfterTurn(limit: Coins, k: nat, diff: int): Coins
    requires k < |limit|
  {
    if diff <= 0 then limit[..k] + limit[k + 1..] else limit[k := Coin(limit[k].denom, diff)]
  }

  /** What the loop still sees in the array after that turn: a removal leaves the last coin twice. */
  ghost predicate Visible(seen: Coins, limit: Coins, k: nat, diff: int) {
    && k < |limit|
    && seen == if diff <= 0 then AfterTurn(limit, k, diff) + [limit[|limit| - 1]] else AfterTurn(limit, k, diff)
  }

  ghost predicate Turned(seen: Coins, len: nat, limit: Coins, k: nat, diff: int) {
    Visible(seen, limit, k, diff) && len == |AfterTurn(limit, k, diff)|
  }

  /** The rest of the loop meets only other denominations. */
  lemma StillOthers(seen: Coins, limit: Coins, k: nat, diff: int, denom: string, i: nat)
    requires Visible(seen, limit, k, diff) && k < i < |limit|
    requires forall j :: 0 <= j < |limit| && j != k ==> limit[j].denom != denom
    ensures |seen| == |limit| && seen[i].denom != denom
  {
    if diff <= 0 {
      assert seen[i] == limit[if i < |limit| - 1 then i + 1 else i];
    }
  }

  lemma TurnIsSetAmount(limit: Coins, k: nat, diff: int)
    requires Valid(limit) && k < |limit| && diff >= 0
    ensures AfterTurn(limit, k, diff) == SetAmount(limit, limit[k].denom, diff)
  {
    if diff == 0 {
      RemovedAt(limit, k);
    } else {
      Overwritten(limit, k, Coin(limit[k].denom, diff));
    }
  }

  /** The one place of a denomination in a valid list that has it. */
  ghost function Position(cs: Coins, denom: string): (k: nat)
    requires Valid(cs) && AmountOf(cs, denom) > 0
    ensures k < |cs| && cs[k] == Coin(denom, AmountOf(cs, denom))
    ensures forall i :: 0 <= i < |cs| && i != k ==> cs[i].denom != denom
  {
    ValidTail(cs);
    if cs[0].denom == denom then
      OnlyAtHead(cs);
      0
    else
      var k := Position(cs[1..], denom);
      assert forall i :: 1 <= i < |cs| ==> cs[i] == cs[1..][i - 1];
      k + 1
  }

  lemma OnlyAtHead(cs: Coins)
    requires Valid(cs) && cs != []
    ensures forall i :: 0 < i < |cs| ==> cs[i].denom != cs[0].denom
  {
    forall i | 0 < i < |cs| ensures cs[i].denom != cs[0].denom {
      LessAsymmetric(Codes(cs[0].denom), Codes(cs[i].denom));
    }
  }

  /** Taking a coin out of a valid list is setting its amount to zero. */
  lemma {:induction false} RemovedAt(cs: Coins, i: nat)
    requires Valid(cs) && i < |cs|
    ensures cs[..i] + cs[i + 1..] == SetAmount(cs, cs[i].denom, 0)
    decreases i
  {
    if i > 0 {
      LessAsymmetric(Codes(cs[0].denom), Codes(cs[i].denom));
      RemovedAt(cs[1..], i - 1);
      assert cs[1..][..i - 1] == cs[1..i] && cs[1..][i..] == cs[i + 1..];
      assert cs[..i] == [cs[0]] + cs[1..i];
    }
  }

  // ---------- Authorizations ----------

  datatype Allocation = Allocation(port: string, channel: string, limit: Coins)

  ghost predicate AllValid(vs: seq<Allocation>) {
    forall a :: a in vs ==> Valid(a.limit)
  }

  /** The first allocation for a port and channel, or the number of allocations. */
  function FirstMatch(vs: seq<Allocation>, port: string, channel: string): (i: nat)
    ensures i <= |vs|
    ensures forall k :: 0 <= k < i ==> vs[k].port != port || vs[k].channel != channel
    ensures i < |vs| ==> vs[i].port == port && vs[i].channel == channel
  {
    if vs == [] || (vs[0].port == port && vs[0].channel == channel) then 0
    else 1 + FirstMatch(vs[1..], port, channel)
  }

  /** The allowance of a denomination at the first matching allocation; zero if there is none. */
  function Allotted(vs: seq<Allocation>, port: string, channel: string, denom: string): int {
    var i := FirstMatch(vs, port, channel);
    if i < |vs| then AmountOf(vs[i].limit, denom) else 0
  }

  /** The allocations with that allowance set, and nothing else changed. */
  function WithAllotted(vs: seq<Allocation>, port: string, channel: string, denom: string, amount: int)
    : seq<Allocation>
  {
    var i := FirstMatch(vs, port, channel);
    if i < |vs| then vs[i := vs[i].(limit := SetAmount(vs[i].limit, denom, amount))] else vs
  }

  /** An allowance can be raised only where there is one already, and up to 256 bits. */
  predicate CanIncrease(vs: seq<Allocation>, port: string, channel: string, denom: string, amount: int) {
    0 < Allotted(vs, port, channel, denom) < TWO256 - amount
  }

  predicate CanDecrease(vs: seq<Allocation>, port: string, channel: string, denom: string, amount: int) {
    0 < Allotted(vs, port, channel, denom) && amount <= Allotted(vs, port, channel, denom)
  }

  class TransferAuthorization {
    var allocations: seq<Allocation>

    constructor (allocations: seq<Allocation>)
      ensures this.allocations == allocations
    {
      this.allocations := allocations;
    }

    function Allowed(port: string, channel: string, denom: string): int
      reads this
    {
      Allotted(allocations, port, channel, denom)
    }

    /** `checkAllocationExists`. */
    method CheckAllocationExists(port: string, channel: string, denom: string) returns (ok: bool, amount: int, idx: nat)
      requires AllValid(allocations)
      ensures ok <==> Allowed(port, channel, denom) > 0
      ensures ok ==> idx == FirstMatch(allocations, port, channel) < |allocations|
      ensures ok ==> amount == Allowed(port, channel, denom)
    {
      var i := 0;
      while i < |allocations|
        invariant 0 <= i <= |allocations| && i <= FirstMatch(allocations, port, channel)
      {
        if allocations[i].port == port && allocations[i].channel == channel {
          var found, coin := Find(allocations[i].limit, denom);
          return found, coin.amount, i;
        }
        i := i + 1;
      }
      return false, 0, 0;
    }

    method IncreaseAllowance(port: string, channel: string, denom: string, amount: int) returns (ok: bool)
      requires AllValid(allocations) && amount >= 0
      modifies this
      ensures AllValid(allocations)
      ensures ok <==> CanIncrease(old(allocations), port, channel, denom, amount)
      ensures allocations ==
        if ok then WithAllotted(old(allocations), port, channel, denom, old(Allowed(port, channel, denom)) + amount)
        else old(allocations)
    {
      var found, limit, idx := CheckAllocationExists(port, channel, denom);
      if !found {
        return false;
      }
      var sum, overflow := SafeAdd(limit, amount);
      if overflow {
        return false;
      }
      var allocation := allocations[idx];
      AllottedValid(allocations, idx, denom, limit + amount);
      allocations := allocations[idx := allocation.(limit := SetAmount(allocation.limit, denom, limit + amount))];
      return true;
    }

    /**
     Subtracts exactly the amount from the first matching allocation, drops the coin exactly when it
     reaches zero, and leaves every other coin and allocation as it was.
     */
    method DecreaseAllowance(port: string, channel: string, denom: string, amount: int) returns (ok: bool)
      requires AllValid(allocations) && amount >= 0
      modifies this
      ensures AllValid(allocations)
      ensures ok <==> CanDecrease(old(allocations), port, channel, denom, amount)
      ensures allocations ==
        if ok then WithAllotted(old(allocations), port, channel, denom, old(Allowed(port, channel, denom)) - amount)
        else old(allocations)
    {
      var found, limit, idx := CheckAllocationExists(port, channel, denom);
      if !found || limit < amount {
        return false;
      }
      var allocation := allocations[idx];
      var reduced := Subtracted(allocation.limit, denom, amount);
      AllottedValid(allocations, idx, denom, limit - amount);
      allocations := allocations[idx := allocation.(limit := reduced)];
      return true;
    }
  }

  lemma AllottedValid(vs: seq<Allocation>, i: nat, denom: string, amount: int)
    requires AllValid(vs) && i < |vs| && amount >= 0
    ensures AllValid(vs[i := vs[i].(limit := SetAmount(vs[i].limit, denom, amount))])
  {
    SetAmountValid(vs[i].limit, denom, amount);
  }

  /** Runs the loop on the backing array of a spend limit. */
  method Subtracted(limit: Coins, denom: string, expense: int) returns (r: Coins)
    requires Valid(limit) && 0 <= expense <= AmountOf(limit, denom) && AmountOf(limit, denom) > 0
    ensures r == SetAmount(limit, denom, AmountOf(limit, denom) - expense)
  {
    var buffer := new Coin[|limit|](i requires 0 <= i < |limit| => limit[i]);
    ghost var k := Position(limit, denom);
    assert buffer[..|limit|] == limit;
    var len := SubtractLoop(buffer, |limit|, denom, expense, limit, k);
    TurnIsSetAmount(limit, k, AmountOf(limit, denom) - expense);
    r := buffer[..len];
  }

  // ---------- Laws ----------

  lemma WithAllottedReads(vs: seq<Allocation>, port: string, channel: string, denom: string, amount: int,
                          p: string, c: string, d: string)
    requires AllValid(vs) && amount >= 0 && FirstMatch(vs, port, channel) < |vs|
    ensures Allotted(WithAllotted(vs, port, channel, denom, amount), p, c, d) ==
            if p == port && c == channel && d == denom then amount else Allotted(vs, p, c, d)
  {
    var i := FirstMatch(vs, port, channel);
    var ws := WithAllotted(vs, port, channel, denom, amount);
    SameMatch(vs, ws, p, c);
    SetAmountOf(vs[i].limit, denom, amount, d);
  }

  lemma {:induction false} SameMatch(vs: seq<Allocation>, ws: seq<Allocation>, port: string, channel: string)
    requires |vs| == |ws| && forall i :: 0 <= i < |vs| ==> vs[i].port == ws[i].port && vs[i].channel == ws[i].channel
    ensures FirstMatch(vs, port, channel) == FirstMatch(ws, port, channel)
  {
    if vs != [] {
      SameMatch(vs[1..], ws[1..], port, channel);
    }
  }

  /** An increase followed by the same decrease succeeds and restores the authorization itself. */
  lemma IncreaseThenDecrease(vs: seq<Allocation>, port: string, channel: string, denom: string, amount: int)
    requires AllValid(vs) && amount >= 0 && CanIncrease(vs, port, channel, denom, amount)
    ensures var up := WithAllotted(vs, port, channel, denom, Allotted(vs, port, channel, denom) + amount);
      && CanDecrease(up, port, channel, denom, amount)
      && WithAllotted(up, port, channel, denom, Allotted(up, port, channel, denom) - amount) == vs
  {
    var i, a := FirstMatch(vs, port, channel), Allotted(vs, port, channel, denom);
    var up := WithAllotted(vs, port, channel, denom, a + amount);
    WithAllottedReads(vs, port, channel, denom, a + amount, port, channel, denom);
    SameMatch(vs, up, port, channel);
    SetBack(vs[i].limit, denom, a + amount);
    var back := WithAllotted(up, port, channel, denom, a);
    assert back[i] == vs[i] && forall j :: 0 <= j < |vs| && j != i ==> back[j] == vs[j];
  }

  /**
   An allowance that was spent down to zero is gone for good: its allocation stays, but an increase no
   longer finds the coin and is refused, whatever its amount.
   */
  lemma SpentIsGone(vs: seq<Allocation>, port: string, channel: string, denom: string)
    requires AllValid(vs) && Allotted(vs, port, channel, denom) > 0
    ensures var down := WithAllotted(vs, port, channel, denom, 0);
      && |down| == |vs| && Allotted(down, port, channel, denom) == 0
      && forall x :: !CanIncrease(down, port, channel, denom, x) && !CanDecrease(down, port, channel, denom, x)
  {
    WithAllottedReads(vs, port, channel, denom, 0, port, channel, denom);
  }
}
