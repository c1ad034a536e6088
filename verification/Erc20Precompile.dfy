/**
 The ERC-20 precompile (precompiles/erc20/approve.go, tx.go and query.go), branch by branch, over the
 authz store and the bank it works on; each method is proved against the ledger view of module `Erc20`.

 `SendAuthorization.Accept` and `DispatchActions` of the SDK are modelled by what they do to a grant:
 subtract the coins, and delete the grant when nothing is left.
 */
module Erc20Precompile {
  import opened Machine
  import opened Common
  import opened Coins
  import opened Erc20

  const MAX_UINT256: int := TWO256 - 1

  datatype BankKey = BankKey(account: Address, denom: string)

  class Precompile {
    const denom: string
    var grants: Grants
    var balances: map<BankKey, nat>

    constructor (denom: string, grants: Grants, balances: map<BankKey, nat>)
      ensures this.denom == denom && this.grants == grants && this.balances == balances
    {
      this.denom, this.grants, this.balances := denom, grants, balances;
    }

    // ---------- Storing grants ----------

    /** `SaveGrant` of a send authorization. */
    method Store(grantee: Address, granter: Address, limit: Coins)
      modifies this`grants
      ensures grants == old(grants)[GrantKey(grantee, granter) := Send(limit)]
    {
      grants := grants[GrantKey(grantee, granter) := Send(limit)];
    }

    method CreateAuthorization(grantee: Address, granter: Address, amount: int) returns (ok: bool)
      requires GrantKey(grantee, granter) !in grants && amount > 0
      modifies this`grants
      ensures ok <==> amount < TWO256
      ensures grants == if ok then WithAllowance(old(grants), granter, grantee, denom, amount) else old(grants)
    {
      if amount >= TWO256 {
        return false;
      }
      assert SetAmount([], denom, amount) == [Coin(denom, amount)];
      Store(grantee, granter, [Coin(denom, amount)]);
      return true;
    }

    method UpdateAuthorization(grantee: Address, granter: Address, amount: int, limit: Coins) returns (ok: bool)
      requires ValidGrants(grants) && GrantKey(grantee, granter) in grants
      requires grants[GrantKey(grantee, granter)] == Send(limit) && amount > 0
      modifies this`grants
      ensures ok <==> amount < TWO256
      ensures grants == if ok then WithAllowance(old(grants), granter, grantee, denom, amount) else old(grants)
    {
      if amount >= TWO256 {
        return false;
      }
      var updated := UpdateOrAddCoin(limit, Coin(denom, amount));
      SetAmountOf(limit, denom, amount, denom);
      Store(grantee, granter, updated);
      return true;
    }

    method RemoveSpendLimitOrDelete(grantee: Address, granter: Address, authorization: Authorization) returns (ok: bool)
      requires ValidGrants(grants) && GrantKey(grantee, granter) in grants
      requires grants[GrantKey(grantee, granter)] == authorization
      modifies this`grants
      ensures ok <==> authorization.Send? && Allowance(old(grants), granter, grantee, denom) > 0
      ensures grants == if ok then WithAllowance(old(grants), granter, grantee, denom, 0) else old(grants)
    {
      if !authorization.Send? {
        return false;
      }
      var found, coin := Find(authorization.limit, denom);
      if !found {
        return false;
      }
      var rest, hasNeg := SafeSub(authorization.limit, coin);
      if hasNeg {
        return false;
      }
      if rest == [] {
        grants := grants - {GrantKey(grantee, granter)};
      } else {
        Store(grantee, granter, rest);
      }
      return true;
    }

    // ---------- The calls ----------

    method Approve(caller: Address, spender: Address, amount: int) returns (ok: bool)
      requires ValidGrants(grants)
      modifies this`grants
      ensures ok <==> Succeeds(old(grants), Call.Approve(caller, spender, denom, amount))
      ensures grants == if ok then After(old(grants), Call.Approve(caller, spender, denom, amount)) else old(grants)
      ensures ok ==> Allowance(grants, caller, spender, denom) == if amount < 0 then 0 else amount
    {
      ghost var call := Call.Approve(caller, spender, denom, amount);
      if Succeeds(grants, call) {
        StepRefines(grants, call, caller, spender, denom);
      }
      if spender == caller {
        return false;
      }
      var key := GrantKey(spender, caller);
      LimitValid(grants, key);
      if key !in grants {
        if amount < 0 {
          return false;
        }
        if amount > 0 {
          ok := CreateAuthorization(spender, caller, amount);
          return;
        }
        assert grants - {key} == grants;
        return true;
      }
      var authorization := grants[key];
      if amount <= 0 {
        ok := RemoveSpendLimitOrDelete(spender, caller, authorization);
        return;
      }
      if !authorization.Send? {
        return false;
      }
      ok := UpdateAuthorization(spender, caller, amount, authorization.limit);
    }

    method IncreaseAllowance(caller: Address, spender: Address, addedValue: int) returns (ok: bool, amount: int)
      requires ValidGrants(grants)
      modifies this`grants
      ensures ok <==> Succeeds(old(grants), Call.IncreaseAllowance(caller, spender, denom, addedValue))
      ensures grants ==
        if ok then After(old(grants), Call.IncreaseAllowance(caller, spender, denom, addedValue)) else old(grants)
      ensures ok ==> amount == Allowance(old(grants), caller, spender, denom) + addedValue
    {
      amount := 0;
      if spender == caller || addedValue <= 0 {
        return false, amount;
      }
      var key := GrantKey(spender, caller);
      LimitValid(grants, key);
      if key !in grants {
        amount := addedValue;
        Increased(grants, caller, spender, denom, addedValue, amount);
        ok := CreateAuthorization(spender, caller, addedValue);
        return;
      }
      if !grants[key].Send? {
        return false, amount;
      }
      var overflow;
      amount, overflow := SafeAdd(AmountOf(grants[key].limit, denom), addedValue);
      if overflow {
        return false, amount;
      }
      Increased(grants, caller, spender, denom, addedValue, amount);
      ok := UpdateAuthorization(spender, caller, amount, grants[key].limit);
    }

    method DecreaseAllowance(caller: Address, spender: Address, subtractedValue: int) returns (ok: bool, amount: int)
      requires ValidGrants(grants)
      modifies this`grants
      ensures ok <==> Succeeds(old(grants), Call.DecreaseAllowance(caller, spender, denom, subtractedValue))
      ensures grants ==
        if ok then After(old(grants), Call.DecreaseAllowance(caller, spender, denom, subtractedValue)) else old(grants)
      ensures ok ==> amount == Allowance(old(grants), caller, spender, denom) - subtractedValue
    {
      amount := 0;
      if spender == caller || subtractedValue <= 0 {
        return false, amount;
      }
      var found, allowance := GetAllowance(spender, caller);
      if !found {
        return false, amount;
      }
      amount := allowance - subtractedValue;
      if amount < 0 {
        return false, amount;
      }
      Decreased(grants, caller, spender, denom, subtractedValue, amount);
      LowerAllowance(spender, caller, amount);
      ok := true;
    }

    /** A lower allowance replaces the coin, or removes it at zero. */
    method LowerAllowance(grantee: Address, granter: Address, amount: int)
      requires ValidGrants(grants) && GrantKey(grantee, granter) in grants && Free(grants, granter, grantee)
      requires 0 <= amount < Allowance(grants, granter, grantee, denom)
      modifies this`grants
      ensures grants == WithAllowance(old(grants), granter, grantee, denom, amount)
    {
      var key := GrantKey(grantee, granter);
      LimitValid(grants, key);
      var ok;
      if amount > 0 {
        ok := UpdateAuthorization(grantee, granter, amount, grants[key].limit);
      } else {
        ok := RemoveSpendLimitOrDelete(grantee, granter, grants[key]);
      }
    }

    /** `GetAuthzExpirationAndAllowance`: fails without a grant of the right type. */
    method GetAllowance(grantee: Address, granter: Address) returns (ok: bool, allowance: int)
      ensures ok <==> GrantKey(grantee, granter) in grants && Free(grants, granter, grantee)
      ensures allowance == Allowance(grants, granter, grantee, denom)
    {
      var key := GrantKey(grantee, granter);
      if key !in grants || !grants[key].Send? {
        return false, 0;
      }
      return true, AmountOf(grants[key].limit, denom);
    }

    /** The `allowance` query: the owner's own allowance is unlimited, a missing one is zero. */
    method QueryAllowance(owner: Address, spender: Address) returns (r: int)
      ensures r == if owner == spender then MAX_UINT256 else Allowance(grants, owner, spender, denom)
    {
      if owner == spender {
        return MAX_UINT256;
      }
      var ok, allowance := GetAllowance(spender, owner);
      return if ok then allowance else 0;
    }

    // ---------- Transfers ----------

    function Balance(account: Address): nat
      reads this
    {
      var key := BankKey(account, denom);
      if key in balances then balances[key] else 0
    }

    /** The bank's send: it may refuse for reasons of its own, and refuses what is not covered. */
    method BankSend(from: Address, to: Address, amount: nat, refuses: bool) returns (ok: bool)
      modifies this`balances
      ensures ok <==> !refuses && amount <= old(Balance(from))
      ensures !ok ==> balances == old(balances)
      ensures ok ==> Moved(old(balances), balances, denom, from, to, amount)
    {
      if refuses || Balance(from) < amount {
        return false;
      }
      balances := balances[BankKey(from, denom) := Balance(from) - amount];
      balances := balances[BankKey(to, denom) := Balance(to) + amount];
      return true;
    }

    /** `DispatchActions`: takes the coins off the grant, deletes it at zero, and sends. */
    method DispatchSend(spender: Address, from: Address, to: Address, amount: nat, refuses: bool) returns (ok: bool)
      requires ValidGrants(grants) && amount > 0
      requires GrantKey(spender, from) in grants && grants[GrantKey(spender, from)].Send?
      modifies this`grants, this`balances
      ensures ok <==> amount <= Allowance(old(grants), from, spender, denom) && !refuses && amount <= old(Balance(from))
      ensures ok ==> grants == WithAllowance(old(grants), from, spender, denom,
                                             Allowance(old(grants), from, spender, denom) - amount)
      ensures ok ==> Moved(old(balances), balances, denom, from, to, amount)
    {
      var key := GrantKey(spender, from);
      var rest, hasNeg := SafeSub(grants[key].limit, Coin(denom, amount));
      if hasNeg {
        return false;
      }
      if rest == [] {
        grants := grants - {key};
      } else {
        Store(spender, from, rest);
      }
      ok := BankSend(from, to, amount, refuses);
    }

    /** A transfer by someone other than the owner. */
    method SpendAllowance(caller: Address, from: Address, to: Address, amount: nat, refuses: bool)
      returns (ok: bool, newAllowance: int)
      requires ValidGrants(grants) && amount > 0 && caller != from
      modifies this`grants, this`balances
      ensures ok <==>
        && GrantKey(caller, from) in old(grants) && Free(old(grants), from, caller)
        && amount <= Allowance(old(grants), from, caller, denom) && !refuses && amount <= old(Balance(from))
      ensures ok ==> newAllowance == Allowance(old(grants), from, caller, denom) - amount
      ensures ok ==> grants == WithAllowance(old(grants), from, caller, denom, newAllowance)
      ensures ok ==> Allowance(grants, from, caller, denom) == newAllowance
      ensures ok ==> Moved(old(balances), balances, denom, from, to, amount)
    {
      var found, prevAllowance := GetAllowance(caller, from);
      newAllowance := prevAllowance - amount;
      if !found {
        return false, newAllowance;
      }
      SpendLeaves(grants, from, caller, denom, newAllowance);
      ok := DispatchSend(caller, from, to, amount, refuses);
    }

    /**
     `transferFrom`: with an allowance unless the caller is the owner. The EVM reverts a failed call, which
     the last statement stands for. `newAllowance` is what the Approval event reports.
     */
    method TransferFrom(caller: Address, from: Address, to: Address, amount: int, refuses: bool)
      returns (ok: bool, newAllowance: int)
      requires ValidGrants(grants)
      modifies this`grants, this`balances
      ensures ok <==>
        && Succeeds(old(grants), Call.TransferFrom(from, caller, denom, amount, to))
        && !refuses && amount <= old(Balance(from))
      ensures grants ==
        if ok then After(old(grants), Call.TransferFrom(from, caller, denom, amount, to)) else old(grants)
      ensures if ok then Moved(old(balances), balances, denom, from, to, amount) else balances == old(balances)
      ensures ok && caller != from ==> newAllowance == Allowance(grants, from, caller, denom)
    {
      newAllowance := MAX_UINT256;
      if amount <= 0 || amount >= TWO256 {
        return false, newAllowance;
      }
      var grants0, balances0 := grants, balances;
      if caller == from {
        ok := BankSend(from, to, amount, refuses);
      } else {
        ok, newAllowance := SpendAllowance(caller, from, to, amount, refuses);
      }
      if !ok {
        grants, balances := grants0, balances0;
      }
    }
  }

  lemma SpendLeaves(g: Grants, owner: Address, spender: Address, denom: string, left: int)
    requires ValidGrants(g) && Free(g, owner, spender) && left <= Allowance(g, owner, spender, denom)
    ensures left >= 0 ==> Allowance(WithAllowance(g, owner, spender, denom, left), owner, spender, denom) == left
  {
    LimitValid(g, GrantKey(spender, owner));
    if left >= 0 {
      WithAllowanceSets(g, owner, spender, denom, left, owner, spender, denom);
    }
  }

  function BalanceIn(balances: map<BankKey, nat>, account: Address, denom: string): nat {
    var key := BankKey(account, denom);
    if key in balances then balances[key] else 0
  }

  /** Exactly `amount` went from one account to the other: nothing is created, lost or moved elsewhere. */
  ghost predicate Moved(b: map<BankKey, nat>, b': map<BankKey, nat>, denom: string, from: Address, to: Address,
                        amount: int) {
    && (from == to ==> BalanceIn(b', from, denom) == BalanceIn(b, from, denom))
    && (from != to ==>
          && BalanceIn(b', from, denom) == BalanceIn(b, from, denom) - amount
          && BalanceIn(b', to, denom) == BalanceIn(b, to, denom) + amount)
    && forall k :: k != BankKey(from, denom) && k != BankKey(to, denom) ==>
         BalanceIn(b', k.account, k.denom) == BalanceIn(b, k.account, k.denom)
  }
}
