/**
 Spend limits: lists of coins sorted strictly by denomination, all amounts positive, as `sdk.Coins`
 keeps them. Such a list is determined by the amount of each denomination.
 */
module Coins {
  import opened Lex
  import opened Text

  datatype Coin = Coin(denom: string, amount: int)
  type Coins = seq<Coin>

  ghost predicate Valid(cs: Coins) {
    && (forall i :: 0 <= i < |cs| ==> cs[i].amount > 0)
    && forall i, j :: 0 <= i < j < |cs| ==> StrLess(cs[i].denom, cs[j].denom)
  }

  /** `AmountOfNoDenomValidation`: zero for a denomination that is not listed. */
  function AmountOf(cs: Coins, denom: string): int {
    if cs == [] then 0 else if cs[0].denom == denom then cs[0].amount else AmountOf(cs[1..], denom)
  }

  /** A coin in front of a list, unless its amount is zero. */
  function Prefixed(denom: string, amount: int, cs: Coins): Coins {
    if amount == 0 then cs else [Coin(denom, amount)] + cs
  }

  /** The list with the amount of one denomination set; an amount of zero is not listed. */
  function SetAmount(cs: Coins, denom: string, amount: int): Coins {
    if cs == [] then Prefixed(denom, amount, [])
    else if cs[0].denom == denom then Prefixed(denom, amount, cs[1..])
    else if StrLess(denom, cs[0].denom) then Prefixed(denom, amount, cs)
    else [cs[0]] + SetAmount(cs[1..], denom, amount)
  }

  lemma PrefixedAmount(denom: string, amount: int, cs: Coins, d: string)
    requires AmountOf(cs, denom) == 0
    ensures AmountOf(Prefixed(denom, amount, cs), d) == if d == denom then amount else AmountOf(cs, d)
  {
    assert ([Coin(denom, amount)] + cs)[1..] == cs;
  }

  lemma ValidTail(cs: Coins)
    requires Valid(cs) && cs != []
    ensures Valid(cs[1..]) && AmountOf(cs[1..], cs[0].denom) == 0 && cs[0].amount > 0
  {
    AbsentBelow(cs[1..], cs[0].denom);
  }

  /** A denomination below the whole list is not in it. */
  lemma {:induction false} AbsentBelow(cs: Coins, denom: string)
    requires Valid(cs) && (cs != [] ==> StrLess(denom, cs[0].denom))
    ensures AmountOf(cs, denom) == 0
  {
    if cs != [] {
      LessAsymmetric(Codes(denom), Codes(cs[0].denom));
      if |cs| > 1 {
        LessTransitive(Codes(denom), Codes(cs[0].denom), Codes(cs[1].denom));
      }
      AbsentBelow(cs[1..], denom);
    }
  }

  lemma {:induction false} AmountNonNegative(cs: Coins, denom: string)
    requires Valid(cs)
    ensures AmountOf(cs, denom) >= 0
    ensures AmountOf(cs, denom) > 0 <==> exists i :: 0 <= i < |cs| && cs[i].denom == denom
  {
    if cs != [] {
      ValidTail(cs);
      AmountNonNegative(cs[1..], denom);
      if cs[0].denom != denom {
        assert forall i :: 0 <= i < |cs[1..]| ==> cs[1..][i] == cs[i + 1];
      }
    }
  }

  /** Setting an amount keeps the list valid and changes no other denomination. */
  lemma {:induction false} SetAmountOf(cs: Coins, denom: string, amount: int, d: string)
    requires Valid(cs) && amount >= 0
    ensures AmountOf(SetAmount(cs, denom, amount), d) == if d == denom then amount else AmountOf(cs, d)
  {
    if cs == [] {
      PrefixedAmount(denom, amount, [], d);
    } else {
      ValidTail(cs);
      if cs[0].denom == denom {
        PrefixedAmount(denom, amount, cs[1..], d);
      } else if StrLess(denom, cs[0].denom) {
        AbsentBelow(cs, denom);
        PrefixedAmount(denom, amount, cs, d);
      } else {
        SetAmountOf(cs[1..], denom, amount, d);
        var rest := SetAmount(cs[1..], denom, amount);
        assert ([cs[0]] + rest)[1..] == rest;
      }
    }
  }

  /** A coin in front of larger denominations. */
  lemma ConsValid(c: Coin, cs: Coins)
    requires Valid(cs) && c.amount > 0 && forall i :: 0 <= i < |cs| ==> StrLess(c.denom, cs[i].denom)
    ensures Valid([c] + cs)
  {
  }

  lemma {:induction false} SetAmountValid(cs: Coins, denom: string, amount: int)
    requires Valid(cs) && amount >= 0
    ensures Valid(SetAmount(cs, denom, amount))
    ensures forall c :: c in SetAmount(cs, denom, amount) ==> c.denom == denom || c in cs
  {
    var coin := Coin(denom, amount);
    if cs != [] {
      ValidTail(cs);
      if cs[0].denom == denom {
        if amount > 0 {
          ConsValid(coin, cs[1..]);
        }
      } else if StrLess(denom, cs[0].denom) {
        BelowAll(cs, denom);
        if amount > 0 {
          ConsValid(coin, cs);
        }
      } else {
        StrLessTotal(denom, cs[0].denom);
        SetAmountValid(cs[1..], denom, amount);
        var rest := SetAmount(cs[1..], denom, amount);
        forall i | 0 <= i < |rest| ensures StrLess(cs[0].denom, rest[i].denom) {
          assert rest[i] in rest;
        }
        ConsValid(cs[0], rest);
      }
    }
  }

  lemma BelowAll(cs: Coins, denom: string)
    requires Valid(cs) && cs != [] && StrLess(denom, cs[0].denom)
    ensures forall i :: 0 <= i < |cs| ==> StrLess(denom, cs[i].denom)
  {
    forall i | 0 < i < |cs| ensures StrLess(denom, cs[i].denom) {
      LessTransitive(Codes(denom), Codes(cs[0].denom), Codes(cs[i].denom));
    }
  }

  /** Two valid lists with the same amounts are the same list. */
  lemma {:induction false} Canonical(a: Coins, b: Coins)
    requires Valid(a) && Valid(b) && forall d :: AmountOf(a, d) == AmountOf(b, d)
    ensures a == b
  {
    assert a != [] ==> AmountOf(b, a[0].denom) > 0;
    assert b != [] ==> AmountOf(a, b[0].denom) > 0;
    if a != [] {
      SameHead(a, b);
      ValidTail(a);
      ValidTail(b);
      forall d ensures AmountOf(a[1..], d) == AmountOf(b[1..], d) {
        assert AmountOf(a, d) == AmountOf(b, d);
      }
      Canonical(a[1..], b[1..]);
    }
  }

  lemma SameHead(a: Coins, b: Coins)
    requires Valid(a) && Valid(b) && a != [] && b != [] && forall d :: AmountOf(a, d) == AmountOf(b, d)
    ensures a[0] == b[0]
  {
    StrLessTotal(a[0].denom, b[0].denom);
    assert AmountOf(a, a[0].denom) == AmountOf(b, a[0].denom) && AmountOf(a, b[0].denom) == AmountOf(b, b[0].denom);
    if StrLess(a[0].denom, b[0].denom) {
      AbsentBelow(b, a[0].denom);
    } else if StrLess(b[0].denom, a[0].denom) {
      AbsentBelow(a, b[0].denom);
    }
  }

  /** Setting an amount and setting it back restores the list itself. */
  lemma SetBack(cs: Coins, denom: string, amount: int)
    requires Valid(cs) && amount >= 0
    ensures SetAmount(SetAmount(cs, denom, amount), denom, AmountOf(cs, denom)) == cs
  {
    AmountNonNegative(cs, denom);
    var up := SetAmount(cs, denom, amount);
    SetAmountValid(cs, denom, amount);
    SetAmountValid(up, denom, AmountOf(cs, denom));
    forall d ensures AmountOf(SetAmount(up, denom, AmountOf(cs, denom)), d) == AmountOf(cs, d) {
      SetAmountOf(cs, denom, amount, d);
      SetAmountOf(up, denom, AmountOf(cs, denom), d);
    }
    Canonical(SetAmount(up, denom, AmountOf(cs, denom)), cs);
  }

  // ---------- Operations of the SDK and of the precompile ----------

  /** `Coins.Find`. */
  method Find(cs: Coins, denom: string) returns (found: bool, coin: Coin)
    requires Valid(cs)
    ensures found <==> AmountOf(cs, denom) > 0
    ensures coin.amount == AmountOf(cs, denom) && coin.denom == denom
  {
    AmountNonNegative(cs, denom);
    found, coin := AmountOf(cs, denom) > 0, Coin(denom, AmountOf(cs, denom));
  }

  /** `Coins.SafeSub` of one coin, which must be covered. */
  method SafeSub(cs: Coins, coin: Coin) returns (rest: Coins, hasNeg: bool)
    requires Valid(cs)
    ensures hasNeg <==> AmountOf(cs, coin.denom) < coin.amount
    ensures !hasNeg ==> rest == SetAmount(cs, coin.denom, AmountOf(cs, coin.denom) - coin.amount)
  {
    var left := AmountOf(cs, coin.denom) - coin.amount;
    hasNeg := left < 0;
    rest := if hasNeg then cs else SetAmount(cs, coin.denom, left);
  }

  /**
   `updateOrAddCoin`: overwrites the coin of that denomination where there is one, and otherwise adds
   it in its place.
   */
  method UpdateOrAddCoin(cs: Coins, coin: Coin) returns (r: Coins)
    requires Valid(cs) && coin.amount > 0
    ensures r == SetAmount(cs, coin.denom, coin.amount)
  {
    var i := 0;
    while i < |cs|
      invariant 0 <= i <= |cs| && forall k :: 0 <= k < i ==> cs[k].denom != coin.denom
    {
      if cs[i].denom == coin.denom {
        Overwritten(cs, i, coin);
        return cs[i := coin];
      }
      i := i + 1;
    }
    r := SetAmount(cs, coin.denom, coin.amount);
  }

  lemma {:induction false} Overwritten(cs: Coins, i: nat, coin: Coin)
    requires Valid(cs) && i < |cs| && cs[i].denom == coin.denom && coin.amount > 0
    ensures cs[i := coin] == SetAmount(cs, coin.denom, coin.amount)
    decreases i
  {
    if i > 0 {
      LessAsymmetric(Codes(cs[0].denom), Codes(coin.denom));
      Overwritten(cs[1..], i - 1, coin);
      assert cs[i := coin] == [cs[0]] + cs[1..][i - 1 := coin];
    } else {
      assert cs[i := coin] == [coin] + cs[1..];
    }
  }
}
