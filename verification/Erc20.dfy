/**
 The ERC-20 precompile's allowances (precompiles/erc20): kept as authz grants with multi-denomination
 spend limits, they refine a plain ledger of allowances per owner, spender and denomination.

 Block time is held fixed, so that no grant expires; an amount beyond 256 bits, which the ABI decoder
 cannot produce, fails like an error. Events and gas are not modelled.
 */
module Erc20 {
  import opened Machine
  import opened Coins

  type Address = string

  /** Grants of another authorization type can sit under the same message URL. */
  datatype Authorization = Send(limit: Coins) | OtherType

  /** A grant belongs to its grantee (the spender) and granter (the owner). */
  datatype GrantKey = GrantKey(grantee: Address, granter: Address)
  type Grants = map<GrantKey, Authorization>

  // ---------- The view as a ledger ----------

  /** Stored spend limits are never empty, and their amounts fit 256 bits. */
  ghost predicate ValidGrants(g: Grants) {
    forall k :: k in g && g[k].Send? ==> Valid(g[k].limit) && g[k].limit != [] && Bounded(g[k].limit)
  }

  ghost predicate Bounded(cs: Coins) {
    forall c :: c in cs ==> c.amount < TWO256
  }

  lemma {:induction false} AmountBounded(cs: Coins, denom: string)
    requires Bounded(cs)
    ensures AmountOf(cs, denom) < TWO256
  {
    if cs != [] {
      AmountBounded(cs[1..], denom);
    }
  }

  lemma {:induction false} SetAmountBounded(cs: Coins, denom: string, amount: int)
    requires Bounded(cs) && amount < TWO256
    ensures Bounded(SetAmount(cs, denom, amount))
  {
    if cs != [] {
      SetAmountBounded(cs[1..], denom, amount);
    }
  }

  function Limit(g: Grants, key: GrantKey): Coins {
    if key in g && g[key].Send? then g[key].limit else []
  }

  /** The allowance that a plain ERC-20 ledger would hold. */
  function Allowance(g: Grants, owner: Address, spender: Address, denom: string): int {
    AmountOf(Limit(g, GrantKey(spender, owner)), denom)
  }

  /** The grants with one allowance set: the grant goes when its last coin goes. */
  function WithAllowance(g: Grants, owner: Address, spender: Address, denom: string, amount: int): Grants {
    var key := GrantKey(spender, owner);
    var limit := SetAmount(Limit(g, key), denom, amount);
    if limit == [] then g - {key} else g[key := Send(limit)]
  }

  /** No grant of another type is in the way. */
  predicate Free(g: Grants, owner: Address, spender: Address) {
    GrantKey(spender, owner) in g ==> g[GrantKey(spender, owner)].Send?
  }

  lemma LimitValid(g: Grants, key: GrantKey)
    requires ValidGrants(g)
    ensures Valid(Limit(g, key)) && Bounded(Limit(g, key))
    ensures forall d :: 0 <= AmountOf(Limit(g, key), d) < TWO256
  {
    forall d ensures 0 <= AmountOf(Limit(g, key), d) < TWO256 {
      AmountNonNegative(Limit(g, key), d);
      AmountBounded(Limit(g, key), d);
    }
  }

  /** Setting one allowance keeps every spend limit valid and changes no other cell of the ledger. */
  lemma WithAllowanceSets(g: Grants, owner: Address, spender: Address, denom: string, amount: int,
                          o: Address, s: Address, d: string)
    requires ValidGrants(g) && Free(g, owner, spender) && 0 <= amount < TWO256
    ensures ValidGrants(WithAllowance(g, owner, spender, denom, amount))
    ensures Allowance(WithAllowance(g, owner, spender, denom, amount), o, s, d) ==
            if o == owner && s == spender && d == denom then amount else Allowance(g, o, s, d)
    ensures Free(WithAllowance(g, owner, spender, denom, amount), o, s) == Free(g, o, s)
  {
    var key := GrantKey(spender, owner);
    LimitValid(g, key);
    SetAmountValid(Limit(g, key), denom, amount);
    SetAmountBounded(Limit(g, key), denom, amount);
    SetAmountOf(Limit(g, key), denom, amount, d);
  }

  /** Setting an allowance and setting it back restores the grants themselves, also an absent one. */
  lemma WithAllowanceBack(g: Grants, owner: Address, spender: Address, denom: string, amount: int)
    requires ValidGrants(g) && Free(g, owner, spender) && amount >= 0
    ensures WithAllowance(WithAllowance(g, owner, spender, denom, amount), owner, spender, denom,
                          Allowance(g, owner, spender, denom)) == g
  {
    var key := GrantKey(spender, owner);
    LimitValid(g, key);
    SetBack(Limit(g, key), denom, amount);
    var up := WithAllowance(g, owner, spender, denom, amount);
    assert Limit(up, key) == SetAmount(Limit(g, key), denom, amount);
    if key in g {
      assert g[key] == Send(Limit(g, key));
    }
  }

  // ---------- When calls succeed, and what they do ----------

  datatype Call =
    | Approve(owner: Address, spender: Address, denom: string, amount: int)
    | IncreaseAllowance(owner: Address, spender: Address, denom: string, amount: int)
    | DecreaseAllowance(owner: Address, spender: Address, denom: string, amount: int)
    | TransferFrom(owner: Address, spender: Address, denom: string, amount: int, to: Address)

  /**
   Which calls succeed, as far as grants decide it. Unlike the ERC-20 standard, owner and spender must
   differ for approvals, zero amounts are refused, and approving zero fails where the spender has a
   grant that does not cover the denomination.
   */
  ghost predicate Succeeds(g: Grants, c: Call) {
    var a := Allowance(g, c.owner, c.spender, c.denom);
    var granted := GrantKey(c.spender, c.owner) in g;
    match c
    case Approve(o, s, d, x) =>
      && o != s && Free(g, o, s) && x < TWO256
      && (!granted ==> x >= 0)
      && (granted && x <= 0 ==> a > 0)
    case IncreaseAllowance(o, s, d, x) =>
      o != s && Free(g, o, s) && x > 0 && a + x < TWO256
    case DecreaseAllowance(o, s, d, x) =>
      o != s && granted && Free(g, o, s) && 0 < x <= a
    case TransferFrom(o, s, d, x, _) =>
      0 < x < TWO256 && (o != s ==> granted && Free(g, o, s) && x <= a)
  }

  /**
   Where EIP-20 requires success: a zero transfer, and an approval of oneself, are always refused. One's own
   tokens can be transferred without an allowance, and under a grant of another type nothing succeeds.
   */
  lemma RefusedCalls(g: Grants, o: Address, s: Address, d: string, x: int, to: Address)
    ensures !Succeeds(g, Approve(o, o, d, x)) && !Succeeds(g, TransferFrom(o, s, d, 0, to))
    ensures !Succeeds(g, IncreaseAllowance(o, o, d, x)) && !Succeeds(g, DecreaseAllowance(o, o, d, x))
    ensures Succeeds(g, TransferFrom(o, o, d, x, to)) <==> 0 < x < TWO256
    ensures o != s && !Free(g, o, s) ==>
      && !Succeeds(g, Approve(o, s, d, x)) && !Succeeds(g, IncreaseAllowance(o, s, d, x))
      && !Succeeds(g, DecreaseAllowance(o, s, d, x)) && !Succeeds(g, TransferFrom(o, s, d, x, to))
  {
  }

  /**
   Approving zero, which EIP-20 lets everyone do, is refused exactly to an owner whose grant to the spender
   does not list the denomination.
   */
  lemma ApproveZero(g: Grants, o: Address, s: Address, d: string)
    requires ValidGrants(g) && o != s && Free(g, o, s)
    ensures Succeeds(g, Approve(o, s, d, 0)) <==>
            !(GrantKey(s, o) in g && forall c :: c in g[GrantKey(s, o)].limit ==> c.denom != d)
  {
    if GrantKey(s, o) in g {
      AmountNonNegative(g[GrantKey(s, o)].limit, d);
    }
  }

  /** Such a grant: one coin of another denomination. */
  lemma ApproveZeroRefused()
    ensures var g := map[GrantKey("spender", "owner") := Send([Coin("atom", 1)])];
      && ValidGrants(g) && Allowance(g, "owner", "spender", "tac") == 0
      && !Succeeds(g, Approve("owner", "spender", "tac", 0)) && Succeeds(map[], Approve("owner", "spender", "tac", 0))
  {
    var limit := [Coin("atom", 1)];
    assert "atom"[0] != "tac"[0];
    assert AmountOf(limit, "tac") == AmountOf(limit[1..], "tac") == 0;
  }

  /**
   In terms of the allowance alone, between different accounts without a grant of another type in the way:
   an increase must not overflow, a decrease or a transfer must be covered, any positive approval succeeds,
   and a negative one takes an allowance away.
   */
  lemma SucceedsExactly(g: Grants, o: Address, s: Address, d: string, x: int, to: Address)
    requires ValidGrants(g) && o != s && Free(g, o, s)
    ensures var a := Allowance(g, o, s, d);
      && (Succeeds(g, IncreaseAllowance(o, s, d, x)) <==> 0 < x < TWO256 - a)
      && (Succeeds(g, DecreaseAllowance(o, s, d, x)) <==> 0 < x <= a)
      && (Succeeds(g, TransferFrom(o, s, d, x, to)) <==> 0 < x <= a)
      && (x > 0 ==> (Succeeds(g, Approve(o, s, d, x)) <==> x < TWO256))
      && (x < 0 ==> (Succeeds(g, Approve(o, s, d, x)) <==> a > 0))
  {
    LimitValid(g, GrantKey(s, o));
  }

  /** The grants after a successful call. */
  function After(g: Grants, c: Call): Grants {
    var a := Allowance(g, c.owner, c.spender, c.denom);
    match c
    case Approve(o, s, d, x) => WithAllowance(g, o, s, d, if x > 0 then x else 0)
    case IncreaseAllowance(o, s, d, x) => WithAllowance(g, o, s, d, a + x)
    case DecreaseAllowance(o, s, d, x) => WithAllowance(g, o, s, d, a - x)
    case TransferFrom(o, s, d, x, _) => if o == s then g else WithAllowance(g, o, s, d, a - x)
  }

  lemma Increased(g: Grants, o: Address, s: Address, d: string, x: int, y: int)
    requires y == Allowance(g, o, s, d) + x
    ensures After(g, IncreaseAllowance(o, s, d, x)) == WithAllowance(g, o, s, d, y)
  {
  }

  lemma Decreased(g: Grants, o: Address, s: Address, d: string, x: int, y: int)
    requires y == Allowance(g, o, s, d) - x
    ensures After(g, DecreaseAllowance(o, s, d, x)) == WithAllowance(g, o, s, d, y)
  {
  }

  // ---------- Runs refine a plain ledger ----------

  /** The cell of a plain ERC-20 ledger that a call is about. */
  predicate IsCellOf(c: Call, o: Address, s: Address, d: string) {
    c.owner == o && c.spender == s && c.denom == d
  }

  /** What EIP-20 makes of one cell: approving sets it, and a transfer by the owner does not touch it. */
  function Cell(c: Call, o: Address, s: Address, d: string, a: int): int {
    if !IsCellOf(c, o, s, d) then a
    else
      match c
      case Approve(_, _, _, amount) => if amount < 0 then 0 else amount
      case IncreaseAllowance(_, _, _, added) => a + added
      case DecreaseAllowance(_, _, _, subtracted) => a - subtracted
      case TransferFrom(from, caller, _, amount, _) => if caller == from then a else a - amount
  }

  function Replay(calls: seq<Call>, o: Address, s: Address, d: string, a: int): int
    decreases |calls|
  {
    if calls == [] then a
    else Cell(calls[|calls| - 1], o, s, d, Replay(calls[..|calls| - 1], o, s, d, a))
  }

  /** The grants after a run of successful calls. */
  ghost predicate IsRun(g: Grants, calls: seq<Call>, g': Grants)
    decreases |calls|
  {
    if calls == [] then g' == g
    else exists p :: ReachedBy(g, calls, p) && g' == After(p, calls[|calls| - 1])
  }

  ghost predicate ReachedBy(g: Grants, calls: seq<Call>, p: Grants)
    requires calls != []
    decreases |calls|, 0
  {
    IsRun(g, calls[..|calls| - 1], p) && Succeeds(p, calls[|calls| - 1])
  }

  lemma StepRefines(g: Grants, c: Call, o: Address, s: Address, d: string)
    requires ValidGrants(g) && Succeeds(g, c)
    ensures ValidGrants(After(g, c))
    ensures Allowance(After(g, c), o, s, d) == Cell(c, o, s, d, Allowance(g, o, s, d)) >= 0
  {
    LimitValid(g, GrantKey(c.spender, c.owner));
    LimitValid(g, GrantKey(s, o));
    if c.owner != c.spender {
      var x := Cell(c, c.owner, c.spender, c.denom, Allowance(g, c.owner, c.spender, c.denom));
      AfterSets(g, c, x);
      WithAllowanceSets(g, c.owner, c.spender, c.denom, x, o, s, d);
    }
  }

  lemma AfterSets(g: Grants, c: Call, x: int)
    requires c.owner != c.spender
    requires x == Cell(c, c.owner, c.spender, c.denom, Allowance(g, c.owner, c.spender, c.denom))
    ensures After(g, c) == WithAllowance(g, c.owner, c.spender, c.denom, x)
  {
  }

  /**
   Over every run, each stored spend limit stays sorted, positive and non-empty, and each allowance is
   what a plain ledger that replays the calls holds in that cell, without ever going negative.
   */
  lemma {:induction false} RunRefines(g: Grants, calls: seq<Call>, g': Grants, o: Address, s: Address, d: string)
    requires ValidGrants(g) && IsRun(g, calls, g')
    ensures ValidGrants(g')
    ensures Allowance(g', o, s, d) == Replay(calls, o, s, d, Allowance(g, o, s, d)) >= 0
    decreases |calls|
  {
    if calls == [] {
      LimitValid(g, GrantKey(s, o));
    } else {
      var p :| ReachedBy(g, calls, p) && g' == After(p, calls[|calls| - 1]);
      RunRefines(g, calls[..|calls| - 1], p, o, s, d);
      StepRefines(p, calls[|calls| - 1], o, s, d);
    }
  }

  /** Increasing by x and then decreasing by x succeeds and restores the exact grants, also an absent one. */
  lemma IncreaseThenDecrease(g: Grants, o: Address, s: Address, d: string, x: int)
    requires ValidGrants(g) && Succeeds(g, IncreaseAllowance(o, s, d, x))
    ensures var up := After(g, IncreaseAllowance(o, s, d, x));
      Succeeds(up, DecreaseAllowance(o, s, d, x)) && After(up, DecreaseAllowance(o, s, d, x)) == g
  {
    var a := Allowance(g, o, s, d);
    LimitValid(g, GrantKey(s, o));
    UpAndBack(g, o, s, d, a, a + x);
    Increased(g, o, s, d, x, a + x);
    DecreaseBack(WithAllowance(g, o, s, d, a + x), o, s, d, a, x);
  }

  lemma UpAndBack(g: Grants, o: Address, s: Address, d: string, a: int, b: int)
    requires ValidGrants(g) && Free(g, o, s) && a == Allowance(g, o, s, d) && 0 <= b < TWO256
    ensures var up := WithAllowance(g, o, s, d, b);
      Free(up, o, s) && Allowance(up, o, s, d) == b && WithAllowance(up, o, s, d, a) == g
  {
    WithAllowanceSets(g, o, s, d, b, o, s, d);
    WithAllowanceBack(g, o, s, d, b);
  }

  lemma DecreaseBack(up: Grants, o: Address, s: Address, d: string, a: int, x: int)
    requires o != s && Free(up, o, s) && a >= 0 && x > 0 && Allowance(up, o, s, d) == a + x
    ensures Succeeds(up, DecreaseAllowance(o, s, d, x))
    ensures After(up, DecreaseAllowance(o, s, d, x)) == WithAllowance(up, o, s, d, a)
  {
  }
}
