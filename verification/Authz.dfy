/**
 The authz limiter (ante/cosmos/authz.go): which trees of authz messages it lets through. The nesting
 level grows with depth and also from one `MsgExec` to the next among siblings.
 */
module Authz {
  import opened Machine

  const MAX_NESTED: nat := 7

  /** `readable` is false where the wrapped messages or the authorization cannot be unpacked. */
  datatype Msg =
    | Exec(readable: bool, inner: seq<Msg>)
    | Grant(readable: bool, url: string)
    | Other(url: string)

  // ---------- The check ----------

  /** `checkDisabledMsgs`: the level is tested once per call. */
  predicate Accepts(disabled: seq<string>, msgs: seq<Msg>, isInner: bool, level: nat)
    decreases msgs, 1
  {
    level < MAX_NESTED && AcceptsEach(disabled, msgs, isInner, level)
  }

  /** The loop over the messages, with the level that earlier siblings have left. */
  predicate AcceptsEach(disabled: seq<string>, msgs: seq<Msg>, isInner: bool, level: nat)
    decreases msgs, 0
  {
    msgs == [] ||
    match msgs[0]
    case Exec(readable, inner) =>
      && readable
      && Accepts(disabled, inner, true, level + 1)
      && AcceptsEach(disabled, msgs[1..], isInner, level + 1)
    case Grant(readable, url) =>
      readable && url !in disabled && AcceptsEach(disabled, msgs[1..], isInner, level)
    case Other(url) =>
      (isInner ==> url !in disabled) && AcceptsEach(disabled, msgs[1..], isInner, level)
  }

  method IsDisabledMsg(disabled: seq<string>, url: string) returns (r: bool)
    ensures r <==> url in disabled
  {
    var i := 0;
    while i < |disabled|
      invariant 0 <= i <= |disabled| && url !in disabled[..i]
    {
      if url == disabled[i] {
        return true;
      }
      i := i + 1;
    }
    return false;
  }

  method CheckDisabledMsgs(disabled: seq<string>, msgs: seq<Msg>, isInner: bool, nestedLvl: nat) returns (ok: bool)
    ensures ok <==> Accepts(disabled, msgs, isInner, nestedLvl)
    decreases msgs
  {
    if nestedLvl >= MAX_NESTED {
      return false;
    }
    var level := nestedLvl;
    var i := 0;
    assert msgs[0..] == msgs;
    while i < |msgs|
      invariant 0 <= i <= |msgs|
      invariant AcceptsEach(disabled, msgs, isInner, nestedLvl) == AcceptsEach(disabled, msgs[i..], isInner, level)
    {
      assert msgs[i..][0] == msgs[i] && msgs[i..][1..] == msgs[i + 1..];
      match msgs[i] {
        case Exec(readable, inner) =>
          if !readable {
            return false;
          }
          level := level + 1;
          var innerOk := CheckDisabledMsgs(disabled, inner, true, level);
          if !innerOk {
            return false;
          }
        case Grant(readable, url) =>
          var bad := IsDisabledMsg(disabled, url);
          if !readable || bad {
            return false;
          }
        case Other(url) =>
          var bad := IsDisabledMsg(disabled, url);
          if isInner && bad {
            return false;
          }
      }
      i := i + 1;
    }
    return true;
  }

  // ---------- What it checks ----------

  /** No disabled type inside any `MsgExec` or granted by any `MsgGrant`, and everything can be unpacked. */
  ghost predicate Clean(disabled: seq<string>, msgs: seq<Msg>, isInner: bool)
    decreases msgs
  {
    forall m :: m in msgs ==>
      match m
      case Exec(readable, inner) => readable && Clean(disabled, inner, true)
      case Grant(readable, url) => readable && url !in disabled
      case Other(url) => isInner ==> url !in disabled
  }

  /** A way down the tree: each number picks a `MsgExec` among the messages of the one before. */
  ghost predicate IsPath(msgs: seq<Msg>, path: seq<nat>)
    decreases |path|
  {
    path == [] || (path[0] < |msgs| && msgs[path[0]].Exec? && IsPath(msgs[path[0]].inner, path[1..]))
  }

  /** The number of `MsgExec` among the first `n` messages. */
  function Execs(msgs: seq<Msg>, n: nat): nat
    requires n <= |msgs|
  {
    if n == 0 then 0 else (if msgs[0].Exec? then 1 else 0) + Execs(msgs[1..], n - 1)
  }

  /** The ranks among `MsgExec` siblings, counted from one, summed along a path. */
  ghost function RankSum(msgs: seq<Msg>, path: seq<nat>): nat
    requires IsPath(msgs, path)
    decreases |path|
  {
    if path == [] then 0 else Execs(msgs, path[0] + 1) + RankSum(msgs[path[0]].inner, path[1..])
  }

  lemma {:induction false} AcceptedIsClean(disabled: seq<string>, msgs: seq<Msg>, isInner: bool, level: nat)
    requires AcceptsEach(disabled, msgs, isInner, level)
    ensures Clean(disabled, msgs, isInner)
    decreases msgs
  {
    if msgs != [] {
      if msgs[0].Exec? {
        AcceptedIsClean(disabled, msgs[0].inner, true, level + 1);
      }
      AcceptedIsClean(disabled, msgs[1..], isInner, if msgs[0].Exec? then level + 1 else level);
      forall m | m in msgs ensures m == msgs[0] || m in msgs[1..] {
      }
    }
  }

  lemma {:induction false} AcceptedPaths(disabled: seq<string>, msgs: seq<Msg>, isInner: bool, level: nat,
                                         path: seq<nat>)
    requires AcceptsEach(disabled, msgs, isInner, level) && IsPath(msgs, path) && path != []
    ensures level + RankSum(msgs, path) < MAX_NESTED
    decreases msgs
  {
    var down := path[1..];
    if path[0] == 0 {
      assert Execs(msgs, 1) == 1 + Execs(msgs[1..], 0);
      if down != [] {
        AcceptedPaths(disabled, msgs[0].inner, true, level + 1, down);
      }
    } else {
      var rest: seq<nat> := [path[0] - 1] + down;
      assert rest[1..] == down && msgs[1..][path[0] - 1] == msgs[path[0]];
      AcceptedPaths(disabled, msgs[1..], isInner, if msgs[0].Exec? then level + 1 else level, rest);
    }
  }

  /** A rejected list that is clean has a path that is too long. */
  lemma {:induction false} RejectedPath(disabled: seq<string>, msgs: seq<Msg>, isInner: bool, level: nat)
    returns (path: seq<nat>)
    requires Clean(disabled, msgs, isInner) && !AcceptsEach(disabled, msgs, isInner, level)
    ensures path != [] && IsPath(msgs, path) && level + RankSum(msgs, path) >= MAX_NESTED
    decreases msgs
  {
    assert msgs[0] in msgs;
    assert forall m :: m in msgs[1..] ==> m in msgs;
    if msgs[0].Exec? && !Accepts(disabled, msgs[0].inner, true, level + 1) {
      assert Execs(msgs, 1) == 1 + Execs(msgs[1..], 0);
      if level + 1 >= MAX_NESTED {
        path := [0];
      } else {
        var down := RejectedPath(disabled, msgs[0].inner, true, level + 1);
        path := [0] + down;
        assert path[1..] == down;
      }
    } else {
      var rest := RejectedPath(disabled, msgs[1..], isInner, if msgs[0].Exec? then level + 1 else level);
      path := [rest[0] + 1] + rest[1..];
      assert path[1..] == rest[1..] && msgs[1..][rest[0]] == msgs[path[0]];
    }
  }

  lemma EmptyPath(msgs: seq<Msg>) returns (path: seq<nat>)
    ensures IsPath(msgs, path) && RankSum(msgs, path) == 0
  {
    path := [];
  }

  /**
   The limiter accepts exactly the trees that are clean and in which, along every path, the level plus
   the ranks among `MsgExec` siblings stays below seven.
   */
  lemma AcceptsExactly(disabled: seq<string>, msgs: seq<Msg>, isInner: bool, level: nat)
    ensures Accepts(disabled, msgs, isInner, level) <==>
      && Clean(disabled, msgs, isInner)
      && forall path: seq<nat> :: IsPath(msgs, path) ==> level + RankSum(msgs, path) < MAX_NESTED
  {
    if Accepts(disabled, msgs, isInner, level) {
      AcceptedIsClean(disabled, msgs, isInner, level);
      forall path: seq<nat> | IsPath(msgs, path) ensures level + RankSum(msgs, path) < MAX_NESTED {
        if path != [] {
          AcceptedPaths(disabled, msgs, isInner, level, path);
        }
      }
    } else if level >= MAX_NESTED {
      var path := EmptyPath(msgs);
    } else if Clean(disabled, msgs, isInner) {
      var path := RejectedPath(disabled, msgs, isInner, level);
    }
  }

  // ---------- How much it lets through ----------

  function CountExecs(msgs: seq<Msg>): nat {
    if msgs == [] then 0
    else (if msgs[0].Exec? then 1 + CountExecs(msgs[0].inner) else 0) + CountExecs(msgs[1..])
  }

  function Depth(msgs: seq<Msg>): nat {
    if msgs == [] then 0
    else
      var here := if msgs[0].Exec? then 1 + Depth(msgs[0].inner) else 0;
      var rest := Depth(msgs[1..]);
      if here > rest then here else rest
  }

  lemma {:induction false} AcceptedBound(disabled: seq<string>, msgs: seq<Msg>, isInner: bool, level: nat)
    requires level < MAX_NESTED && AcceptsEach(disabled, msgs, isInner, level)
    ensures CountExecs(msgs) <= Pow2(6 - level) - 1 && Depth(msgs) <= 6 - level
    decreases msgs
  {
    if msgs != [] {
      if msgs[0].Exec? {
        AcceptedBound(disabled, msgs[0].inner, true, level + 1);
        AcceptedBound(disabled, msgs[1..], isInner, level + 1);
      } else {
        AcceptedBound(disabled, msgs[1..], isInner, level);
      }
    }
  }

  /** An accepted transaction has at most 31 `MsgExec`, nested at most five deep. */
  lemma TransactionBound(disabled: seq<string>, msgs: seq<Msg>)
    requires Accepts(disabled, msgs, false, 1)
    ensures CountExecs(msgs) <= 31 && Depth(msgs) <= 5
  {
    AcceptedBound(disabled, msgs, false, 1);
    assert Pow2(5) == 2 * Pow2(4) == 4 * Pow2(3) == 8 * Pow2(2);
  }

  /** The fullest tree with `n` levels to spare. */
  function Fullest(n: nat): seq<Msg> {
    if n == 0 then [] else [Exec(true, Fullest(n - 1))] + Fullest(n - 1)
  }

  lemma {:induction false} FullestAccepted(disabled: seq<string>, isInner: bool, n: nat)
    requires n <= 6
    ensures AcceptsEach(disabled, Fullest(n), isInner, 6 - n)
    ensures CountExecs(Fullest(n)) == Pow2(n) - 1 && Depth(Fullest(n)) == n
    decreases n
  {
    if n > 0 {
      FullestAccepted(disabled, true, n - 1);
      FullestAccepted(disabled, isInner, n - 1);
      assert Fullest(n)[1..] == Fullest(n - 1);
    }
  }

  /** Both bounds are attained. */
  lemma BoundIsTight(disabled: seq<string>)
    ensures Accepts(disabled, Fullest(5), false, 1) && CountExecs(Fullest(5)) == 31 && Depth(Fullest(5)) == 5
  {
    FullestAccepted(disabled, false, 5);
    assert Pow2(5) == 2 * Pow2(4) == 4 * Pow2(3) == 8 * Pow2(2);
  }
}
