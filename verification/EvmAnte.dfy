/**
 The message loop of the EVM ante handler (ante/evm/mono_decorator.go and 09_increment_sequence.go):
 nonces are verified and incremented message by message, and fees and gas are summed up for the check
 against what the transaction declares.

 The verdicts of all other checks are inputs. A message has those before its nonce is incremented (fees,
 signature, balance and so on) and the one on the gas wanted after it; a transaction has those before the
 loop and the one on the block gas limit after it. A rejected transaction is rolled back.
 */
module EvmAnte {
  import opened Machine

  type Address = string

  datatype EthMsg = EthMsg(from: Address, nonce: uint64, gas: uint64, fee: nat, valid: bool, gasFits: bool)

  /** What the Cosmos transaction declares; absent when a transaction is rechecked. */
  datatype Declared = Declared(fee: nat, gasLimit: uint64) | NotDeclared

  datatype Tx = Tx(msgs: seq<EthMsg>, declared: Declared, valid: bool, gasFits: bool)

  type Sequences = map<Address, uint64>

  /** Accounts are created on first use, with sequence zero. */
  function SequenceOf(s: Sequences, a: Address): uint64 {
    if a in s then s[a] else 0
  }

  // ---------- One transaction ----------

  /** Both ways, with the sequences that are left in the store. */
  datatype Outcome = Accepted(sequences: Sequences) | Rejected(sequences: Sequences)

  /** The sequences after the first `n` messages, each of which must carry its sender's next nonce. */
  function AfterMsgs(s: Sequences, msgs: seq<EthMsg>, n: nat): Outcome
    requires n <= |msgs|
  {
    if n == 0 then Accepted(s)
    else
      match AfterMsgs(s, msgs, n - 1)
      case Rejected(t) => Rejected(t)
      case Accepted(t) => AfterMsg(t, msgs[n - 1])
  }

  function AfterMsg(s: Sequences, m: EthMsg): Outcome {
    if !m.valid || m.nonce != SequenceOf(s, m.from) then Rejected(s)
    else
      var t := s[m.from := (m.nonce + 1) % TWO64];
      if m.gasFits then Accepted(t) else Rejected(t)
  }

  function TotalFee(msgs: seq<EthMsg>, n: nat): nat
    requires n <= |msgs|
  {
    if n == 0 then 0 else TotalFee(msgs, n - 1) + msgs[n - 1].fee
  }

  function TotalGas(msgs: seq<EthMsg>, n: nat): nat
    requires n <= |msgs|
  {
    if n == 0 then 0 else TotalGas(msgs, n - 1) + msgs[n - 1].gas
  }

  /** `CheckTxFee`; `convert` takes 18 decimals to those of the chain, and the gas sum is a `uint64`. */
  predicate FeeMatches(tx: Tx, convert: nat -> nat) {
    tx.declared.Declared? ==>
      && tx.declared.fee == convert(TotalFee(tx.msgs, |tx.msgs|))
      && tx.declared.gasLimit == TotalGas(tx.msgs, |tx.msgs|) % TWO64
  }

  function AfterTx(s: Sequences, tx: Tx, convert: nat -> nat): Outcome {
    if !tx.valid then Rejected(s)
    else
      match AfterMsgs(s, tx.msgs, |tx.msgs|)
      case Rejected(t) => Rejected(t)
      case Accepted(t) => if FeeMatches(tx, convert) && tx.gasFits then Accepted(t) else Rejected(t)
  }

  class AccountKeeper {
    var sequences: Sequences

    constructor (sequences: Sequences)
      ensures this.sequences == sequences
    {
      this.sequences := sequences;
    }

    method IncrementNonce(from: Address, txNonce: uint64) returns (ok: bool)
      modifies this
      ensures ok <==> txNonce == SequenceOf(old(sequences), from)
      ensures sequences == if ok then old(sequences)[from := (txNonce + 1) % TWO64] else old(sequences)
    {
      var nonce := SequenceOf(sequences, from);
      if txNonce != nonce {
        return false;
      }
      nonce := (nonce + 1) % TWO64;
      sequences := sequences[from := nonce];
      return true;
    }

    /** What the loop does for one message. */
    method HandleMsg(msg: EthMsg) returns (ok: bool)
      modifies this
      ensures var after := AfterMsg(old(sequences), msg); ok == after.Accepted? && sequences == after.sequences
    {
      ok := msg.valid;
      if ok {
        ok := IncrementNonce(msg.from, msg.nonce);
      }
      ok := ok && msg.gasFits;
    }

    /** The loop over the messages, which also sums up fees and gas. */
    method HandleMsgs(msgs: seq<EthMsg>) returns (ok: bool, txFee: nat, txGasLimit: uint64)
      modifies this
      ensures var after := AfterMsgs(old(sequences), msgs, |msgs|);
        ok == after.Accepted? && sequences == after.sequences
      ensures ok ==> Summed(msgs, |msgs|, txFee, txGasLimit)
    {
      txFee, txGasLimit := 0, 0;
      ghost var start := sequences;
      var i := 0;
      while i < |msgs|
        invariant 0 <= i <= |msgs|
        invariant AfterMsgs(start, msgs, i) == Accepted(sequences)
        invariant Summed(msgs, i, txFee, txGasLimit)
      {
        SumNext(msgs, i, txFee, txGasLimit);
        AfterNext(start, msgs, i, sequences);
        txFee := txFee + msgs[i].fee;
        txGasLimit := (txGasLimit + msgs[i].gas) % TWO64;
        ok := HandleMsg(msgs[i]);
        i := i + 1;
        if !ok {
          StaysRejected(start, msgs, i, |msgs|);
          return;
        }
      }
      ok := true;
    }

    /** The decorator, on a store that the caller discards if the transaction is rejected. */
    method AnteHandle(tx: Tx, convert: nat -> nat) returns (ok: bool)
      modifies this
      ensures var after := AfterTx(old(sequences), tx, convert); ok == after.Accepted? && sequences == after.sequences
    {
      ok := tx.valid;
      if !ok {
        return;
      }
      var txFee, txGasLimit;
      ok, txFee, txGasLimit := HandleMsgs(tx.msgs);
      if ok && tx.declared.Declared? {
        ok := tx.declared.fee == convert(txFee) && tx.declared.gasLimit == txGasLimit;
      }
      ok := ok && tx.gasFits;
    }

    /** A whole transaction: the decorator works on a cached store, which is written only if it accepts. */
    method RunTx(tx: Tx, convert: nat -> nat) returns (ok: bool)
      modifies this
      ensures ok <==> AfterTx(old(sequences), tx, convert).Accepted?
      ensures sequences == AfterTxs(old(sequences), [tx], convert)
    {
      var stored := sequences;
      ok := AnteHandle(tx, convert);
      if !ok {
        sequences := stored;
      }
      assert [tx][..0] == [];
    }

    /** A run of transactions. */
    method RunTxs(txs: seq<Tx>, convert: nat -> nat)
      modifies this
      ensures sequences == AfterTxs(old(sequences), txs, convert)
    {
      var i := 0;
      while i < |txs|
        invariant 0 <= i <= |txs|
        invariant sequences == AfterTxs(old(sequences), txs[..i], convert)
      {
        RunsOn(old(sequences), txs, i, convert);
        var ok := RunTx(txs[i], convert);
        i := i + 1;
      }
      assert txs[..i] == txs;
    }
  }

  /** The sums of fees and of gas, the latter as a `uint64`, over the first `i` messages. */
  ghost predicate Summed(msgs: seq<EthMsg>, i: nat, txFee: nat, txGasLimit: uint64) {
    i <= |msgs| && txFee == TotalFee(msgs, i) && txGasLimit == TotalGas(msgs, i) % TWO64
  }

  lemma SumNext(msgs: seq<EthMsg>, i: nat, txFee: nat, txGasLimit: uint64)
    requires i < |msgs| && Summed(msgs, i, txFee, txGasLimit)
    ensures Summed(msgs, i + 1, txFee + msgs[i].fee, (txGasLimit + msgs[i].gas) % TWO64)
  {
  }

  lemma AfterNext(s: Sequences, msgs: seq<EthMsg>, i: nat, t: Sequences)
    requires i < |msgs| && AfterMsgs(s, msgs, i) == Accepted(t)
    ensures AfterMsgs(s, msgs, i + 1) == AfterMsg(t, msgs[i])
  {
  }

  lemma RunsOn(s: Sequences, txs: seq<Tx>, i: nat, convert: nat -> nat)
    requires i < |txs|
    ensures AfterTxs(s, txs[..i + 1], convert) == AfterTxs(AfterTxs(s, txs[..i], convert), [txs[i]], convert)
  {
    assert txs[..i + 1][..i] == txs[..i] && [txs[i]][..0] == [];
  }

  lemma {:induction false} StaysRejected(s: Sequences, msgs: seq<EthMsg>, i: nat, n: nat)
    requires i <= n <= |msgs| && AfterMsgs(s, msgs, i).Rejected?
    ensures AfterMsgs(s, msgs, n) == AfterMsgs(s, msgs, i)
    decreases n
  {
    if i < n {
      StaysRejected(s, msgs, i, n - 1);
    }
  }

  // ---------- Runs ----------

  /** The sequences after a run of transactions, of which rejected ones leave no trace. */
  function AfterTxs(s: Sequences, txs: seq<Tx>, convert: nat -> nat): Sequences {
    if txs == [] then s
    else
      var before := AfterTxs(s, txs[..|txs| - 1], convert);
      match AfterTx(before, txs[|txs| - 1], convert)
      case Accepted(t) => t
      case Rejected(_) => before
  }

  /** The messages of the accepted transactions, in order. */
  function AcceptedMsgs(s: Sequences, txs: seq<Tx>, convert: nat -> nat): seq<EthMsg> {
    if txs == [] then []
    else
      var front, tx := txs[..|txs| - 1], txs[|txs| - 1];
      AcceptedMsgs(s, front, convert) +
      (if AfterTx(AfterTxs(s, front, convert), tx, convert).Accepted? then tx.msgs else [])
  }

  /** The nonces of one sender among some messages. */
  function NoncesOf(msgs: seq<EthMsg>, a: Address): seq<uint64> {
    if msgs == [] then []
    else NoncesOf(msgs[..|msgs| - 1], a) + (if msgs[|msgs| - 1].from == a then [msgs[|msgs| - 1].nonce] else [])
  }

  lemma {:induction false} NoncesConcat(xs: seq<EthMsg>, ys: seq<EthMsg>, a: Address)
    ensures NoncesOf(xs + ys, a) == NoncesOf(xs, a) + NoncesOf(ys, a)
    decreases ys
  {
    if ys == [] {
      assert xs + ys == xs;
    } else {
      var front := ys[..|ys| - 1];
      assert (xs + ys)[..|xs + ys| - 1] == xs + front;
      NoncesConcat(xs, front, a);
    }
  }

  /** `ns` counts on from `start`, wrapping at 2^64. */
  ghost predicate CountsFrom(ns: seq<uint64>, start: uint64) {
    forall i :: 0 <= i < |ns| ==> ns[i] == Nth(start, i)
  }

  /** The nonce `i` places after `start`. */
  function Nth(start: nat, i: nat): uint64 {
    (start + i) % TWO64
  }

  lemma NthPlus(start: nat, i: nat, k: nat)
    ensures Nth(Nth(start, i), k) == Nth(start, i + k)
  {
  }

  lemma CountsOn(ns: seq<uint64>, more: seq<uint64>, start: uint64)
    requires CountsFrom(ns, start) && CountsFrom(more, Nth(start, |ns|))
    ensures CountsFrom(ns + more, start)
    ensures Nth(Nth(start, |ns|), |more|) == Nth(start, |ns + more|)
  {
    forall i | 0 <= i < |more| ensures more[i] == Nth(start, |ns| + i) {
      NthPlus(start, |ns|, i);
    }
    NthPlus(start, |ns|, |more|);
  }

  /** Within one transaction, messages of one sender carry consecutive nonces, however they interleave. */
  lemma {:induction false} MsgsCount(s: Sequences, msgs: seq<EthMsg>, n: nat, a: Address)
    requires n <= |msgs| && AfterMsgs(s, msgs, n).Accepted?
    ensures CountsFrom(NoncesOf(msgs[..n], a), SequenceOf(s, a))
    ensures SequenceOf(AfterMsgs(s, msgs, n).sequences, a) == Nth(SequenceOf(s, a), |NoncesOf(msgs[..n], a)|)
    decreases n
  {
    if n > 0 {
      MsgsCount(s, msgs, n - 1, a);
      assert msgs[..n][..n - 1] == msgs[..n - 1];
      OneMoreCounts(NoncesOf(msgs[..n - 1], a), SequenceOf(s, a), AfterMsgs(s, msgs, n - 1).sequences, msgs[n - 1], a);
    }
  }

  /** One more accepted message goes on counting, for its sender and for everyone else. */
  lemma OneMoreCounts(ns: seq<uint64>, start: uint64, t: Sequences, m: EthMsg, a: Address)
    requires CountsFrom(ns, start) && SequenceOf(t, a) == Nth(start, |ns|) && AfterMsg(t, m).Accepted?
    ensures var more := ns + if m.from == a then [m.nonce] else [];
      CountsFrom(more, start) && SequenceOf(AfterMsg(t, m).sequences, a) == Nth(start, |more|)
  {
    if m.from == a {
      CountsOn(ns, [m.nonce], start);
    } else {
      assert ns + [] == ns;
    }
  }

  // ---------- Which transactions are accepted ----------

  function Sum(xs: seq<nat>): nat {
    if xs == [] then 0 else xs[0] + Sum(xs[1..])
  }

  function Fees(msgs: seq<EthMsg>): seq<nat> {
    seq(|msgs|, i requires 0 <= i < |msgs| => msgs[i].fee)
  }

  function Gases(msgs: seq<EthMsg>): seq<nat> {
    seq(|msgs|, i requires 0 <= i < |msgs| => msgs[i].gas as nat)
  }

  /** The message passes its checks, and its nonce counts on from those its sender used before it. */
  ghost predicate InTurn(s: Sequences, msgs: seq<EthMsg>, k: nat)
    requires k < |msgs|
  {
    var m := msgs[k];
    m.valid && m.gasFits && m.nonce == Nth(SequenceOf(s, m.from), |NoncesOf(msgs[..k], m.from)|)
  }

  /** What was declared, if anything, is the sum of the fees and of the gas, the latter as a `uint64`. */
  ghost predicate DeclaresSums(tx: Tx, convert: nat -> nat) {
    match tx.declared
    case NotDeclared => true
    case Declared(fee, gasLimit) => fee == convert(Sum(Fees(tx.msgs))) && gasLimit == Sum(Gases(tx.msgs)) % TWO64
  }

  lemma AcceptsExactly(s: Sequences, tx: Tx, convert: nat -> nat)
    ensures AfterTx(s, tx, convert).Accepted? <==>
      && tx.valid && tx.gasFits && DeclaresSums(tx, convert)
      && forall k :: 0 <= k < |tx.msgs| ==> InTurn(s, tx.msgs, k)
  {
    MsgsExactly(s, tx.msgs, |tx.msgs|);
    FeesAddUp(tx.msgs, |tx.msgs|);
    assert tx.msgs[..|tx.msgs|] == tx.msgs;
  }

  lemma {:induction false} MsgsExactly(s: Sequences, msgs: seq<EthMsg>, n: nat)
    requires n <= |msgs|
    ensures AfterMsgs(s, msgs, n).Accepted? <==> forall k :: 0 <= k < n ==> InTurn(s, msgs, k)
    decreases n
  {
    if n > 0 {
      MsgsExactly(s, msgs, n - 1);
      if AfterMsgs(s, msgs, n - 1).Accepted? {
        MsgsCount(s, msgs, n - 1, msgs[n - 1].from);
        assert AfterMsgs(s, msgs, n).Accepted? <==> InTurn(s, msgs, n - 1);
      }
    }
  }

  /**
   Where a message is not in its turn, the first such one ends the loop, and the sequences count the messages
   before it, and itself if only its gas did not fit.
   */
  lemma {:induction false} RejectedLeaves(s: Sequences, msgs: seq<EthMsg>, n: nat, a: Address) returns (k: nat)
    requires n <= |msgs| && AfterMsgs(s, msgs, n).Rejected?
    ensures k < n && !InTurn(s, msgs, k) && forall i :: 0 <= i < k ==> InTurn(s, msgs, i)
    ensures var used := if InTurn(s, msgs[k := msgs[k].(gasFits := true)], k) then k + 1 else k;
      SequenceOf(AfterMsgs(s, msgs, n).sequences, a) == Nth(SequenceOf(s, a), |NoncesOf(msgs[..used], a)|)
    decreases n
  {
    if AfterMsgs(s, msgs, n - 1).Rejected? {
      k := RejectedLeaves(s, msgs, n - 1, a);
    } else {
      k := n - 1;
      MsgsExactly(s, msgs, k);
      MsgsExactly(s, msgs, n);
      MsgsCount(s, msgs, k, a);
      MsgsCount(s, msgs, k, msgs[k].from);
      LastLeaves(s, msgs, k, a);
    }
  }

  lemma LastLeaves(s: Sequences, msgs: seq<EthMsg>, k: nat, a: Address)
    requires k < |msgs| && AfterMsgs(s, msgs, k).Accepted? && AfterMsgs(s, msgs, k + 1).Rejected?
    requires var t := AfterMsgs(s, msgs, k).sequences;
      forall b :: b in {a, msgs[k].from} ==> SequenceOf(t, b) == Nth(SequenceOf(s, b), |NoncesOf(msgs[..k], b)|)
    ensures var used := if InTurn(s, msgs[k := msgs[k].(gasFits := true)], k) then k + 1 else k;
      SequenceOf(AfterMsgs(s, msgs, k + 1).sequences, a) == Nth(SequenceOf(s, a), |NoncesOf(msgs[..used], a)|)
  {
    var m := msgs[k];
    var fits := m.(gasFits := true);
    assert msgs[k := fits][..k] == msgs[..k] && msgs[..k + 1][..k] == msgs[..k];
    NthPlus(SequenceOf(s, a), |NoncesOf(msgs[..k], a)|, 1);
  }

  lemma {:induction false} FeesAddUp(msgs: seq<EthMsg>, n: nat)
    requires n <= |msgs|
    ensures TotalFee(msgs, n) == Sum(Fees(msgs[..n])) && TotalGas(msgs, n) == Sum(Gases(msgs[..n]))
    decreases n
  {
    if n > 0 {
      FeesAddUp(msgs, n - 1);
      assert Fees(msgs[..n]) == Fees(msgs[..n - 1]) + [msgs[n - 1].fee];
      assert Gases(msgs[..n]) == Gases(msgs[..n - 1]) + [msgs[n - 1].gas as nat];
      SumAppend(Fees(msgs[..n - 1]), msgs[n - 1].fee);
      SumAppend(Gases(msgs[..n - 1]), msgs[n - 1].gas);
    }
  }

  lemma {:induction false} SumAppend(xs: seq<nat>, x: nat)
    ensures Sum(xs + [x]) == Sum(xs) + x
  {
    if xs != [] {
      assert (xs + [x])[1..] == xs[1..] + [x];
      SumAppend(xs[1..], x);
    }
  }

  // ---------- Nonces over whole runs ----------

  /**
   Over every run, the nonces accepted for a sender count on from its stored sequence with no gap and
   no repeat, and the stored sequence ends at the first nonce that was not used.
   */
  lemma {:induction false} NoncesConsecutive(s: Sequences, txs: seq<Tx>, convert: nat -> nat, a: Address)
    ensures CountsFrom(NoncesOf(AcceptedMsgs(s, txs, convert), a), SequenceOf(s, a))
    ensures SequenceOf(AfterTxs(s, txs, convert), a) ==
            Nth(SequenceOf(s, a), |NoncesOf(AcceptedMsgs(s, txs, convert), a)|)
    decreases |txs|
  {
    if txs != [] {
      var front, tx := txs[..|txs| - 1], txs[|txs| - 1];
      NoncesConsecutive(s, front, convert, a);
      var before := AfterTxs(s, front, convert);
      var msgs := AcceptedMsgs(s, front, convert);
      if AfterTx(before, tx, convert).Accepted? {
        MsgsCount(before, tx.msgs, |tx.msgs|, a);
        assert tx.msgs[..|tx.msgs|] == tx.msgs;
        NoncesConcat(msgs, tx.msgs, a);
        CountsOn(NoncesOf(msgs, a), NoncesOf(tx.msgs, a), SequenceOf(s, a));
      } else {
        assert msgs + [] == msgs;
      }
    }
  }

  /** Below 2^64 nothing wraps: no nonce of a sender is accepted twice. */
  lemma NoReplay(s: Sequences, txs: seq<Tx>, convert: nat -> nat, a: Address, i: nat, j: nat)
    requires var ns := NoncesOf(AcceptedMsgs(s, txs, convert), a); i < j < |ns| && SequenceOf(s, a) + |ns| <= TWO64
    ensures var ns := NoncesOf(AcceptedMsgs(s, txs, convert), a); (ns[j] as int) - (ns[i] as int) == j - i
  {
    NoncesConsecutive(s, txs, convert, a);
  }
}
