/**
 What the records of a block say (indexer/kv_indexer.go): which messages have one, and what of the
 message, its events and its transaction goes into it.
 */
module BlockRecords {
  import opened Machine
  import opened Wire
  import opened KvKeys
  import opened TxCodec
  import opened KvIndexer

  /** The block has a message at `p`, and its events were found unless the transaction failed. */
  ghost predicate HasRecord(b: Block, p: Pos) {
    p.tx < |b.txs| &&
    match b.txs[p.tx]
    case PassedOver => false
    case EthTx(ok, msgs) => p.msg < |msgs| && (ok ==> msgs[p.msg].parsed != None)
  }

  /** The record of the message at `p`: of a failed transaction, it is charged its gas limit and failed. */
  ghost predicate IsRecordOf(b: Block, p: Pos, r: Record)
    requires HasRecord(b, p)
  {
    var msg := b.txs[p.tx].msgs[p.msg];
    && r.hash == msg.hash
    && r.result.height == b.height && r.result.txIndex == p.tx % TWO32 && r.result.msgIndex == p.msg % TWO32
    && (if b.txs[p.tx].ok
        then r.result.gasUsed == msg.parsed.value.gasUsed && r.result.failed == msg.parsed.value.failed
        else r.result.gasUsed == msg.gas && r.result.failed)
  }

  /** The gas used, as the first `n` records say it, by the messages of transaction `t`. */
  ghost function GasUsedBy(ps: seq<Pos>, rs: seq<Record>, t: nat, n: nat): nat
    requires n <= |ps| == |rs|
  {
    if n == 0 then 0 else GasUsedBy(ps, rs, t, n - 1) + if ps[n - 1].tx == t then rs[n - 1].result.gasUsed else 0
  }

  /** There is one record per message that is to have one, in the order of transactions and messages. */
  lemma RecordsInOrder(b: Block)
    ensures var ps := Positions(b.txs, |b.txs|);
      |Records(b)| == |ps| && Ascending(ps) && forall p :: p in ps <==> HasRecord(b, p)
  {
    PositionsExact(b.txs, |b.txs|);
    forall p ensures IndexedPos(b.txs, p) <==> HasRecord(b, p) {
    }
  }

  /**
   The j-th record is that of the j-th such message, and its cumulative gas is the sum over the records of
   the same transaction so far.
   */
  lemma RecordsExact(b: Block, j: nat)
    requires j < |Records(b)|
    ensures var ps, rs := Positions(b.txs, |b.txs|), Records(b);
      && |ps| == |rs| && HasRecord(b, ps[j]) && IsRecordOf(b, ps[j], rs[j])
      && rs[j].result.ethTxIndex == Signed32(j)
      && rs[j].result.cumulativeGasUsed == GasUsedBy(ps, rs, ps[j].tx, j + 1) % TWO64
  {
    var ps := Positions(b.txs, |b.txs|);
    RecordsInOrder(b);
    assert ps[j] in ps;
    assert Records(b)[j] == RecordAt(b, ps, j);
    GasAddsUp(b.txs, ps, Records(b), j);
  }

  lemma {:induction false} GasAddsUp(txs: seq<BlockTx>, ps: seq<Pos>, rs: seq<Record>, j: nat)
    requires j < |ps| == |rs| && Ascending(ps) && forall p :: p in ps ==> IndexedPos(txs, p)
    requires forall k :: 0 <= k < |ps| ==> rs[k].result.gasUsed == GasOf(txs, ps[k])
    ensures CumulativeGas(txs, ps, j) == GasUsedBy(ps, rs, ps[j].tx, j + 1) % TWO64
    decreases j
  {
    if j > 0 && ps[j - 1].tx == ps[j].tx {
      GasAddsUp(txs, ps, rs, j - 1);
    } else {
      NoneEarlier(ps, rs, ps[j].tx, j);
    }
    AddWraps(GasUsedBy(ps, rs, ps[j].tx, j), GasOf(txs, ps[j]));
  }

  lemma AddWraps(sum: nat, gas: uint64)
    ensures (sum % TWO64 + gas) % TWO64 == (sum + gas) % TWO64
  {
  }

  lemma {:induction false} NoneEarlier(ps: seq<Pos>, rs: seq<Record>, t: nat, n: nat)
    requires n <= |ps| == |rs| && forall i :: 0 <= i < n ==> ps[i].tx != t
    ensures GasUsedBy(ps, rs, t, n) == 0
    decreases n
  {
    if n > 0 {
      NoneEarlier(ps, rs, t, n - 1);
    }
  }
}
