/**
 The transaction index of indexer/kv_indexer.go: which records a block contributes, what a database
 holds after it was indexed, and what the two lookups then find.

 Decoding a transaction and parsing its events are inputs: a transaction is either passed over or
 comes with its messages, each with the event data found for it, if any.
 */
module KvIndexer {
  import opened Machine
  import opened Wire
  import opened WireLaws
  import opened KvKeys
  import opened TxCodec

  // ---------- Blocks ----------

  /** What the events of a successful transaction say about one message. */
  datatype Parsed = Parsed(gasUsed: uint64, failed: bool)

  datatype EthMsg = EthMsg(hash: Hash, gas: uint64, parsed: Option<Parsed>)

  /** `ok` tells whether the result code of the transaction is OK. */
  datatype BlockTx = PassedOver | EthTx(ok: bool, msgs: seq<EthMsg>)

  datatype Block = Block(height: int64, txs: seq<BlockTx>)

  // ---------- The records of a block ----------

  datatype Pos = Pos(tx: nat, msg: nat)

  /** Messages of an OK transaction are indexed only if their events were found. */
  predicate Indexed(tx: BlockTx, m: nat) {
    tx.EthTx? && m < |tx.msgs| && (tx.ok ==> tx.msgs[m].parsed.Some?)
  }

  predicate IndexedPos(txs: seq<BlockTx>, p: Pos) {
    p.tx < |txs| && Indexed(txs[p.tx], p.msg)
  }

  /** The indexed messages among the first `m` of transaction `t`. */
  function MsgPositions(tx: BlockTx, t: nat, m: nat): seq<Pos> {
    if m == 0 then []
    else MsgPositions(tx, t, m - 1) + (if Indexed(tx, m - 1) then [Pos(t, m - 1)] else [])
  }

  function MsgCount(tx: BlockTx): nat {
    if tx.EthTx? then |tx.msgs| else 0
  }

  /** The indexed messages of the first `t` transactions. */
  function Positions(txs: seq<BlockTx>, t: nat): seq<Pos>
    requires t <= |txs|
  {
    if t == 0 then [] else Positions(txs, t - 1) + MsgPositions(txs[t - 1], t - 1, MsgCount(txs[t - 1]))
  }

  predicate Before(p: Pos, q: Pos) {
    p.tx < q.tx || (p.tx == q.tx && p.msg < q.msg)
  }

  ghost predicate Ascending(ps: seq<Pos>) {
    forall i, j :: 0 <= i < j < |ps| ==> Before(ps[i], ps[j])
  }

  lemma {:induction false} MsgPositionsExact(tx: BlockTx, t: nat, m: nat)
    ensures forall p :: p in MsgPositions(tx, t, m) <==> p.tx == t && p.msg < m && Indexed(tx, p.msg)
    ensures Ascending(MsgPositions(tx, t, m))
  {
    if m > 0 {
      MsgPositionsExact(tx, t, m - 1);
    }
  }

  /** The positions of a block are its indexed messages, each once, in (tx, msg) order. */
  lemma {:induction false} PositionsExact(txs: seq<BlockTx>, t: nat)
    requires t <= |txs|
    ensures forall p :: p in Positions(txs, t) <==> p.tx < t && IndexedPos(txs, p)
    ensures Ascending(Positions(txs, t))
    decreases t
  {
    if t > 0 {
      PositionsExact(txs, t - 1);
      MsgPositionsExact(txs[t - 1], t - 1, MsgCount(txs[t - 1]));
    }
  }

  datatype Record = Record(hash: Hash, result: TxResult)

  /** The gas a message is charged: its limit if the transaction failed, else what its events say. */
  function GasOf(txs: seq<BlockTx>, p: Pos): uint64
    requires IndexedPos(txs, p)
  {
    var msg := txs[p.tx].msgs[p.msg];
    if txs[p.tx].ok then msg.parsed.value.gasUsed else msg.gas
  }

  /** The gas of the messages of the same transaction up to position `j`, as a `uint64` sum. */
  function CumulativeGas(txs: seq<BlockTx>, ps: seq<Pos>, j: nat): uint64
    requires j < |ps| && forall p :: p in ps ==> IndexedPos(txs, p)
  {
    var before := if j > 0 && ps[j - 1].tx == ps[j].tx then CumulativeGas(txs, ps, j - 1) else 0;
    (before + GasOf(txs, ps[j])) % TWO64
  }

  function RecordAt(b: Block, ps: seq<Pos>, j: nat): Record
    requires j < |ps| && forall p :: p in ps ==> IndexedPos(b.txs, p)
  {
    var p := ps[j];
    assert IndexedPos(b.txs, p);
    var tx := b.txs[p.tx];
    Record(tx.msgs[p.msg].hash,
           TxResult(b.height, p.tx % TWO32, p.msg % TWO32, Signed32(j),
                    !tx.ok || tx.msgs[p.msg].parsed.value.failed,
                    GasOf(b.txs, p), CumulativeGas(b.txs, ps, j)))
  }

  function RecordsAt(b: Block, ps: seq<Pos>): (rs: seq<Record>)
    requires forall p :: p in ps ==> IndexedPos(b.txs, p)
    ensures |rs| == |ps|
  {
    seq(|ps|, j requires 0 <= j < |ps| => RecordAt(b, ps, j))
  }

  /** The records of a block, the j-th of which has the Ethereum transaction index j. */
  function Records(b: Block): (rs: seq<Record>)
    ensures forall j :: 0 <= j < |rs| ==> rs[j].result.height == b.height && rs[j].result.ethTxIndex == Signed32(j)
  {
    PositionsExact(b.txs, |b.txs|);
    RecordsAt(b, Positions(b.txs, |b.txs|))
  }

  lemma {:induction false} CumulativeGasPrefix(txs: seq<BlockTx>, ps: seq<Pos>, q: Pos, j: nat)
    requires j < |ps| && forall p :: p in ps + [q] ==> IndexedPos(txs, p)
    ensures forall p :: p in ps ==> p in ps + [q]
    ensures CumulativeGas(txs, ps + [q], j) == CumulativeGas(txs, ps, j)
    decreases j
  {
    assert forall p :: p in ps ==> p in ps + [q];
    if j > 0 {
      CumulativeGasPrefix(txs, ps, q, j - 1);
    }
  }

  /** Records already made do not change as the block goes on. */
  lemma RecordsAtAppend(b: Block, ps: seq<Pos>, q: Pos)
    requires forall p :: p in ps + [q] ==> IndexedPos(b.txs, p)
    ensures forall p :: p in ps ==> p in ps + [q]
    ensures RecordsAt(b, ps + [q]) == RecordsAt(b, ps) + [RecordAt(b, ps + [q], |ps|)]
  {
    assert forall p :: p in ps ==> p in ps + [q];
    forall j | 0 <= j < |ps| ensures RecordAt(b, ps + [q], j) == RecordAt(b, ps, j) {
      CumulativeGasPrefix(b.txs, ps, q, j);
    }
  }

  // ---------- What is stored ----------

  /**
   The database after the records were stored one after the other: each under its hash, and its hash
   under height and index.
   */
  function Stored(db: Db, rs: seq<Record>): Db {
    if rs == [] then db else StoredOne(Stored(db, rs[..|rs| - 1]), rs[|rs| - 1])
  }

  function StoredOne(db: Db, r: Record): Db {
    db[TxHashKey(r.hash) := Marshalled(r.result)][TxIndexKey(r.result.height, r.result.ethTxIndex) := r.hash]
  }

  /** The database after `IndexBlock` succeeded. */
  function IndexedDb(db: Db, b: Block): Db {
    Stored(db, Records(b))
  }

  class KVIndexer {
    var db: Db

    constructor (db: Db)
      ensures this.db == db
    {
      this.db := db;
    }

    /**
     The batch is the list of records passed to `saveTxResult`, each of which stands for two `Set`
     calls. The n-th `Set` fails if `setFails(n)`, and the final write fails if `writeFails`; the
     batch is atomic, so that nothing is stored unless it is written.
     */
    method IndexBlock(b: Block, setFails: nat -> bool, writeFails: bool) returns (ok: bool)
      modifies this
      ensures ok <==> !writeFails && !SomeSetFails(b, setFails)
      ensures db == if ok then IndexedDb(old(db), b) else old(db)
    {
      var batch;
      ok, batch := Collect(b, setFails);
      if !ok || writeFails {
        return false;
      }
      db := Stored(db, batch);
    }

    /** The outer loop: fills the batch, or stops at the first failed `Set`. */
    method Collect(b: Block, setFails: nat -> bool) returns (ok: bool, batch: seq<Record>)
      ensures ok <==> !SomeSetFails(b, setFails)
      ensures ok ==> batch == Records(b)
    {
      batch := [];
      var ethTxIndex: int32 := 0;
      var txIndex := 0;
      while txIndex < |b.txs|
        invariant 0 <= txIndex <= |b.txs|
        invariant BatchState(b, Positions(b.txs, txIndex), batch, ethTxIndex, setFails)
      {
        if b.txs[txIndex].EthTx? {
          ok, batch, ethTxIndex := IndexTx(b, txIndex, batch, ethTxIndex, setFails);
          if !ok {
            return;
          }
        } else {
          PassOver(b.txs, txIndex);
        }
        txIndex := txIndex + 1;
      }
      WholeBlock(b, batch, ethTxIndex, setFails);
      ok := true;
    }

    /** The inner loop: the messages of one transaction. */
    method IndexTx(b: Block, txIndex: nat, batch0: seq<Record>, eth0: int32, setFails: nat -> bool)
      returns (ok: bool, batch: seq<Record>, ethTxIndex: int32)
      requires txIndex < |b.txs| && b.txs[txIndex].EthTx?
      requires BatchState(b, Positions(b.txs, txIndex), batch0, eth0, setFails)
      ensures ok ==> BatchState(b, Positions(b.txs, txIndex + 1), batch, ethTxIndex, setFails)
      ensures !ok ==> SomeSetFails(b, setFails)
    {
      batch, ethTxIndex := batch0, eth0;
      var tx := b.txs[txIndex];
      var cumulativeGasUsed: uint64 := 0;
      var msgIndex := 0;
      ghost var ps := Positions(b.txs, txIndex);
      UptoStart(b.txs, txIndex);
      while msgIndex < |tx.msgs|
        invariant 0 <= msgIndex <= |tx.msgs| && ps == Upto(b.txs, txIndex, msgIndex)
        invariant BatchState(b, ps, batch, ethTxIndex, setFails)
        invariant cumulativeGasUsed == GasSoFar(b.txs, ps, txIndex)
      {
        UptoNext(b.txs, txIndex, msgIndex);
        if Indexed(tx, msgIndex) {
          ok, batch, ethTxIndex, cumulativeGasUsed :=
            IndexMsg(b, txIndex, msgIndex, batch, ethTxIndex, cumulativeGasUsed, setFails, ps);
          if !ok {
            FailedSet(b, txIndex, msgIndex, setFails);
            return;
          }
          ps := ps + [Pos(txIndex, msgIndex)];
        }
        msgIndex := msgIndex + 1;
      }
      UptoEnd(b.txs, txIndex);
      ok := true;
    }

    /** One message: builds its record and hands it to `saveTxResult`. */
    method IndexMsg(b: Block, txIndex: nat, msgIndex: nat, batch0: seq<Record>, eth0: int32, gas0: uint64,
                    setFails: nat -> bool, ghost ps: seq<Pos>)
      returns (ok: bool, batch: seq<Record>, ethTxIndex: int32, cumulativeGasUsed: uint64)
      requires IndexedPos(b.txs, Pos(txIndex, msgIndex))
      requires BatchState(b, ps, batch0, eth0, setFails) && gas0 == GasSoFar(b.txs, ps, txIndex)
      ensures ok ==>
        && BatchState(b, ps + [Pos(txIndex, msgIndex)], batch, ethTxIndex, setFails)
        && cumulativeGasUsed == GasSoFar(b.txs, ps + [Pos(txIndex, msgIndex)], txIndex)
      ensures !ok ==> setFails(2 * |ps|) || setFails(2 * |ps| + 1)
    {
      var tx := b.txs[txIndex];
      var msg := tx.msgs[msgIndex];
      var gasUsed := if tx.ok then msg.parsed.value.gasUsed else msg.gas;
      var failed := if tx.ok then msg.parsed.value.failed else true;
      cumulativeGasUsed := (gas0 + gasUsed) % TWO64;
      var record := Record(msg.hash,
        TxResult(b.height, txIndex % TWO32, msgIndex % TWO32, eth0, failed, gasUsed, cumulativeGasUsed));
      NextRecord(b, ps, batch0, eth0, setFails, Pos(txIndex, msgIndex), record);
      ethTxIndex := NextIndex(eth0);
      ok := !setFails(2 * |batch0|) && !setFails(2 * |batch0| + 1);
      batch := if ok then batch0 + [record] else batch0;
    }
  }

  /** Saving a block takes two `Set` calls for each of its records. */
  ghost predicate SomeSetFails(b: Block, setFails: nat -> bool) {
    exists n :: 0 <= n < 2 * |Records(b)| && setFails(n)
  }

  /** The batch holds the records of `ps`, none of whose writes failed. */
  ghost predicate BatchState(b: Block, ps: seq<Pos>, batch: seq<Record>, eth: int32, setFails: nat -> bool) {
    && (forall p :: p in ps ==> IndexedPos(b.txs, p))
    && batch == RecordsAt(b, ps)
    && eth == Signed32(|ps|)
    && forall n :: 0 <= n < 2 * |batch| ==> !setFails(n)
  }

  /** The gas accumulated so far in transaction `t`. */
  ghost function GasSoFar(txs: seq<BlockTx>, ps: seq<Pos>, t: nat): uint64
    requires forall p :: p in ps ==> IndexedPos(txs, p)
  {
    if ps != [] && ps[|ps| - 1].tx == t then CumulativeGas(txs, ps, |ps| - 1) else 0
  }

  /** `ethTxIndex++` on an `int32`. */
  function NextIndex(i: int32): int32 {
    if i == TWO31 - 1 then -TWO31 else i + 1
  }

  lemma NextIndexCounts(n: nat)
    ensures NextIndex(Signed32(n)) == Signed32(n + 1)
  {
  }

  lemma NextRecord(b: Block, ps: seq<Pos>, batch: seq<Record>, eth: int32, setFails: nat -> bool, q: Pos, r: Record)
    requires BatchState(b, ps, batch, eth, setFails)
    requires IndexedPos(b.txs, q)
    requires r.hash == b.txs[q.tx].msgs[q.msg].hash
    requires r.result == TxResult(b.height, q.tx % TWO32, q.msg % TWO32, eth,
                                  !b.txs[q.tx].ok || b.txs[q.tx].msgs[q.msg].parsed.value.failed,
                                  GasOf(b.txs, q), (GasSoFar(b.txs, ps, q.tx) + GasOf(b.txs, q)) % TWO64)
    ensures forall p :: p in ps + [q] ==> IndexedPos(b.txs, p)
    ensures RecordsAt(b, ps + [q]) == batch + [r]
    ensures !setFails(2 * |batch|) && !setFails(2 * |batch| + 1) ==>
              BatchState(b, ps + [q], batch + [r], NextIndex(eth), setFails)
    ensures GasSoFar(b.txs, ps + [q], q.tx) == r.result.cumulativeGasUsed
  {
    RecordsAtAppend(b, ps, q);
    NextIndexCounts(|ps|);
    if ps != [] {
      CumulativeGasPrefix(b.txs, ps, q, |ps| - 1);
    }
  }

  /** The positions passed when `m` messages of transaction `t` are done. */
  ghost function Upto(txs: seq<BlockTx>, t: nat, m: nat): seq<Pos>
    requires t < |txs|
  {
    Positions(txs, t) + MsgPositions(txs[t], t, m)
  }

  lemma UptoNext(txs: seq<BlockTx>, t: nat, m: nat)
    requires t < |txs|
    ensures Upto(txs, t, m + 1) == if Indexed(txs[t], m) then Upto(txs, t, m) + [Pos(t, m)] else Upto(txs, t, m)
  {
  }

  lemma UptoStart(txs: seq<BlockTx>, t: nat)
    requires t < |txs|
    ensures Upto(txs, t, 0) == Positions(txs, t)
    ensures forall p :: p in Positions(txs, t) ==> IndexedPos(txs, p)
    ensures GasSoFar(txs, Upto(txs, t, 0), t) == 0
  {
    PositionsExact(txs, t);
    assert Upto(txs, t, 0) == Positions(txs, t);
  }

  lemma UptoEnd(txs: seq<BlockTx>, t: nat)
    requires t < |txs|
    ensures Upto(txs, t, MsgCount(txs[t])) == Positions(txs, t + 1)
  {
  }

  lemma PassOver(txs: seq<BlockTx>, t: nat)
    requires t < |txs| && txs[t].PassedOver?
    ensures Positions(txs, t + 1) == Positions(txs, t)
  {
  }

  /** After the last transaction the batch is the whole block. */
  lemma WholeBlock(b: Block, batch: seq<Record>, eth: int32, setFails: nat -> bool)
    requires BatchState(b, Positions(b.txs, |b.txs|), batch, eth, setFails)
    ensures batch == Records(b) && !SomeSetFails(b, setFails)
  {
  }

  lemma FailedSet(b: Block, t: nat, m: nat, setFails: nat -> bool)
    requires t < |b.txs| && Indexed(b.txs[t], m)
    requires setFails(2 * |Upto(b.txs, t, m)|) || setFails(2 * |Upto(b.txs, t, m)| + 1)
    ensures SomeSetFails(b, setFails)
  {
    UptoNext(b.txs, t, m);
    RecordsGrow(b, t, m + 1);
  }

  /** A block has at least the records found so far. */
  lemma RecordsGrow(b: Block, t: nat, m: nat)
    requires t < |b.txs| && m <= MsgCount(b.txs[t])
    ensures |Upto(b.txs, t, m)| <= |Records(b)|
  {
    MsgPositionsGrow(b.txs[t], t, m, MsgCount(b.txs[t]));
    PositionsGrow(b.txs, t + 1, |b.txs|);
  }

  lemma {:induction false} MsgPositionsGrow(tx: BlockTx, t: nat, m: nat, n: nat)
    requires m <= n
    ensures |MsgPositions(tx, t, m)| <= |MsgPositions(tx, t, n)|
    decreases n
  {
    if m < n {
      MsgPositionsGrow(tx, t, m, n - 1);
    }
  }

  lemma {:induction false} PositionsGrow(txs: seq<BlockTx>, t: nat, u: nat)
    requires t <= u <= |txs|
    ensures |Positions(txs, t)| <= |Positions(txs, u)|
    decreases u
  {
    if t < u {
      PositionsGrow(txs, t, u - 1);
    }
  }
}
