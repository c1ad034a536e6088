/**
 What the two lookups of indexer/kv_indexer.go find after a block was indexed: the record list of the
 block, read back by (height, index) and by hash.
 */
module KvLookup {
  import opened Machine
  import opened Wire
  import opened WireLaws
  import opened KvKeys
  import opened KvIndexer

  datatype Lookup = Found(result: TxResult) | NotFound | Corrupt

  /** `db.Get`: a missing key reads as no bytes. */
  function Get(db: Db, key: Bytes): Bytes {
    if key in db then db[key] else []
  }

  /** `common.BytesToHash`: the last 32 bytes, padded on the left. */
  function BytesToHash(s: Bytes): Hash {
    if |s| >= 32 then s[|s| - 32..] else seq(32 - |s|, _ => 0) + s
  }

  function GetByTxHash(db: Db, hash: Hash): Lookup {
    var bz := Get(db, TxHashKey(hash));
    if |bz| == 0 then NotFound
    else if |bz| >= TWO63 then Corrupt
    else match Decode(ZERO, bz)
      case BadMessage(_, _) => Corrupt
      case Decoded(m) => Found(m)
  }

  function GetByBlockAndIndex(db: Db, blockNumber: int64, txIndex: int32): Lookup {
    var bz := Get(db, TxIndexKey(blockNumber, txIndex));
    if |bz| == 0 then NotFound else GetByTxHash(db, BytesToHash(bz))
  }

  // ---------- Keys of stored records ----------

  /** The last record with the given hash, or -1. */
  function LastWith(rs: seq<Record>, hash: Hash): (j: int)
    ensures -1 <= j < |rs|
    ensures j >= 0 ==> rs[j].hash == hash
    ensures forall k :: j < k < |rs| ==> rs[k].hash != hash
  {
    if rs == [] then -1
    else if rs[|rs| - 1].hash == hash then |rs| - 1
    else LastWith(rs[..|rs| - 1], hash)
  }

  lemma OneUnderHash(db: Db, r: Record, hash: Hash)
    ensures Get(StoredOne(db, r), TxHashKey(hash)) ==
            if hash == r.hash then Marshalled(r.result) else Get(db, TxHashKey(hash))
  {
    TxHashKeyInjective(hash, r.hash);
    assert TxHashKey(hash)[0] == 1;
  }

  lemma OneUnderIndex(db: Db, r: Record, h: int64, i: int32)
    ensures Get(StoredOne(db, r), TxIndexKey(h, i)) ==
            if h == r.result.height && i == r.result.ethTxIndex then r.hash else Get(db, TxIndexKey(h, i))
    ensures TxIndexKey(h, i) in StoredOne(db, r) <==>
            TxIndexKey(h, i) in db || (h == r.result.height && i == r.result.ethTxIndex)
  {
    TxIndexKeyOrder(h, i, r.result.height, r.result.ethTxIndex);
    assert TxHashKey(r.hash)[0] == 1;
  }

  lemma {:induction false} StoredUnderHash(db: Db, rs: seq<Record>, hash: Hash)
    ensures Get(Stored(db, rs), TxHashKey(hash)) ==
            var j := LastWith(rs, hash);
            if j >= 0 then Marshalled(rs[j].result) else Get(db, TxHashKey(hash))
    decreases |rs|
  {
    if rs != [] {
      var front, r := rs[..|rs| - 1], rs[|rs| - 1];
      StoredUnderHash(db, front, hash);
      OneUnderHash(Stored(db, front), r, hash);
    }
  }

  /** The records of one block: one height, and the position as index. */
  ghost predicate OneBlock(rs: seq<Record>, height: int64) {
    |rs| <= TWO31 && forall j :: 0 <= j < |rs| ==> rs[j].result.height == height && rs[j].result.ethTxIndex == j
  }

  /** The last record of a list, on top of a database that holds the others. */
  lemma NextUnderIndex(d: Db, rs: seq<Record>, height: int64, h: int64, i: int32, before: Bytes)
    requires OneBlock(rs, height) && rs != []
    requires Get(d, TxIndexKey(h, i)) == if h == height && 0 <= i < |rs| - 1 then rs[i].hash else before
    ensures Get(StoredOne(d, rs[|rs| - 1]), TxIndexKey(h, i)) ==
            if h == height && 0 <= i < |rs| then rs[i].hash else before
  {
    OneUnderIndex(d, rs[|rs| - 1], h, i);
  }

  lemma {:induction false} StoredUnderIndex(db: Db, rs: seq<Record>, height: int64, h: int64, i: int32)
    requires OneBlock(rs, height)
    ensures Get(Stored(db, rs), TxIndexKey(h, i)) ==
            if h == height && 0 <= i < |rs| then rs[i].hash else Get(db, TxIndexKey(h, i))
    decreases |rs|
  {
    if rs != [] {
      var front, r := rs[..|rs| - 1], rs[|rs| - 1];
      StoredUnderIndex(db, front, height, h, i);
      NextUnderIndex(Stored(db, front), rs, height, h, i, Get(db, TxIndexKey(h, i)));
    }
  }

  // ---------- Lookups ----------

  lemma DecodeStored(db: Db, hash: Hash, m: TxResult)
    requires Get(db, TxHashKey(hash)) == Marshalled(m)
    ensures GetByTxHash(db, hash) == if m == ZERO then NotFound else Found(m)
  {
    RoundTrip(m);
    EmptyOnlyForZero(m);
  }

  /**
   A lookup by hash after a block was indexed finds the block's last record with that hash, and is
   untouched for every other hash. The one record that reads as absent is the all-zero one.
   */
  lemma LookupByHash(db: Db, b: Block, hash: Hash)
    ensures var j := LastWith(Records(b), hash);
            GetByTxHash(IndexedDb(db, b), hash) ==
            if j < 0 then GetByTxHash(db, hash)
            else if Records(b)[j].result == ZERO then NotFound
            else Found(Records(b)[j].result)
  {
    StoredUnderHash(db, Records(b), hash);
    var j := LastWith(Records(b), hash);
    if j >= 0 {
      DecodeStored(IndexedDb(db, b), hash, Records(b)[j].result);
    }
  }

  lemma RecordsAreOneBlock(b: Block)
    requires |Records(b)| <= TWO31
    ensures OneBlock(Records(b), b.height)
  {
  }

  /** The index entry of position i of the block holds the hash of its i-th record. */
  lemma LookupByIndex(db: Db, b: Block, i: int32)
    requires 0 <= i < |Records(b)| <= TWO31
    ensures GetByBlockAndIndex(IndexedDb(db, b), b.height, i) == GetByTxHash(IndexedDb(db, b), Records(b)[i].hash)
  {
    RecordsAreOneBlock(b);
    StoredUnderIndex(db, Records(b), b.height, b.height, i);
  }

  /** Other heights, and positions past the end of the block, keep their index entry. */
  lemma OtherIndicesKept(db: Db, b: Block, h: int64, i: int32)
    requires |Records(b)| <= TWO31
    requires h != b.height || i < 0 || i >= |Records(b)|
    ensures Get(IndexedDb(db, b), TxIndexKey(h, i)) == Get(db, TxIndexKey(h, i))
  {
    RecordsAreOneBlock(b);
    StoredUnderIndex(db, Records(b), b.height, h, i);
  }

  /**
   The index agrees with the list: at a height other than zero, the lookup at position i gives the
   i-th record if and only if no later record of the block has the same hash.
   */
  lemma IndexAgreesWithList(db: Db, b: Block, i: int32)
    requires b.height != 0
    requires 0 <= i < |Records(b)| <= TWO31
    ensures GetByBlockAndIndex(IndexedDb(db, b), b.height, i) == Found(Records(b)[i].result)
       <==> forall k :: i < k < |Records(b)| ==> Records(b)[k].hash != Records(b)[i].hash
  {
    var rs := Records(b);
    LookupByIndex(db, b, i);
    LookupByHash(db, b, rs[i].hash);
    var j := LastWith(rs, rs[i].hash);
    RecordsAreOneBlock(b);
    assert j >= i;
    assert rs[j].result != ZERO;
    assert j != i ==> rs[j].result != rs[i].result;
  }

  /**
   With distinct hashes the block is read back exactly: positions 0 to n-1 in (tx, msg) order, by
   index and by hash alike, and nothing beyond them where the height was not indexed before.
   */
  lemma BlockReadBack(db: Db, b: Block)
    requires b.height != 0 && |Records(b)| <= TWO31
    requires forall j, k :: 0 <= j < k < |Records(b)| ==> Records(b)[j].hash != Records(b)[k].hash
    requires forall i: int32 :: Get(db, TxIndexKey(b.height, i)) == []
    ensures forall i: int32 ::
      GetByBlockAndIndex(IndexedDb(db, b), b.height, i) ==
      if 0 <= i < |Records(b)| then Found(Records(b)[i].result) else NotFound
    ensures forall j :: 0 <= j < |Records(b)| ==>
      GetByTxHash(IndexedDb(db, b), Records(b)[j].hash) == Found(Records(b)[j].result)
  {
    forall i: int32
      ensures GetByBlockAndIndex(IndexedDb(db, b), b.height, i) ==
              if 0 <= i < |Records(b)| then Found(Records(b)[i].result) else NotFound
    {
      if 0 <= i < |Records(b)| {
        IndexAgreesWithList(db, b, i);
      } else {
        OtherIndicesKept(db, b, b.height, i);
      }
    }
    forall j | 0 <= j < |Records(b)|
      ensures GetByTxHash(IndexedDb(db, b), Records(b)[j].hash) == Found(Records(b)[j].result)
    {
      var i: int32 := j;
      LookupByIndex(db, b, i);
    }
  }

  // ---------- Which heights have transactions ----------

  lemma {:induction false} StoredKeepsIndexDb(db: Db, rs: seq<Record>, height: int64)
    requires IndexDb(db) && OneBlock(rs, height) && height >= 0
    ensures IndexDb(Stored(db, rs))
    decreases |rs|
  {
    if rs != [] {
      var r := rs[|rs| - 1];
      StoredKeepsIndexDb(db, rs[..|rs| - 1], height);
      InIndexRangeIff(TxHashKey(r.hash));
      assert IsIndexKey(TxIndexKey(r.result.height, r.result.ethTxIndex));
    }
  }

  lemma NextKeyIn(d: Db, rs: seq<Record>, height: int64, h: int64, i: int32, before: bool)
    requires OneBlock(rs, height) && rs != []
    requires TxIndexKey(h, i) in d <==> before || (h == height && 0 <= i < |rs| - 1)
    ensures TxIndexKey(h, i) in StoredOne(d, rs[|rs| - 1]) <==> before || (h == height && 0 <= i < |rs|)
  {
    OneUnderIndex(d, rs[|rs| - 1], h, i);
  }

  lemma {:induction false} StoredKeyIn(db: Db, rs: seq<Record>, height: int64, h: int64, i: int32)
    requires OneBlock(rs, height)
    ensures TxIndexKey(h, i) in Stored(db, rs) <==> TxIndexKey(h, i) in db || (h == height && 0 <= i < |rs|)
    decreases |rs|
  {
    if rs != [] {
      var front, r := rs[..|rs| - 1], rs[|rs| - 1];
      StoredKeyIn(db, front, height, h, i);
      NextKeyIn(Stored(db, front), rs, height, h, i, TxIndexKey(h, i) in db);
    }
  }

  /** Indexing a block adds its height exactly if it has a record, and no other height. */
  lemma IndexingAddsHeight(db: Db, b: Block, h: int64)
    requires |Records(b)| <= TWO31
    ensures HasTx(IndexedDb(db, b), h) <==> HasTx(db, h) || (h == b.height && Records(b) != [])
  {
    var rs := Records(b);
    RecordsAreOneBlock(b);
    forall i: int32 { StoredKeyIn(db, rs, b.height, h, i); }
    if h == b.height && rs != [] {
      var zero: int32 := 0;
      assert TxIndexKey(h, zero) in IndexedDb(db, b);
    }
    if HasTx(db, h) {
      var i: int32 :| 0 <= i && TxIndexKey(h, i) in db;
      assert TxIndexKey(h, i) in IndexedDb(db, b);
    }
  }

  lemma IndexingKeepsIndexDb(db: Db, b: Block)
    requires IndexDb(db) && b.height >= 0 && |Records(b)| <= TWO31
    ensures IndexDb(IndexedDb(db, b))
  {
    RecordsAreOneBlock(b);
    StoredKeepsIndexDb(db, Records(b), b.height);
  }
}
