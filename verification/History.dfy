/**
 Lookups after many blocks were indexed (indexer/kv_indexer.go): a hash that occurs in several blocks
 leads to the one indexed last, so that the order of indexing shows exactly in such hashes.
 */
module History {
  import opened Machine
  import opened Wire
  import opened KvKeys
  import opened KvIndexer
  import opened KvLookup
  import opened Sweeps
  import opened Traversal

  /** The database after the blocks were indexed one after the other. */
  function IndexedAll(db: Db, blocks: seq<Block>): Db
    decreases |blocks|
  {
    if blocks == [] then db else IndexedDb(IndexedAll(db, blocks[..|blocks| - 1]), blocks[|blocks| - 1])
  }

  ghost predicate Sized(blocks: seq<Block>) {
    forall b :: b in blocks ==> |Records(b)| <= TWO31
  }

  predicate HasHash(b: Block, hash: Hash) {
    LastWith(Records(b), hash) >= 0
  }

  /** What a lookup by hash finds when block `b` decides it. */
  function InBlock(b: Block, hash: Hash): Lookup
    requires HasHash(b, hash)
  {
    var r := Records(b)[LastWith(Records(b), hash)].result;
    if r == ZERO then NotFound else Found(r)
  }

  /** No block after the n-th has the hash. */
  ghost predicate LastHere(blocks: seq<Block>, n: nat, hash: Hash) {
    forall m :: n < m < |blocks| ==> !HasHash(blocks[m], hash)
  }

  /** Of the blocks of its height, the n-th is the last one that has an i-th record. */
  ghost predicate LastOfHeight(blocks: seq<Block>, n: nat, i: nat) {
    n < |blocks| && i < |Records(blocks[n])| &&
    forall m :: n < m < |blocks| && blocks[m].height == blocks[n].height ==> |Records(blocks[m])| <= i
  }

  lemma ByHashAfterOne(db: Db, b: Block, hash: Hash)
    ensures GetByTxHash(IndexedDb(db, b), hash) == if HasHash(b, hash) then InBlock(b, hash) else GetByTxHash(db, hash)
  {
    LookupByHash(db, b, hash);
  }

  /** The last block with the hash decides what a lookup by hash finds. */
  lemma {:induction false} LastBlockDecides(db: Db, blocks: seq<Block>, n: nat, hash: Hash)
    requires n < |blocks| && HasHash(blocks[n], hash) && LastHere(blocks, n, hash)
    ensures GetByTxHash(IndexedAll(db, blocks), hash) == InBlock(blocks[n], hash)
    decreases |blocks|
  {
    var front, b := blocks[..|blocks| - 1], blocks[|blocks| - 1];
    ByHashAfterOne(IndexedAll(db, front), b, hash);
    if n < |blocks| - 1 {
      assert !HasHash(b, hash);
      LastBlockDecides(db, front, n, hash);
    }
  }

  /** Blocks of other heights, and too short ones, leave the entry for (height, i) alone. */
  lemma {:induction false} EntryKept(db: Db, blocks: seq<Block>, h: int64, i: int32)
    requires Sized(blocks) && forall b :: b in blocks && b.height == h ==> !(0 <= i < |Records(b)|)
    ensures Get(IndexedAll(db, blocks), TxIndexKey(h, i)) == Get(db, TxIndexKey(h, i))
    decreases |blocks|
  {
    if blocks != [] {
      var front, b := blocks[..|blocks| - 1], blocks[|blocks| - 1];
      OtherIndicesKept(IndexedAll(db, front), b, h, i);
      EntryKept(db, front, h, i);
    }
  }

  lemma {:induction false} EntryMade(db: Db, blocks: seq<Block>, n: nat, i: int32)
    requires 0 <= i && Sized(blocks) && LastOfHeight(blocks, n, i)
    ensures Get(IndexedAll(db, blocks), TxIndexKey(blocks[n].height, i)) == Records(blocks[n])[i].hash
    decreases |blocks|
  {
    var front, b := blocks[..|blocks| - 1], blocks[|blocks| - 1];
    if n == |blocks| - 1 {
      EntryOf(IndexedAll(db, front), b, i);
    } else {
      Shorter(blocks, n, i);
      EntryMade(db, front, n, i);
      OtherIndicesKept(IndexedAll(db, front), b, blocks[n].height, i);
    }
  }

  lemma Shorter(blocks: seq<Block>, n: nat, i: nat)
    requires n < |blocks| - 1 && Sized(blocks) && LastOfHeight(blocks, n, i)
    ensures var front, b := blocks[..|blocks| - 1], blocks[|blocks| - 1];
      && Sized(front) && LastOfHeight(front, n, i) && front[n] == blocks[n]
      && (b.height != blocks[n].height || |Records(b)| <= i) && |Records(b)| <= TWO31
  {
    assert blocks[|blocks| - 1] in blocks;
  }

  lemma EntryOf(db: Db, b: Block, i: int32)
    requires 0 <= i < |Records(b)| <= TWO31
    ensures Get(IndexedDb(db, b), TxIndexKey(b.height, i)) == Records(b)[i].hash
  {
    RecordsAreOneBlock(b);
    StoredUnderIndex(db, Records(b), b.height, b.height, i);
  }

  lemma ByEntry(db: Db, h: int64, i: int32, hash: Hash)
    requires Get(db, TxIndexKey(h, i)) == hash
    ensures GetByBlockAndIndex(db, h, i) == GetByTxHash(db, hash)
  {
  }

  /** Some record indexed after the i-th of the n-th block has the same hash. */
  ghost predicate IndexedAgain(blocks: seq<Block>, n: nat, i: nat)
    requires n < |blocks| && i < |Records(blocks[n])|
  {
    var rs := Records(blocks[n]);
    || (exists k :: i < k < |rs| && rs[k].hash == rs[i].hash)
    || (exists m :: n < m < |blocks| && HasHash(blocks[m], rs[i].hash))
  }

  /**
   After any sequence of blocks, whatever was stored before them, and for the last block of a height that
   has an i-th record: the lookup at (height, i) gives this record if and only if no record indexed later,
   in this or in a later block, has its hash, and the record is not the all-zero one.
   */
  lemma HistoryAgrees(db: Db, blocks: seq<Block>, n: nat, i: int32)
    requires 0 <= i && Sized(blocks) && LastOfHeight(blocks, n, i)
    ensures var r := Records(blocks[n])[i].result;
      GetByBlockAndIndex(IndexedAll(db, blocks), blocks[n].height, i) == Found(r) <==>
      r != ZERO && !IndexedAgain(blocks, n, i)
  {
    var hash := Records(blocks[n])[i].hash;
    EntryMade(db, blocks, n, i);
    ByEntry(IndexedAll(db, blocks), blocks[n].height, i, hash);
    WithItself(Records(blocks[n]), i);
    var m := LastBlockWith(blocks, n, hash);
    LastBlockDecides(db, blocks, m, hash);
    SameRecord(blocks, n, i, m);
  }

  lemma SameRecord(blocks: seq<Block>, n: nat, i: nat, m: nat)
    requires Sized(blocks) && LastOfHeight(blocks, n, i) && n <= m < |blocks|
    requires var hash := Records(blocks[n])[i].hash;
      HasHash(blocks[m], hash) && (LastHere(blocks, n, hash) <==> m == n)
    ensures var r := Records(blocks[n])[i];
      InBlock(blocks[m], r.hash) == Found(r.result) <==> r.result != ZERO && !IndexedAgain(blocks, n, i)
  {
    var hash := Records(blocks[n])[i].hash;
    WithItself(Records(blocks[n]), i);
    assert blocks[m] in blocks;
    OtherRecord(blocks[n], i, blocks[m], LastWith(Records(blocks[m]), hash));
  }

  lemma WithItself(rs: seq<Record>, i: nat)
    requires i < |rs|
    ensures LastWith(rs, rs[i].hash) >= i
    ensures LastWith(rs, rs[i].hash) == i <==> forall k :: i < k < |rs| ==> rs[k].hash != rs[i].hash
  {
  }

  lemma {:induction false} LastBlockWith(blocks: seq<Block>, n: nat, hash: Hash) returns (m: nat)
    requires n < |blocks| && HasHash(blocks[n], hash)
    ensures n <= m < |blocks| && HasHash(blocks[m], hash) && LastHere(blocks, m, hash)
    ensures LastHere(blocks, n, hash) <==> m == n
    decreases |blocks| - n
  {
    if LastHere(blocks, n, hash) {
      m := n;
    } else {
      var k :| n < k < |blocks| && HasHash(blocks[k], hash);
      m := LastBlockWith(blocks, k, hash);
    }
  }

  /** Records of different heights, or at different places, are different. */
  lemma OtherRecord(a: Block, i: nat, b: Block, j: nat)
    requires i < |Records(a)| <= TWO31 && j < |Records(b)| <= TWO31
    ensures a.height != b.height || i != j ==> Records(a)[i].result != Records(b)[j].result
  {
    RecordsAreOneBlock(a);
    RecordsAreOneBlock(b);
  }

  // ---------- The order of indexing ----------

  function BlockAt(chain: Chain, h: int): Block
    requires HasBlock(chain, h)
  {
    var height: int64 := h;
    chain[height]
  }

  ghost predicate AllThere(chain: Chain, heights: seq<int>) {
    forall j :: 0 <= j < |heights| ==> HasBlock(chain, heights[j])
  }

  /** The blocks at some heights. */
  ghost function BlocksAt(chain: Chain, heights: seq<int>): (blocks: seq<Block>)
    requires AllThere(chain, heights)
    ensures |blocks| == |heights| && forall j :: 0 <= j < |heights| ==> blocks[j] == BlockAt(chain, heights[j])
  {
    seq(|heights|, j requires 0 <= j < |heights| => BlockAt(chain, heights[j]))
  }

  lemma ChainIsSized(chain: Chain, heights: seq<int>)
    requires ValidChain(chain) && AllThere(chain, heights)
    ensures Sized(BlocksAt(chain, heights))
    ensures forall j :: 0 <= j < |heights| ==> BlocksAt(chain, heights)[j].height == heights[j]
  {
  }

  /** Number `k` of the sweep is the block `b`. */
  ghost predicate StepsTo(sw: Sweep<Db>, k: int, b: Block) {
    forall db :: sw.step(db, k) == IndexedDb(db, b)
  }

  ghost predicate AllStep(sw: Sweep<Db>, numbers: seq<int>, blocks: seq<Block>) {
    |numbers| == |blocks| && forall j :: 0 <= j < |blocks| ==> StepsTo(sw, numbers[j], blocks[j])
  }

  lemma IndexAtBlock(db: Db, chain: Chain, h: int)
    requires HasBlock(chain, h)
    ensures IndexAt(db, chain, h) == IndexedDb(db, BlockAt(chain, h))
  {
  }

  lemma BackwardAllStep(chain: Chain, top: int64, heights: seq<int>)
    requires AllThere(chain, heights)
    ensures AllStep(BackwardSweep(chain, top), heights, BlocksAt(chain, heights))
  {
    var sw := BackwardSweep(chain, top);
    forall j | 0 <= j < |heights| ensures StepsTo(sw, heights[j], BlockAt(chain, heights[j])) {
      Blocks(chain).DownVisits(StartBelow(top), heights[j]);
      VisitsBlock(sw, chain, heights[j], heights[j]);
    }
  }

  lemma ForwardAllStep(chain: Chain, top: int64, heights: seq<int>, numbers: seq<int>)
    requires AllThere(chain, heights) && |numbers| == |heights|
    requires forall j :: 0 <= j < |heights| ==> numbers[j] + heights[j] == top + 1
    ensures AllStep(ForwardSweep(chain, top), numbers, BlocksAt(chain, heights))
  {
    var sw := ForwardSweep(chain, top);
    forall j | 0 <= j < |heights| ensures StepsTo(sw, numbers[j], BlockAt(chain, heights[j])) {
      ForwardStepsTo(chain, top, heights[j], numbers[j]);
    }
  }

  lemma ForwardStepsTo(chain: Chain, top: int64, h: int, k: int)
    requires HasBlock(chain, h) && k + h == top + 1
    ensures StepsTo(ForwardSweep(chain, top), k, BlockAt(chain, h))
  {
    Blocks(chain).UpVisits(top, ForwardStart, k, h);
    VisitsBlock(ForwardSweep(chain, top), chain, k, h);
  }

  lemma VisitsBlock(sw: Sweep<Db>, chain: Chain, k: int, h: int)
    requires HasBlock(chain, h) && Blocks(chain).Visits(sw, k, h)
    ensures StepsTo(sw, k, BlockAt(chain, h))
  {
    forall db: Db ensures sw.step(db, k) == IndexedDb(db, BlockAt(chain, h)) {
      assert sw.step(db, k) == Blocks(chain).step(db, h);
      IndexAtBlock(db, chain, h);
    }
  }

  /** A fold over numbers is the history of the blocks that they stand for. */
  lemma {:induction false} FoldIsHistory(sw: Sweep<Db>, db: Db, numbers: seq<int>, blocks: seq<Block>)
    requires AllStep(sw, numbers, blocks)
    ensures sw.Fold(db, numbers) == IndexedAll(db, blocks)
    decreases |blocks|
  {
    if blocks != [] {
      var n := |blocks| - 1;
      FoldIsHistory(sw, db, numbers[..n], blocks[..n]);
      assert StepsTo(sw, numbers[n], blocks[n]);
    }
  }

  /** A full sweep over numbers that are all there. */
  lemma FullIsHistory(sw: Sweep<Db>, db: Db, i: nat, numbers: seq<int>, blocks: seq<Block>)
    requires sw.start(db) == i && |numbers| == i && AllStep(sw, numbers, blocks)
    requires forall j :: 0 <= j < i ==> numbers[j] == i - j && sw.present(numbers[j])
    ensures sw.Full(db) == IndexedAll(db, blocks)
  {
    FoldIsHistory(sw, db, numbers, blocks);
    sw.FoldIsDown(db, i, numbers);
  }

  /** n, n - 1, ..., 1. */
  function DownTo1(n: nat): seq<int> {
    seq(n, j => n - j)
  }

  /** 1, 2, ..., n. */
  function UpFrom1(n: nat): seq<int> {
    seq(n, j => j + 1)
  }

  lemma AllBlocks(chain: Chain, top: int64, heights: seq<int>)
    requires Complete(chain, top) && forall j :: 0 <= j < |heights| ==> 0 < heights[j] <= top
    ensures AllThere(chain, heights)
  {
  }

  /** On an empty database, a full backward run indexes the blocks from the second latest down to the first. */
  lemma BackwardHistory(chain: Chain, top: int64)
    requires Whole(chain, top)
    ensures AllThere(chain, DownTo1(top - 1))
    ensures AllBackward(chain, top) == IndexedAll(map[], BlocksAt(chain, DownTo1(top - 1)))
  {
    var heights := DownTo1(top - 1);
    AllBlocks(chain, top, heights);
    EmptyDbStarts(top);
    BackwardAllStep(chain, top, heights);
    FullIsHistory(BackwardSweep(chain, top), map[], top - 1, heights, BlocksAt(chain, heights));
  }

  lemma ForwardHistory(chain: Chain, top: int64)
    requires Whole(chain, top)
    ensures AllThere(chain, UpFrom1(top))
    ensures AllForward(chain, top) == IndexedAll(map[], BlocksAt(chain, UpFrom1(top)))
  {
    var heights, numbers := UpFrom1(top), DownTo1(top);
    AllBlocks(chain, top, heights);
    EmptyDbStarts(top);
    ForwardAllStep(chain, top, heights, numbers);
    ForwardAllPresent(chain, top, numbers);
    FullIsHistory(ForwardSweep(chain, top), map[], top, numbers, BlocksAt(chain, heights));
  }

  lemma ForwardAllPresent(chain: Chain, top: int64, numbers: seq<int>)
    requires Complete(chain, top) && forall j :: 0 <= j < |numbers| ==> 0 < numbers[j] <= top
    ensures forall j :: 0 <= j < |numbers| ==> ForwardSweep(chain, top).present(numbers[j])
  {
    BlocksPresent(chain, top, 1, top);
    forall j | 0 <= j < |numbers| ensures ForwardSweep(chain, top).present(numbers[j]) {
      assert Blocks(chain).present(top + 1 - numbers[j]);
    }
  }

  // ---------- Backward and forward runs compared ----------

  ghost predicate HashAt(chain: Chain, k: int, hash: Hash) {
    HasBlock(chain, k) && HasHash(BlockAt(chain, k), hash)
  }

  /** The heights of the blocks that have a hash. */
  ghost function HeightsOf(chain: Chain, hash: Hash): int -> bool {
    k => HashAt(chain, k, hash)
  }

  ghost predicate NoneAfter(has: int -> bool, heights: seq<int>, n: nat) {
    forall m :: n < m < |heights| ==> !has(heights[m])
  }

  ghost predicate NoneBetween(has: int -> bool, above: int, below: int) {
    forall k :: above < k < below ==> !has(k)
  }

  lemma NoneAfterDown(has: int -> bool, top: nat, lo: int)
    requires 0 < lo <= top && NoneBetween(has, 0, lo)
    ensures DownTo1(top)[top - lo] == lo && NoneAfter(has, DownTo1(top), top - lo)
  {
  }

  lemma NoneAfterUp(has: int -> bool, top: nat, hi: int)
    requires 0 < hi <= top && NoneBetween(has, hi, top + 1)
    ensures UpFrom1(top)[hi - 1] == hi && NoneAfter(has, UpFrom1(top), hi - 1)
  {
  }

  /** The last height of a history that has the hash decides. */
  lemma DecidedAt(db: Db, chain: Chain, heights: seq<int>, n: nat, h: int, hash: Hash)
    requires AllThere(chain, heights) && db == IndexedAll(map[], BlocksAt(chain, heights))
    requires n < |heights| && heights[n] == h && HashAt(chain, h, hash)
    requires NoneAfter(HeightsOf(chain, hash), heights, n)
    ensures GetByTxHash(db, hash) == InBlock(BlockAt(chain, h), hash)
  {
    var blocks := BlocksAt(chain, heights);
    forall m | n < m < |blocks| ensures !HasHash(blocks[m], hash) {
      assert !HeightsOf(chain, hash)(heights[m]);
    }
    LastBlockDecides(map[], blocks, n, hash);
  }

  ghost predicate Whole(chain: Chain, top: int64) {
    ValidChain(chain) && top > 0 && Complete(chain, top)
  }

  /** The databases of full runs over a complete chain, from an empty one. */
  ghost function AllBackward(chain: Chain, top: int64): Db {
    BackwardSweep(chain, top).Full(map[])
  }

  ghost function AllForward(chain: Chain, top: int64): Db {
    ForwardSweep(chain, top).Full(map[])
  }

  /** A backward run ends with the lowest block that has the hash, a forward run with the highest. */
  lemma BackwardFinds(chain: Chain, top: int64, lo: int, hash: Hash)
    requires Whole(chain, top) && 0 < lo < top && HashAt(chain, lo, hash) && NoneBetween(HeightsOf(chain, hash), 0, lo)
    ensures GetByTxHash(AllBackward(chain, top), hash) == InBlock(BlockAt(chain, lo), hash)
  {
    BackwardHistory(chain, top);
    NoneAfterDown(HeightsOf(chain, hash), top - 1, lo);
    DecidedAt(AllBackward(chain, top), chain, DownTo1(top - 1), top - 1 - lo, lo, hash);
  }

  lemma ForwardFinds(chain: Chain, top: int64, hi: int, hash: Hash)
    requires Whole(chain, top) && 0 < hi <= top && HashAt(chain, hi, hash)
    requires NoneBetween(HeightsOf(chain, hash), hi, top + 1)
    ensures GetByTxHash(AllForward(chain, top), hash) == InBlock(BlockAt(chain, hi), hash)
  {
    ForwardHistory(chain, top);
    NoneAfterUp(HeightsOf(chain, hash), top, hi);
    DecidedAt(AllForward(chain, top), chain, UpFrom1(top), hi - 1, hi, hash);
  }

  lemma {:induction false} Lowest(has: int -> bool, h: int) returns (lo: int)
    requires 0 < h && has(h)
    ensures 0 < lo <= h && has(lo) && NoneBetween(has, 0, lo)
    decreases h
  {
    lo := h;
    if k :| 0 < k < h && has(k) {
      lo := Lowest(has, k);
    }
  }

  lemma {:induction false} Highest(has: int -> bool, h: int, top: int) returns (hi: int)
    requires h <= top && has(h)
    ensures h <= hi <= top && has(hi) && NoneBetween(has, hi, top + 1)
    decreases top - h
  {
    hi := h;
    if k :| h < k <= top && has(k) {
      hi := Highest(has, k, top);
    }
  }

  lemma FoundHeight(b: Block, hash: Hash)
    requires HasHash(b, hash) && b.height != 0
    ensures InBlock(b, hash).Found? && InBlock(b, hash).result.height == b.height
  {
  }

  /** Of the heights up to `top`, only `h` has it. */
  ghost predicate OnlyAt(has: int -> bool, top: int, h: int) {
    forall k :: 0 < k <= top && has(k) ==> k == h
  }

  lemma OneOnly(has: int -> bool, top: int, h: int, lo: int, hi: int)
    requires 0 < lo <= h <= hi <= top && has(lo) && has(hi)
    requires NoneBetween(has, 0, lo) && NoneBetween(has, hi, top + 1)
    ensures lo == hi <==> OnlyAt(has, top, h)
  {
  }

  /**
   The order decides: on an empty database, full backward and forward runs give the same answer for a hash
   that both have met if and only if it occurs in one block only.
   */
  lemma OrderDecides(chain: Chain, top: int64, h: int, hash: Hash)
    requires Whole(chain, top) && 0 < h < top && HashAt(chain, h, hash)
    ensures GetByTxHash(AllBackward(chain, top), hash) == GetByTxHash(AllForward(chain, top), hash) <==>
            OnlyAt(HeightsOf(chain, hash), top, h)
  {
    var has := HeightsOf(chain, hash);
    var lo := Lowest(has, h);
    var hi := Highest(has, h, top);
    BackwardFinds(chain, top, lo, hash);
    ForwardFinds(chain, top, hi, hash);
    FoundHeight(BlockAt(chain, lo), hash);
    FoundHeight(BlockAt(chain, hi), hash);
    OneOnly(has, top, h, lo, hi);
  }

  /** Height `h` is the n-th of a history, and comes once. */
  ghost predicate OnceAt(heights: seq<int>, n: nat, h: int) {
    n < |heights| && forall m :: 0 <= m < |heights| ==> (heights[m] == h <==> m == n)
  }

  lemma EntryHere(db: Db, chain: Chain, heights: seq<int>, n: nat, h: int64, i: int32)
    requires ValidChain(chain) && AllThere(chain, heights) && db == IndexedAll(map[], BlocksAt(chain, heights))
    requires OnceAt(heights, n, h) && HasBlock(chain, h)
    ensures var rs := Records(BlockAt(chain, h));
            GetByBlockAndIndex(db, h, i) == if 0 <= i < |rs| then GetByTxHash(db, rs[i].hash) else NotFound
  {
    var blocks, rs := BlocksAt(chain, heights), Records(BlockAt(chain, h));
    ChainIsSized(chain, heights);
    if 0 <= i < |rs| {
      EntryMade(map[], blocks, n, i);
      ByEntry(db, h, i, rs[i].hash);
    } else {
      OnlyShort(blocks, n, h, i);
      EntryKept(map[], blocks, h, i);
    }
  }

  lemma OnlyShort(blocks: seq<Block>, n: nat, h: int64, i: int32)
    requires n < |blocks| && !(0 <= i < |Records(blocks[n])|)
    requires forall m :: 0 <= m < |blocks| && blocks[m].height == h ==> m == n
    ensures forall b :: b in blocks && b.height == h ==> !(0 <= i < |Records(b)|)
  {
  }

  lemma OnceDown(top: nat, h: int)
    requires 0 < h <= top
    ensures OnceAt(DownTo1(top), top - h, h)
  {
  }

  lemma OnceUp(top: nat, h: int)
    requires 0 < h <= top
    ensures OnceAt(UpFrom1(top), h - 1, h)
  {
  }

  /**
   Full backward and forward runs agree on the i-th record of a block that both cover if and only if its
   hash occurs in no other block; past the end of the block both find nothing.
   */
  lemma RunsAgree(chain: Chain, top: int64, h: int64, i: int32)
    requires Whole(chain, top) && 0 < h < top && HasBlock(chain, h)
    ensures var rs := Records(BlockAt(chain, h));
            var back, forth := AllBackward(chain, top), AllForward(chain, top);
      if 0 <= i < |rs|
      then GetByBlockAndIndex(back, h, i) == GetByBlockAndIndex(forth, h, i) <==>
           OnlyAt(HeightsOf(chain, rs[i].hash), top, h)
      else GetByBlockAndIndex(back, h, i) == GetByBlockAndIndex(forth, h, i) == NotFound
  {
    var rs := Records(BlockAt(chain, h));
    BackwardEntry(chain, top, h, i);
    ForwardEntry(chain, top, h, i);
    if 0 <= i < |rs| {
      WithItself(rs, i);
      OrderDecides(chain, top, h, rs[i].hash);
    }
  }

  lemma BackwardEntry(chain: Chain, top: int64, h: int64, i: int32)
    requires Whole(chain, top) && 0 < h < top && HasBlock(chain, h)
    ensures var db, rs := AllBackward(chain, top), Records(BlockAt(chain, h));
            GetByBlockAndIndex(db, h, i) == if 0 <= i < |rs| then GetByTxHash(db, rs[i].hash) else NotFound
  {
    BackwardHistory(chain, top);
    OnceDown(top - 1, h);
    EntryHere(AllBackward(chain, top), chain, DownTo1(top - 1), top - 1 - h, h, i);
  }

  lemma ForwardEntry(chain: Chain, top: int64, h: int64, i: int32)
    requires Whole(chain, top) && 0 < h <= top && HasBlock(chain, h)
    ensures var db, rs := AllForward(chain, top), Records(BlockAt(chain, h));
            GetByBlockAndIndex(db, h, i) == if 0 <= i < |rs| then GetByTxHash(db, rs[i].hash) else NotFound
  {
    ForwardHistory(chain, top);
    OnceUp(top, h);
    EntryHere(AllForward(chain, top), chain, UpFrom1(top), h - 1, h, i);
  }
}
