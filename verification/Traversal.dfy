/**
 The `index-eth-tx` command (server/indexer_cmd.go): indexing the history backward or forward, with
 the starting point read off the database at every start.

 A run may end at any block, by an interrupt, a missing block or a failed write. The theorems say that
 restarts converge: however often a run was cut short, the next full run ends in the database that one
 uninterrupted run would have produced.
 */
module Traversal {
  import opened Machine
  import opened KvKeys
  import opened KvIndexer
  import opened KvLookup
  import opened Sweeps

  /** The block store; a height that is not a key has no block, or no stored results. */
  type Chain = map<int64, Block>

  ghost predicate ValidChain(chain: Chain) {
    forall h :: h in chain ==> 0 < h && chain[h].height == h && |Records(chain[h])| <= TWO31
  }

  ghost predicate Complete(chain: Chain, top: int64) {
    forall h: int64 :: 0 < h <= top ==> h in chain
  }

  // ---------- The two sweeps ----------

  /** The first height below all indexed ones; from the top of the chain if there is none. */
  function BackwardStart(db: Db, top: int64): int {
    match LoadFirstBlock(db)
    case Height(h) => (if h == -1 then top else h) - 1
    case BadKeyLength => 0
  }

  /** The first height above all indexed ones; from the first block if there is none. */
  function ForwardStart(db: Db): int {
    match LoadLastBlock(db)
    case Height(h) => (if h == -1 then 0 else h) + 1
    case BadKeyLength => 0
  }

  function IndexAt(db: Db, chain: Chain, h: int): Db {
    if InInt64(h) && h in chain then IndexedDb(db, chain[h]) else db
  }

  predicate InInt64(h: int) {
    -TWO63 <= h < TWO63
  }

  predicate HasBlock(chain: Chain, h: int) {
    InInt64(h) && h in chain
  }

  predicate EmptyAt(chain: Chain, h: int) {
    HasBlock(chain, h) && Records(chain[h]) == []
  }

  ghost predicate Traced(db: Db, h: int) {
    InInt64(h) && HasTx(db, h)
  }

  /** Indexing the blocks of a chain, height by height. */
  ghost function Blocks(chain: Chain): Walk<Db> {
    Walk((db, h) => IndexAt(db, chain, h), h => HasBlock(chain, h), h => EmptyAt(chain, h), db => IndexDb(db))
  }

  ghost function StartBelow(top: int64): Db -> int {
    db => BackwardStart(db, top)
  }

  ghost function BackwardSweep(chain: Chain, top: int64): Sweep<Db> {
    Blocks(chain).Down(StartBelow(top))
  }

  ghost function ForwardSweep(chain: Chain, top: int64): Sweep<Db> {
    Blocks(chain).Up(top, ForwardStart)
  }

  // ---------- Both sweeps are lawful ----------

  lemma IndexAtKeeps(db: Db, chain: Chain, h: int)
    requires ValidChain(chain) && IndexDb(db)
    ensures IndexDb(IndexAt(db, chain, h))
    ensures EmptyAt(chain, h) ==> IndexAt(db, chain, h) == db
  {
    if HasBlock(chain, h) {
      IndexingKeepsIndexDb(db, chain[h]);
    }
  }

  lemma IndexAtTraces(db: Db, chain: Chain, k: int, h: int)
    requires ValidChain(chain) && HasBlock(chain, k)
    ensures Traced(IndexAt(db, chain, k), h) <==> Traced(db, h) || (h == k && !EmptyAt(chain, k))
  {
    if InInt64(h) {
      IndexingAddsHeight(db, chain[k], h);
    }
  }

  lemma BackwardStartIs(db: Db, top: int64, h: int64)
    requires IndexDb(db) && 0 <= h && HasTx(db, h) && forall k: int64 :: 0 <= k < h ==> !HasTx(db, k)
    ensures BackwardStart(db, top) == h - 1
  {
    FirstBlockIsLeast(db);
  }

  lemma ForwardStartIs(db: Db, h: int64)
    requires IndexDb(db) && 0 <= h && HasTx(db, h) && forall k: int64 :: h < k ==> !HasTx(db, k)
    ensures ForwardStart(db) == h + 1
  {
    LastBlockIsGreatest(db);
  }

  /** Nothing is indexed between the start of a backward run and the first indexed block. */
  lemma NothingBelowStart(db: Db, top: int64, k: int64)
    requires IndexDb(db) && 0 <= k <= BackwardStart(db, top)
    ensures !HasTx(db, k)
  {
    FirstBlockIsLeast(db);
  }

  lemma NothingAboveStart(db: Db, k: int64)
    requires IndexDb(db) && 0 <= k && ForwardStart(db) <= k
    ensures !HasTx(db, k)
  {
    LastBlockIsGreatest(db);
  }

  lemma BackwardMoves(db: Db, chain: Chain, top: int64, i: int)
    requires ValidChain(chain) && IndexDb(db) && HasBlock(chain, i) && !EmptyAt(chain, i) && i <= BackwardStart(db, top)
    ensures BackwardStart(IndexAt(db, chain, i), top) == i - 1
  {
    IndexAtKeeps(db, chain, i);
    forall k: int64 | 0 <= k <= i ensures HasTx(IndexAt(db, chain, i), k) <==> k == i {
      NothingBelowStart(db, top, k);
      IndexAtTraces(db, chain, i, k);
    }
    BackwardStartIs(IndexAt(db, chain, i), top, i);
  }

  lemma ForwardMoves(db: Db, chain: Chain, i: int)
    requires ValidChain(chain) && IndexDb(db) && HasBlock(chain, i) && !EmptyAt(chain, i) && ForwardStart(db) <= i
    ensures ForwardStart(IndexAt(db, chain, i)) == i + 1
  {
    IndexAtKeeps(db, chain, i);
    forall k: int64 | i <= k ensures HasTx(IndexAt(db, chain, i), k) <==> k == i {
      NothingAboveStart(db, k);
      IndexAtTraces(db, chain, i, k);
    }
    ForwardStartIs(IndexAt(db, chain, i), i);
  }

  lemma BackwardLawful(chain: Chain, top: int64)
    requires ValidChain(chain)
    ensures BackwardSweep(chain, top).Lawful()
  {
    forall db: Db, h: int | IndexDb(db)
      ensures IndexDb(IndexAt(db, chain, h)) && (EmptyAt(chain, h) ==> IndexAt(db, chain, h) == db)
    {
      IndexAtKeeps(db, chain, h);
    }
    forall db: Db, i: int | IndexDb(db) && HasBlock(chain, i) && !EmptyAt(chain, i) && i <= BackwardStart(db, top)
      ensures BackwardStart(IndexAt(db, chain, i), top) == i - 1
    {
      BackwardMoves(db, chain, top, i);
    }
  }

  lemma ForwardLawful(chain: Chain, top: int64)
    requires ValidChain(chain)
    ensures ForwardSweep(chain, top).Lawful()
  {
    forall db: Db, h: int | IndexDb(db)
      ensures IndexDb(IndexAt(db, chain, h)) && (EmptyAt(chain, h) ==> IndexAt(db, chain, h) == db)
    {
      IndexAtKeeps(db, chain, h);
    }
    forall db: Db, i: int | IndexDb(db) && HasBlock(chain, i) && !EmptyAt(chain, i) && ForwardStart(db) <= i
      ensures ForwardStart(IndexAt(db, chain, i)) == i + 1
    {
      ForwardMoves(db, chain, i);
    }
  }

  // ---------- Restarts converge ----------

  /**
   A backward run interrupted anywhere and restarted any number of times ends with the database of one
   uninterrupted run, although empty blocks leave no trace of having been indexed.
   */
  lemma BackwardRestartsConverge(db: Db, chain: Chain, top: int64, cuts: seq<nat>)
    requires IndexDb(db) && ValidChain(chain)
    ensures var sw := BackwardSweep(chain, top); sw.Full(sw.Cuts(db, cuts)) == sw.Full(db)
  {
    BackwardLawful(chain, top);
    BackwardSweep(chain, top).RestartsConverge(db, cuts);
  }

  /** The same for forward runs. */
  lemma ForwardRestartsConverge(db: Db, chain: Chain, top: int64, cuts: seq<nat>)
    requires IndexDb(db) && ValidChain(chain)
    ensures var sw := ForwardSweep(chain, top); sw.Full(sw.Cuts(db, cuts)) == sw.Full(db)
  {
    ForwardLawful(chain, top);
    ForwardSweep(chain, top).RestartsConverge(db, cuts);
  }

  // ---------- What a full run covers ----------

  lemma EmptyDbStarts(top: int64)
    ensures IndexDb(map[]) && BackwardStart(map[], top) == top - 1 && ForwardStart(map[]) == 1
    ensures forall h: int :: !Traced(map[], h)
  {
  }

  lemma BlocksTraceOwn(chain: Chain, g: int)
    requires ValidChain(chain)
    ensures Blocks(chain).TracesOwn(Traced, g)
  {
    var w := Blocks(chain);
    forall db, h {:trigger w.step(db, h)} | w.inv(db) && w.present(h)
      ensures Traced(w.step(db, h), g) <==> Traced(db, g) || (g == h && !w.idle(h))
    {
      IndexAtTraces(db, chain, h, g);
    }
  }

  lemma BlocksPresent(chain: Chain, top: int64, from: int, to: int)
    requires Complete(chain, top) && 0 < from && to <= top
    ensures Blocks(chain).AllPresent(from, to)
  {
    forall h | from <= h <= to ensures HasBlock(chain, h) {
      var height: int64 := h;
      assert height in chain;
    }
  }

  /**
   On an empty database a backward run covers every block of a complete chain except the latest one,
   although the command's help text says that it starts there.
   */
  lemma BackwardCoverage(chain: Chain, top: int64, h: int64)
    requires ValidChain(chain) && top > 0 && Complete(chain, top)
    ensures HasTx(BackwardSweep(chain, top).Full(map[]), h) <==> 0 < h < top && Records(chain[h]) != []
  {
    EmptyDbStarts(top);
    BackwardLawful(chain, top);
    BlocksTraceOwn(chain, h);
    BlocksPresent(chain, top, 1, top - 1);
    Blocks(chain).DownCovers(StartBelow(top), map[], Traced, h);
    assert 0 < h < top ==> HasBlock(chain, h);
  }

  /** On an empty database a forward run covers every block of a complete chain. */
  lemma ForwardCoverage(chain: Chain, top: int64, h: int64)
    requires ValidChain(chain) && top > 0 && Complete(chain, top)
    ensures HasTx(ForwardSweep(chain, top).Full(map[]), h) <==> 0 < h <= top && Records(chain[h]) != []
  {
    EmptyDbStarts(top);
    ForwardLawful(chain, top);
    BlocksTraceOwn(chain, h);
    BlocksPresent(chain, top, 1, top);
    Blocks(chain).UpCovers(top, ForwardStart, map[], Traced, h);
    assert 0 < h <= top ==> HasBlock(chain, h);
  }

  // ---------- The command ----------

  /** Number `k` of the sweep is the block at height `h`. */
  ghost predicate Visits(sw: Sweep<Db>, k: int, chain: Chain, h: int) {
    && (HasBlock(chain, h) ==> sw.present(k))
    && forall db: Db :: sw.step(db, k) == IndexAt(db, chain, h)
  }

  ghost predicate VisitsDown(sw: Sweep<Db>, chain: Chain) {
    forall k, h :: k == h ==> Visits(sw, k, chain, h)
  }

  ghost predicate VisitsUp(sw: Sweep<Db>, chain: Chain, top: int64) {
    forall k, h :: k + h == top + 1 ==> Visits(sw, k, chain, h)
  }

  /** The block is there and indexing it does not fail. */
  ghost predicate Sound(chain: Chain, fails: int64 -> bool, h: int) {
    InInt64(h) && h in chain && !fails(h)
  }

  ghost predicate AllSound(chain: Chain, fails: int64 -> bool, from: int, to: int) {
    forall h :: from <= h <= to ==> Sound(chain, fails, h)
  }

  /** All blocks below `stop`, or above it, that were passed. */
  ghost predicate PassedUp(chain: Chain, fails: int64 -> bool, from: int, stop: int) {
    forall h :: from <= h < stop ==> Sound(chain, fails, h)
  }

  ghost predicate PassedDown(chain: Chain, fails: int64 -> bool, from: int, stop: int) {
    forall h :: stop < h <= from ==> Sound(chain, fails, h)
  }

  lemma PassUp(chain: Chain, fails: int64 -> bool, from: int, stop: int)
    requires PassedUp(chain, fails, from, stop) && Sound(chain, fails, stop)
    ensures PassedUp(chain, fails, from, stop + 1)
  {
  }

  lemma PassDown(chain: Chain, fails: int64 -> bool, from: int, stop: int)
    requires PassedDown(chain, fails, from, stop) && Sound(chain, fails, stop)
    ensures PassedDown(chain, fails, from, stop - 1)
  {
  }

  /** `indexBlock`: fails exactly where the block is missing or the write fails. */
  method IndexOne(idx: KVIndexer, chain: Chain, height: int64, fails: int64 -> bool, ghost sw: Sweep<Db>, ghost k: int)
    returns (ok: bool)
    requires Visits(sw, k, chain, height)
    modifies idx
    ensures ok <==> Sound(chain, fails, height)
    ensures ok ==> sw.present(k)
    ensures idx.db == if ok then sw.step(old(idx.db), k) else old(idx.db)
  {
    if height !in chain {
      return false;
    }
    ok := idx.IndexBlock(chain[height], _ => false, fails(height));
  }

  /** The backward loop; it indexes `done` blocks and ends at `stop`. */
  method LoopDown(idx: KVIndexer, chain: Chain, first: int64, fails: int64 -> bool,
                  ghost sw: Sweep<Db>, ghost from: int) returns (ok: bool, done: nat, ghost stop: int)
    requires VisitsDown(sw, chain) && from == first - 1
    modifies idx
    ensures idx.db == sw.Down(old(idx.db), from, done) && stop == from - done
    ensures PassedDown(chain, fails, from, stop)
    ensures if ok then stop <= 0 && done == sw.Steps(from) else stop > 0 && !Sound(chain, fails, stop)
  {
    done := 0;
    var i: int := first - 1;
    while i > 0
      invariant i == from - done && done <= sw.Steps(from)
      invariant forall k :: i < k <= from ==> sw.present(k)
      invariant idx.db == sw.Down(old(idx.db), from, done)
      invariant PassedDown(chain, fails, from, i)
      decreases i
    {
      assert Visits(sw, i, chain, i);
      ok := IndexOne(idx, chain, i, fails, sw, i);
      if !ok {
        return ok, done, i;
      }
      sw.OneMore(old(idx.db), from, done, i);
      PassDown(chain, fails, from, i);
      done := done + 1;
      i := i - 1;
    }
    return true, done, i;
  }

  /** One turn of the forward loop, at number `k` of the sweep. */
  method TurnUp(idx: KVIndexer, chain: Chain, i: int64, top: int64, fails: int64 -> bool,
                ghost sw: Sweep<Db>, ghost k: int) returns (ok: bool)
    requires VisitsUp(sw, chain, top) && k + i == top + 1
    modifies idx
    ensures ok <==> Sound(chain, fails, i)
    ensures ok ==> sw.present(k)
    ensures idx.db == if ok then sw.step(old(idx.db), k) else old(idx.db)
  {
    assert Visits(sw, k, chain, i);
    ok := IndexOne(idx, chain, i, fails, sw, k);
  }

  /** The forward loop; `n` is the number of blocks ahead of it. */
  method LoopUp(idx: KVIndexer, chain: Chain, latest: int64, top: int64, fails: int64 -> bool,
                ghost sw: Sweep<Db>, ghost n: int, ghost from: int) returns (ok: bool, done: nat, ghost stop: int)
    requires VisitsUp(sw, chain, top) && n == top - latest && from == latest + 1
    modifies idx
    ensures idx.db == sw.Down(old(idx.db), n, done) && stop == from + done
    ensures PassedUp(chain, fails, from, stop)
    ensures if ok then stop > top && done == sw.Steps(n) else stop <= top && !Sound(chain, fails, stop)
  {
    done := 0;
    var i: int := latest + 1;
    ghost var k := n;
    while i <= top
      invariant i == from + done && k == n - done && done <= sw.Steps(n)
      invariant forall j :: k < j <= n ==> sw.present(j)
      invariant idx.db == sw.Down(old(idx.db), n, done)
      invariant PassedUp(chain, fails, from, i)
    {
      ok := TurnUp(idx, chain, i, top, fails, sw, k);
      if !ok {
        return ok, done, i;
      }
      sw.OneMore(old(idx.db), n, done, k);
      PassUp(chain, fails, from, i);
      done := done + 1;
      i := i + 1;
      k := k - 1;
    }
    return true, done, i;
  }

  lemma WalkVisits(sw: Sweep<Db>, chain: Chain, k: int, h: int)
    requires Blocks(chain).Visits(sw, k, h)
    ensures Visits(sw, k, chain, h)
  {
    forall db: Db ensures sw.step(db, k) == IndexAt(db, chain, h) {
      assert sw.step(db, k) == Blocks(chain).step(db, h);
    }
  }

  lemma BackwardVisits(chain: Chain, top: int64)
    ensures VisitsDown(BackwardSweep(chain, top), chain)
  {
    forall k, h | k == h ensures Visits(BackwardSweep(chain, top), k, chain, h) {
      Blocks(chain).DownVisits(StartBelow(top), h);
      WalkVisits(BackwardSweep(chain, top), chain, h, h);
    }
  }

  lemma ForwardVisits(chain: Chain, top: int64)
    ensures VisitsUp(ForwardSweep(chain, top), chain, top)
  {
    forall k, h | k + h == top + 1 ensures Visits(ForwardSweep(chain, top), k, chain, h) {
      Blocks(chain).UpVisits(top, ForwardStart, k, h);
      WalkVisits(ForwardSweep(chain, top), chain, k, h);
    }
  }

  /** The block after which a backward run starts; fails on a malformed key. */
  method FirstIndexed(idx: KVIndexer, top: int64) returns (ok: bool, first: int64)
    ensures ok <==> LoadFirstBlock(idx.db).Height?
    ensures BackwardStart(idx.db, top) == if ok then (first as int) - 1 else 0
  {
    var load := LoadFirstBlock(idx.db);
    if load.BadKeyLength? {
      return false, 0;
    }
    return true, if load.h == -1 then top else load.h;
  }

  /** The block after which a forward run starts; fails on a malformed key. */
  method LastIndexed(idx: KVIndexer) returns (ok: bool, latest: int64)
    ensures ok <==> LoadLastBlock(idx.db).Height?
    ensures ok ==> ForwardStart(idx.db) == (latest as int) + 1
  {
    var load := LoadLastBlock(idx.db);
    if load.BadKeyLength? {
      return false, 0;
    }
    return true, if load.h == -1 then 0 else load.h;
  }

  /** A backward run over `done` blocks from `from` on ended at one that is not sound. */
  ghost predicate StopsBelow(chain: Chain, fails: int64 -> bool, from: int, done: nat) {
    var stop := from - done;
    stop > 0 && PassedDown(chain, fails, from, stop) && !Sound(chain, fails, stop)
  }

  ghost predicate StopsAbove(chain: Chain, fails: int64 -> bool, from: int, top: int, done: nat) {
    var stop := from + done;
    stop <= top && PassedUp(chain, fails, from, stop) && !Sound(chain, fails, stop)
  }

  lemma DownStops(chain: Chain, fails: int64 -> bool, from: int, done: nat, stop: int)
    requires stop == from - done && PassedDown(chain, fails, from, stop)
    ensures stop <= 0 ==> AllSound(chain, fails, 1, from)
    ensures stop > 0 && !Sound(chain, fails, stop) ==>
              StopsBelow(chain, fails, from, done) && !AllSound(chain, fails, 1, from)
  {
  }

  lemma UpStops(chain: Chain, fails: int64 -> bool, from: int, top: int, done: nat, stop: int)
    requires stop == from + done && PassedUp(chain, fails, from, stop)
    ensures stop > top ==> AllSound(chain, fails, from, top)
    ensures stop <= top && !Sound(chain, fails, stop) ==>
              StopsAbove(chain, fails, from, top, done) && !AllSound(chain, fails, from, top)
  {
  }

  /**
   `index-eth-tx backward`: the whole sweep if every block below the first indexed one is there and indexing
   it does not fail, and else the cut of the sweep before the first block of which that is not so.
   */
  method Backward(idx: KVIndexer, chain: Chain, top: int64, fails: int64 -> bool) returns (ok: bool, done: nat)
    modifies idx
    ensures idx.db == BackwardSweep(chain, top).Cut(old(idx.db), done)
    ensures ok ==> idx.db == BackwardSweep(chain, top).Full(old(idx.db))
    ensures ok <==>
      LoadFirstBlock(old(idx.db)).Height? && AllSound(chain, fails, 1, BackwardStart(old(idx.db), top))
    ensures !ok ==>
      if LoadFirstBlock(old(idx.db)).Height? then StopsBelow(chain, fails, BackwardStart(old(idx.db), top), done)
      else done == 0
  {
    var first;
    done := 0;
    ok, first := FirstIndexed(idx, top);
    if ok {
      ghost var from, stop := (first as int) - 1, 0;
      BackwardVisits(chain, top);
      ok, done, stop := LoopDown(idx, chain, first, fails, BackwardSweep(chain, top), from);
      BackwardFrom(old(idx.db), chain, top, from, done);
      DownStops(chain, fails, from, done, stop);
    } else {
      NoBackward(idx.db, chain, top);
    }
  }

  /** `index-eth-tx forward`. */
  method Forward(idx: KVIndexer, chain: Chain, top: int64, fails: int64 -> bool) returns (ok: bool, done: nat)
    modifies idx
    ensures idx.db == ForwardSweep(chain, top).Cut(old(idx.db), done)
    ensures ok ==> idx.db == ForwardSweep(chain, top).Full(old(idx.db))
    ensures ok <==>
      LoadLastBlock(old(idx.db)).Height? && AllSound(chain, fails, ForwardStart(old(idx.db)), top)
    ensures !ok ==>
      if LoadLastBlock(old(idx.db)).Height? then StopsAbove(chain, fails, ForwardStart(old(idx.db)), top, done)
      else done == 0
  {
    var latest;
    done := 0;
    ok, latest := LastIndexed(idx);
    if ok {
      ForwardVisits(chain, top);
      ghost var n, from, stop := (top as int) - latest, (latest as int) + 1, 0;
      ok, done, stop := LoopUp(idx, chain, latest, top, fails, ForwardSweep(chain, top), n, from);
      ForwardFrom(old(idx.db), chain, top, n, done);
      UpStops(chain, fails, from, top, done, stop);
    } else {
      NoForward(idx.db, chain, top);
    }
  }

  lemma BackwardFrom(db: Db, chain: Chain, top: int64, from: int, done: nat)
    requires from == BackwardStart(db, top)
    ensures var sw := BackwardSweep(chain, top);
      sw.Cut(db, done) == sw.Down(db, from, done) && sw.Full(db) == sw.Down(db, from, sw.Steps(from))
  {
  }

  lemma NoBackward(db: Db, chain: Chain, top: int64)
    ensures BackwardSweep(chain, top).Cut(db, 0) == db
  {
  }

  lemma ForwardFrom(db: Db, chain: Chain, top: int64, n: int, done: nat)
    requires n == top + 1 - ForwardStart(db)
    ensures var sw := ForwardSweep(chain, top);
      sw.Cut(db, done) == sw.Down(db, n, done) && sw.Full(db) == sw.Down(db, n, sw.Steps(n))
  {
    Blocks(chain).UpFrom(top, ForwardStart, db, n, done);
  }

  lemma NoForward(db: Db, chain: Chain, top: int64)
    ensures ForwardSweep(chain, top).Cut(db, 0) == db
  {
  }
}
