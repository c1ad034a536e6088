/**
 Gaps in the transaction index. The command supports only two directions to avoid creating gaps
 (server/indexer_cmd.go), and it does avoid them: no sequence of runs in either direction, each cut
 anywhere, makes one. A gap that is there, however, stays there for good, also if the service is started
 again. The service itself makes gaps where indexing a block fails, since it goes on to the next: one that
 resumed from the last indexed block as soon as a later block is indexed, one that was started on an empty
 index only if there is an indexed block on both sides.
 */
module Gaps {
  import opened Machine
  import opened KvKeys
  import opened KvIndexer
  import opened Sweeps
  import opened Traversal
  import Service

  // ---------- Gaps in a set of heights ----------

  /** A set of heights. */
  type Heights = int -> bool

  /** Between two heights of `at` there is no height of `wanted` that `at` lacks. */
  ghost predicate Gapless(at: Heights, wanted: Heights) {
    forall a, h, b :: at(a) && 0 <= a < h < b && wanted(h) && at(b) ==> at(h)
  }

  /** The state of a loop that goes down and comes to `i` next. */
  ghost predicate PastDown(at: Heights, wanted: Heights, i: int) {
    && (forall a :: at(a) && 0 <= a ==> i < a)
    && forall h, b :: 0 <= h && i < h < b && wanted(h) && at(b) ==> at(h)
  }

  /** The state of a loop that goes up and comes to `i` next. */
  ghost predicate PastUp(at: Heights, wanted: Heights, i: int) {
    && (forall b :: at(b) && 0 <= b ==> b < i)
    && forall a, h :: at(a) && 0 <= a < h < i && wanted(h) ==> at(h)
  }

  ghost predicate Nothing(at: Heights) {
    forall h :: 0 <= h ==> !at(h)
  }

  ghost predicate Least(at: Heights, first: int) {
    0 <= first && at(first) && forall h :: 0 <= h && at(h) ==> first <= h
  }

  ghost predicate Greatest(at: Heights, last: int) {
    0 <= last && at(last) && forall h :: 0 <= h && at(h) ==> h <= last
  }

  /** Where a loop that goes down begins: below all of them. */
  ghost predicate DownFrom(at: Heights, i: int) {
    Nothing(at) || Least(at, i + 1)
  }

  ghost predicate UpFrom(at: Heights, i: int) {
    Nothing(at) || Greatest(at, i - 1)
  }

  lemma BeginDown(at: Heights, wanted: Heights, i: int)
    requires Gapless(at, wanted) && DownFrom(at, i)
    ensures PastDown(at, wanted, i)
  {
  }

  lemma BeginUp(at: Heights, wanted: Heights, i: int)
    requires Gapless(at, wanted) && UpFrom(at, i)
    ensures PastUp(at, wanted, i)
  {
  }

  lemma EndDown(at: Heights, wanted: Heights, i: int)
    requires PastDown(at, wanted, i)
    ensures Gapless(at, wanted)
  {
  }

  lemma EndUp(at: Heights, wanted: Heights, i: int)
    requires PastUp(at, wanted, i)
    ensures Gapless(at, wanted)
  {
  }

  // ---------- Indexed heights ----------

  ghost function IndexedIn(db: Db): Heights {
    h => Traced(db, h)
  }

  /** The blocks that have records. */
  function WithRecords(chain: Chain): Heights {
    h => HasBlock(chain, h) && !EmptyAt(chain, h)
  }

  /** Every block with records between two indexed ones is indexed. */
  ghost predicate NoGaps(db: Db, chain: Chain) {
    Gapless(IndexedIn(db), WithRecords(chain))
  }

  /** The first and last block bound every indexed height. */
  lemma FirstHeight(db: Db, h: int64) returns (first: int64)
    requires IndexDb(db) && 0 <= h && HasTx(db, h)
    ensures LoadFirstBlock(db) == Height(first) && 0 <= first <= h && HasTx(db, first)
  {
    FirstBlockIsLeast(db);
    first := LoadFirstBlock(db).h;
  }

  lemma LastHeight(db: Db, h: int64) returns (last: int64)
    requires IndexDb(db) && 0 <= h && HasTx(db, h)
    ensures LoadLastBlock(db) == Height(last) && h <= last && HasTx(db, last)
  {
    LastBlockIsGreatest(db);
    last := LoadLastBlock(db).h;
  }

  lemma FirstIs(db: Db, h: int) returns (first: int64)
    requires IndexDb(db) && 0 <= h && IndexedIn(db)(h)
    ensures LoadFirstBlock(db) == Height(first) && 0 <= first <= h && IndexedIn(db)(first)
  {
    first := FirstHeight(db, h);
  }

  lemma LastIs(db: Db, h: int) returns (last: int64)
    requires IndexDb(db) && 0 <= h && IndexedIn(db)(h)
    ensures LoadLastBlock(db) == Height(last) && h <= last && IndexedIn(db)(last)
  {
    last := LastHeight(db, h);
  }

  lemma FirstBounds(db: Db, top: int64, h: int) returns (first: int)
    requires IndexDb(db) && 0 <= h && IndexedIn(db)(h)
    ensures BackwardStart(db, top) == first - 1 && 0 <= first <= h && IndexedIn(db)(first)
  {
    first := FirstIs(db, h);
    StartsBelow(db, top, first);
  }

  lemma StartsBelow(db: Db, top: int64, first: int64)
    requires LoadFirstBlock(db) == Height(first) && first >= 0
    ensures BackwardStart(db, top) == (first as int) - 1
  {
  }

  lemma LastBounds(db: Db, h: int) returns (last: int)
    requires IndexDb(db) && 0 <= h && IndexedIn(db)(h)
    ensures ForwardStart(db) == last + 1 && h <= last && IndexedIn(db)(last)
  {
    last := LastIs(db, h);
    StartsAbove(db, last);
  }

  lemma StartsAbove(db: Db, last: int64)
    requires LoadLastBlock(db) == Height(last) && last >= 0
    ensures ForwardStart(db) == (last as int) + 1
  {
  }

  lemma LeastOf(at: Heights, first: int, i: int)
    requires 0 <= first && at(first) && i == first - 1 && forall h :: 0 <= h && at(h) ==> first <= h
    ensures DownFrom(at, i)
  {
    assert i + 1 == first;
  }

  lemma GreatestOf(at: Heights, last: int, i: int)
    requires 0 <= last && at(last) && i == last + 1 && forall h :: 0 <= h && at(h) ==> h <= last
    ensures UpFrom(at, i)
  {
    assert i - 1 == last;
  }

  lemma BackwardBegins(db: Db, top: int64)
    requires IndexDb(db)
    ensures DownFrom(IndexedIn(db), BackwardStart(db, top))
  {
    var at := IndexedIn(db);
    if h :| 0 <= h && at(h) {
      var first := FirstBounds(db, top, h);
      forall k | 0 <= k && at(k) ensures first <= k {
        var same := FirstBounds(db, top, k);
      }
      LeastOf(at, first, BackwardStart(db, top));
    }
  }

  lemma ForwardBegins(db: Db)
    requires IndexDb(db)
    ensures UpFrom(IndexedIn(db), ForwardStart(db))
  {
    var at := IndexedIn(db);
    if h :| 0 <= h && at(h) {
      var last := LastBounds(db, h);
      forall k | 0 <= k && at(k) ensures k <= last {
        var same := LastBounds(db, k);
      }
      GreatestOf(at, last, ForwardStart(db));
    }
  }

  lemma IndexAddsOne(db: Db, chain: Chain, i: int)
    requires ValidChain(chain)
    ensures forall h :: IndexedIn(IndexAt(db, chain, i))(h) <==> IndexedIn(db)(h) || (h == i && WithRecords(chain)(i))
  {
    forall h ensures IndexedIn(IndexAt(db, chain, i))(h) <==> IndexedIn(db)(h) || (h == i && WithRecords(chain)(i)) {
      IndexAddsAt(db, chain, i, h);
    }
  }

  lemma IndexAddsAt(db: Db, chain: Chain, i: int, h: int)
    requires ValidChain(chain)
    ensures IndexedIn(IndexAt(db, chain, i))(h) <==> IndexedIn(db)(h) || (h == i && WithRecords(chain)(i))
  {
    if HasBlock(chain, i) {
      IndexAtTraces(db, chain, i, h);
    }
  }

  lemma StepDown(db: Db, chain: Chain, i: int)
    requires ValidChain(chain) && HasBlock(chain, i) && PastDown(IndexedIn(db), WithRecords(chain), i)
    ensures PastDown(IndexedIn(IndexAt(db, chain, i)), WithRecords(chain), i - 1)
  {
    IndexAddsOne(db, chain, i);
  }

  lemma StepUp(db: Db, chain: Chain, i: int)
    requires ValidChain(chain) && HasBlock(chain, i) && PastUp(IndexedIn(db), WithRecords(chain), i)
    ensures PastUp(IndexedIn(IndexAt(db, chain, i)), WithRecords(chain), i + 1)
  {
    IndexAddsOne(db, chain, i);
  }

  // ---------- Blocks handed over by the service ----------

  /** The database after the service handed over some heights; where indexing failed it went on. */
  ghost function Handed(db: Db, chain: Chain, heights: seq<int>, fails: int -> bool): Db {
    Blocks(chain).Handed(db, heights, fails)
  }

  lemma {:induction false} HandedTraces(db: Db, chain: Chain, heights: seq<int>, fails: int -> bool, h: int)
    requires ValidChain(chain)
    ensures IndexedIn(Handed(db, chain, heights, fails))(h) <==>
            IndexedIn(db)(h) || (h in heights && !fails(h) && WithRecords(chain)(h))
    decreases |heights|
  {
    if heights != [] {
      var front, last := heights[..|heights| - 1], heights[|heights| - 1];
      assert heights == front + [last];
      HandedTraces(db, chain, front, fails, h);
      IndexAddsAt(Handed(db, chain, front, fails), chain, last, h);
    }
  }

  lemma {:induction false} HandedKeepsIndexDb(db: Db, chain: Chain, heights: seq<int>, fails: int -> bool)
    requires ValidChain(chain) && IndexDb(db)
    ensures IndexDb(Handed(db, chain, heights, fails))
    decreases |heights|
  {
    if heights != [] {
      HandedKeepsIndexDb(db, chain, heights[..|heights| - 1], fails);
      IndexAtKeeps(Handed(db, chain, heights[..|heights| - 1], fails), chain, heights[|heights| - 1]);
    }
  }

  /** The `n` heights after `start`. */
  function HeightsAfter(start: int, n: nat): seq<int> {
    seq(n, j => start + 1 + j)
  }

  lemma HeightsAfterAre(start: int, n: nat, h: int)
    ensures h in HeightsAfter(start, n) <==> start < h <= start + n
  {
    if start < h <= start + n {
      assert HeightsAfter(start, n)[h - start - 1] == h;
    }
  }

  /** What an index has when blocks after `start`, up to `last`, were handed over. */
  ghost predicate HandedOver(at: Heights, after: Heights, wanted: Heights, fails: int -> bool, start: int, last: int) {
    forall h :: after(h) <==> at(h) || (start < h <= last && !fails(h) && wanted(h))
  }

  lemma HandedAfter(db: Db, chain: Chain, start: int, n: nat, fails: int -> bool)
    requires ValidChain(chain)
    ensures HandedOver(IndexedIn(db), IndexedIn(Handed(db, chain, HeightsAfter(start, n), fails)), WithRecords(chain),
                       fails, start, start + n)
  {
    var heights := HeightsAfter(start, n);
    forall h ensures IndexedIn(Handed(db, chain, heights, fails))(h) <==>
                     IndexedIn(db)(h) || (start < h <= start + n && !fails(h) && WithRecords(chain)(h))
    {
      HandedTraces(db, chain, heights, fails, h);
      HeightsAfterAre(start, n, h);
    }
  }

  /** Where a service starts: at the last indexed block, or at the latest one if there is none. */
  ghost function ServiceStart(db: Db, latest: int): int {
    match LoadLastBlock(db)
    case Height(h) => if h == -1 then latest else h
    case BadKeyLength => latest
  }

  /** Nothing is indexed yet, or `start` is the last indexed height. */
  ghost predicate Starts(at: Heights, start: int) {
    (Nothing(at) && 0 <= start) || Greatest(at, start)
  }

  lemma ServiceBegins(db: Db, latest: int)
    requires IndexDb(db) && 0 <= latest
    ensures Starts(IndexedIn(db), ServiceStart(db, latest))
  {
    var at := IndexedIn(db);
    if h :| 0 <= h && at(h) {
      var last := ResumesFrom(db, latest, h);
      forall k | 0 <= k && at(k) ensures k <= last {
        var same := ResumesFrom(db, latest, k);
      }
      IsGreatest(at, last);
    } else {
      NothingIndexed(db, latest);
    }
  }

  lemma IsGreatest(at: Heights, last: int)
    requires 0 <= last && at(last) && forall h :: 0 <= h && at(h) ==> h <= last
    ensures Starts(at, last)
  {
  }

  lemma ResumesFrom(db: Db, latest: int, h: int) returns (last: int)
    requires IndexDb(db) && 0 <= h && IndexedIn(db)(h)
    ensures ServiceStart(db, latest) == last && h <= last && IndexedIn(db)(last)
  {
    last := LastIs(db, h);
  }

  lemma NothingIndexed(db: Db, latest: int)
    requires IndexDb(db) && Nothing(IndexedIn(db))
    ensures LoadLastBlock(db) == Height(-1) && ServiceStart(db, latest) == latest
  {
    forall h: int64 | 0 <= h ensures !HasTx(db, h) {
      assert !IndexedIn(db)(h as int);
    }
    NothingLoaded(db);
  }

  lemma NothingLoaded(db: Db)
    requires IndexDb(db) && forall h: int64 :: 0 <= h ==> !HasTx(db, h)
    ensures LoadLastBlock(db) == Height(-1)
  {
    LastBlockIsGreatest(db);
  }

  /** Some block was indexed after one with records on which indexing failed. */
  ghost predicate WentOn(wanted: Heights, fails: int -> bool, start: int, last: int) {
    exists h, b :: start < h < b <= last && wanted(h) && fails(h) && wanted(b) && !fails(b)
  }

  /** A block with records on which indexing failed has indexed ones before and after it. */
  ghost predicate WentRound(wanted: Heights, fails: int -> bool, start: int, last: int) {
    exists a, h, b :: start < a < h < b <= last &&
      Indexes(wanted, fails, a) && wanted(h) && fails(h) && Indexes(wanted, fails, b)
  }

  ghost predicate Indexes(wanted: Heights, fails: int -> bool, h: int) {
    wanted(h) && !fails(h)
  }

  /** What of it makes a gap depends on whether there was an indexed block to start after. */
  ghost predicate MakesGap(at: Heights, wanted: Heights, fails: int -> bool, start: int, last: int) {
    if Nothing(at) then WentRound(wanted, fails, start, last) else WentOn(wanted, fails, start, last)
  }

  lemma GapsByFailure(at: Heights, after: Heights, wanted: Heights, fails: int -> bool, start: int, last: int)
    requires Starts(at, start) && HandedOver(at, after, wanted, fails, start, last)
    ensures Gapless(after, wanted) <==> Gapless(at, wanted) && !MakesGap(at, wanted, fails, start, last)
  {
    if Nothing(at) {
      GapsOnEmpty(at, after, wanted, fails, start, last);
    } else {
      GapsOnResume(at, after, wanted, fails, start, last);
    }
  }

  lemma GapsOnResume(at: Heights, after: Heights, wanted: Heights, fails: int -> bool, start: int, last: int)
    requires Greatest(at, start) && HandedOver(at, after, wanted, fails, start, last)
    ensures Gapless(after, wanted) <==> Gapless(at, wanted) && !WentOn(wanted, fails, start, last)
  {
    if a, h, b :| at(a) && 0 <= a < h < b && wanted(h) && at(b) && !at(h) {
      assert after(a) && after(b) && !after(h);
    } else if h, b :| start < h < b <= last && wanted(h) && fails(h) && wanted(b) && !fails(b) {
      assert after(start) && after(b) && !after(h);
    }
  }

  lemma GapsOnEmpty(at: Heights, after: Heights, wanted: Heights, fails: int -> bool, start: int, last: int)
    requires Nothing(at) && 0 <= start && HandedOver(at, after, wanted, fails, start, last)
    ensures Gapless(after, wanted) <==> !WentRound(wanted, fails, start, last)
  {
    if WentRound(wanted, fails, start, last) {
      var a, h, b :| start < a < h < b <= last &&
        Indexes(wanted, fails, a) && wanted(h) && fails(h) && Indexes(wanted, fails, b);
      assert after(a) && after(b) && !after(h);
    } else {
      forall a, h, b | after(a) && 0 <= a < h < b && wanted(h) && after(b) ensures after(h) {
        assert Indexes(wanted, fails, a) && Indexes(wanted, fails, b);
      }
    }
  }

  // ---------- Runs of the command and of the service ----------

  /**
   A run of the command, cut after some number of blocks, or of the service, which handed over some number
   of blocks after its start. The chain's height may differ each time.
   */
  datatype IndexRun =
    | BackwardRun(top: int64, blocks: nat)
    | ForwardRun(top: int64, blocks: nat)
    | ServiceRun(latest: nat, blocks: nat, fails: int -> bool)

  ghost function AfterRun(db: Db, chain: Chain, r: IndexRun): Db {
    match r
    case BackwardRun(top, n) => BackwardSweep(chain, top).Cut(db, n)
    case ForwardRun(top, n) => ForwardSweep(chain, top).Cut(db, n)
    case ServiceRun(latest, n, fails) => Handed(db, chain, HeightsAfter(ServiceStart(db, latest), n), fails)
  }

  ghost function AfterRuns(db: Db, chain: Chain, runs: seq<IndexRun>): Db
    decreases |runs|
  {
    if runs == [] then db else AfterRun(AfterRuns(db, chain, runs[..|runs| - 1]), chain, runs[|runs| - 1])
  }

  /** `p` survives a block of a backward run. */
  ghost predicate Downward(chain: Chain, p: (Db, int) -> bool) {
    forall d: Db, i: int {:trigger IndexAt(d, chain, i)} ::
      IndexDb(d) && HasBlock(chain, i) && p(d, i) ==> p(IndexAt(d, chain, i), i - 1)
  }

  /** `p` survives a block of a forward run. */
  ghost predicate Upward(chain: Chain, p: (Db, int) -> bool) {
    forall d: Db, i: int {:trigger IndexAt(d, chain, i)} ::
      IndexDb(d) && HasBlock(chain, i) && p(d, i) ==> p(IndexAt(d, chain, i), i + 1)
  }

  /** What holds at the start of a backward run and survives every block holds where the run ends. */
  lemma BackwardInvariant(db: Db, chain: Chain, top: int64, n: nat, p: (Db, int) -> bool) returns (i: int)
    requires ValidChain(chain) && IndexDb(db) && p(db, BackwardStart(db, top))
    requires Downward(chain, p)
    ensures IndexDb(AfterRun(db, chain, BackwardRun(top, n))) && p(AfterRun(db, chain, BackwardRun(top, n)), i)
  {
    BackwardLawful(chain, top);
    DownwardSweep(chain, top, p);
    i := BackwardSweep(chain, top).DownInvariant(db, BackwardStart(db, top), n, p);
  }

  lemma UpwardSweep(chain: Chain, p: (Db, int) -> bool)
    requires Upward(chain, p)
    ensures Blocks(chain).SurvivesUp(p)
  {
  }

  lemma DownwardSweep(chain: Chain, top: int64, p: (Db, int) -> bool)
    requires Downward(chain, p)
    ensures BackwardSweep(chain, top).Survives(p)
  {
  }

  lemma ForwardInvariant(db: Db, chain: Chain, top: int64, n: nat, p: (Db, int) -> bool) returns (i: int)
    requires ValidChain(chain) && IndexDb(db) && p(db, ForwardStart(db))
    requires Upward(chain, p)
    ensures IndexDb(AfterRun(db, chain, ForwardRun(top, n))) && p(AfterRun(db, chain, ForwardRun(top, n)), i)
  {
    ForwardLawful(chain, top);
    UpwardSweep(chain, p);
    Blocks(chain).UpSurvives(top, ForwardStart, p);
    var sw := ForwardSweep(chain, top);
    var k := sw.DownInvariant(db, sw.start(db), n, FromTop(top, p));
    i := top + 1 - k;
  }

  // ---------- No run makes a gap ----------

  ghost function GoingDown(chain: Chain): (Db, int) -> bool {
    (d: Db, i: int) => PastDown(IndexedIn(d), WithRecords(chain), i)
  }

  ghost function GoingUp(chain: Chain): (Db, int) -> bool {
    (d: Db, i: int) => PastUp(IndexedIn(d), WithRecords(chain), i)
  }

  lemma GoesDown(chain: Chain)
    requires ValidChain(chain)
    ensures Downward(chain, GoingDown(chain))
  {
    var p := GoingDown(chain);
    forall d: Db, i: int {:trigger IndexAt(d, chain, i)} | IndexDb(d) && HasBlock(chain, i) && p(d, i)
      ensures p(IndexAt(d, chain, i), i - 1)
    {
      StepDown(d, chain, i);
    }
  }

  lemma GoesUp(chain: Chain)
    requires ValidChain(chain)
    ensures Upward(chain, GoingUp(chain))
  {
    var p := GoingUp(chain);
    forall d: Db, i: int {:trigger IndexAt(d, chain, i)} | IndexDb(d) && HasBlock(chain, i) && p(d, i)
      ensures p(IndexAt(d, chain, i), i + 1)
    {
      StepUp(d, chain, i);
    }
  }

  lemma BackwardMakesNone(db: Db, chain: Chain, top: int64, n: nat)
    requires ValidChain(chain) && IndexDb(db) && NoGaps(db, chain)
    ensures var after := AfterRun(db, chain, BackwardRun(top, n)); IndexDb(after) && NoGaps(after, chain)
  {
    StartDown(db, chain, top);
    GoesDown(chain);
    var i := BackwardInvariant(db, chain, top, n, GoingDown(chain));
    EndDown(IndexedIn(AfterRun(db, chain, BackwardRun(top, n))), WithRecords(chain), i);
  }

  lemma StartDown(db: Db, chain: Chain, top: int64)
    requires IndexDb(db) && NoGaps(db, chain)
    ensures GoingDown(chain)(db, BackwardStart(db, top))
  {
    BackwardBegins(db, top);
    StartDownAt(db, chain, BackwardStart(db, top));
  }

  lemma StartDownAt(db: Db, chain: Chain, i: int)
    requires NoGaps(db, chain) && DownFrom(IndexedIn(db), i)
    ensures GoingDown(chain)(db, i)
  {
    BeginDown(IndexedIn(db), WithRecords(chain), i);
  }

  lemma StartUpAt(db: Db, chain: Chain, i: int)
    requires NoGaps(db, chain) && UpFrom(IndexedIn(db), i)
    ensures GoingUp(chain)(db, i)
  {
    BeginUp(IndexedIn(db), WithRecords(chain), i);
  }

  lemma StartUp(db: Db, chain: Chain)
    requires IndexDb(db) && NoGaps(db, chain)
    ensures GoingUp(chain)(db, ForwardStart(db))
  {
    ForwardBegins(db);
    StartUpAt(db, chain, ForwardStart(db));
  }

  lemma ForwardMakesNone(db: Db, chain: Chain, top: int64, n: nat)
    requires ValidChain(chain) && IndexDb(db) && NoGaps(db, chain)
    ensures var after := AfterRun(db, chain, ForwardRun(top, n)); IndexDb(after) && NoGaps(after, chain)
  {
    StartUp(db, chain);
    GoesUp(chain);
    var i := ForwardInvariant(db, chain, top, n, GoingUp(chain));
    EndUp(IndexedIn(AfterRun(db, chain, ForwardRun(top, n))), WithRecords(chain), i);
  }

  // ---------- No run fills a gap ----------

  /** `h` is not indexed, although there are indexed heights on both sides. */
  ghost predicate Missed(at: Heights, a: int, h: int, b: int) {
    0 <= a < h < b && at(a) && at(b) && !at(h)
  }

  lemma StepOutside(db: Db, chain: Chain, i: int, a: int, h: int, b: int)
    requires ValidChain(chain) && HasBlock(chain, i) && Missed(IndexedIn(db), a, h, b) && i != h
    ensures Missed(IndexedIn(IndexAt(db, chain, i)), a, h, b)
  {
    IndexAddsOne(db, chain, i);
  }

  lemma BackwardFillsNone(db: Db, chain: Chain, top: int64, n: nat, a: int, h: int, b: int)
    requires ValidChain(chain) && IndexDb(db) && Missed(IndexedIn(db), a, h, b)
    ensures var after := AfterRun(db, chain, BackwardRun(top, n)); IndexDb(after) && Missed(IndexedIn(after), a, h, b)
  {
    var p := (d: Db, i: int) => i < h && Missed(IndexedIn(d), a, h, b);
    var first := FirstBounds(db, top, a);
    forall d: Db, i: int | IndexDb(d) && HasBlock(chain, i) && p(d, i) ensures p(IndexAt(d, chain, i), i - 1) {
      StepOutside(d, chain, i, a, h, b);
    }
    var i := BackwardInvariant(db, chain, top, n, p);
  }

  lemma ForwardFillsNone(db: Db, chain: Chain, top: int64, n: nat, a: int, h: int, b: int)
    requires ValidChain(chain) && IndexDb(db) && Missed(IndexedIn(db), a, h, b)
    ensures var after := AfterRun(db, chain, ForwardRun(top, n)); IndexDb(after) && Missed(IndexedIn(after), a, h, b)
  {
    var p := (d: Db, i: int) => h < i && Missed(IndexedIn(d), a, h, b);
    var last := LastBounds(db, b);
    forall d: Db, i: int | IndexDb(d) && HasBlock(chain, i) && p(d, i) ensures p(IndexAt(d, chain, i), i + 1) {
      StepOutside(d, chain, i, a, h, b);
    }
    var i := ForwardInvariant(db, chain, top, n, p);
  }

  lemma ServiceRuns(db: Db, chain: Chain, latest: nat, n: nat, fails: int -> bool) returns (start: int, after: Db)
    requires ValidChain(chain) && IndexDb(db)
    ensures start == ServiceStart(db, latest) && after == AfterRun(db, chain, ServiceRun(latest, n, fails))
    ensures Starts(IndexedIn(db), start) && IndexDb(after)
    ensures HandedOver(IndexedIn(db), IndexedIn(after), WithRecords(chain), fails, start, start + n)
  {
    start := ServiceStart(db, latest);
    after := Handed(db, chain, HeightsAfter(start, n), fails);
    ServiceBegins(db, latest);
    HandedAfter(db, chain, start, n, fails);
    HandedKeepsIndexDb(db, chain, HeightsAfter(start, n), fails);
  }

  lemma ServiceFillsNone(db: Db, chain: Chain, latest: nat, n: nat, fails: int -> bool, a: int, h: int, b: int)
    requires ValidChain(chain) && IndexDb(db) && Missed(IndexedIn(db), a, h, b)
    ensures var after := AfterRun(db, chain, ServiceRun(latest, n, fails));
      IndexDb(after) && Missed(IndexedIn(after), a, h, b)
  {
    var start, after := ServiceRuns(db, chain, latest, n, fails);
    OutOfRange(IndexedIn(db), IndexedIn(after), WithRecords(chain), fails, start, start + n, a, h, b);
  }

  lemma OutOfRange(at: Heights, after: Heights, wanted: Heights, fails: int -> bool, start: int, last: int,
                   a: int, h: int, b: int)
    requires Starts(at, start) && HandedOver(at, after, wanted, fails, start, last) && Missed(at, a, h, b)
    ensures Missed(after, a, h, b)
  {
  }

  // ---------- Over all runs ----------

  /**
   A height missed between two indexed ones is never indexed again, whatever runs follow, of the command in
   either direction or of the service, with or without failures.
   */
  lemma {:induction false} MissedForGood(db: Db, chain: Chain, runs: seq<IndexRun>, a: int, h: int, b: int)
    requires ValidChain(chain) && IndexDb(db) && Missed(IndexedIn(db), a, h, b)
    ensures IndexDb(AfterRuns(db, chain, runs)) && Missed(IndexedIn(AfterRuns(db, chain, runs)), a, h, b)
    decreases |runs|
  {
    if runs != [] {
      MissedForGood(db, chain, runs[..|runs| - 1], a, h, b);
      RunFillsNone(AfterRuns(db, chain, runs[..|runs| - 1]), chain, runs[|runs| - 1], a, h, b);
    }
  }

  lemma RunFillsNone(db: Db, chain: Chain, r: IndexRun, a: int, h: int, b: int)
    requires ValidChain(chain) && IndexDb(db) && Missed(IndexedIn(db), a, h, b)
    ensures IndexDb(AfterRun(db, chain, r)) && Missed(IndexedIn(AfterRun(db, chain, r)), a, h, b)
  {
    match r {
      case BackwardRun(top, n) => BackwardFillsNone(db, chain, top, n, a, h, b);
      case ForwardRun(top, n) => ForwardFillsNone(db, chain, top, n, a, h, b);
      case ServiceRun(latest, n, fails) => ServiceFillsNone(db, chain, latest, n, fails, a, h, b);
    }
  }

  /** The run is one of the service, and makes a gap on this index. */
  ghost predicate MakesGapOn(db: Db, chain: Chain, r: IndexRun) {
    r.ServiceRun? &&
    var start := ServiceStart(db, r.latest);
    MakesGap(IndexedIn(db), WithRecords(chain), r.fails, start, start + r.blocks)
  }

  lemma RunGaps(db: Db, chain: Chain, r: IndexRun)
    requires ValidChain(chain) && IndexDb(db)
    ensures IndexDb(AfterRun(db, chain, r))
    ensures NoGaps(AfterRun(db, chain, r), chain) <==> NoGaps(db, chain) && !MakesGapOn(db, chain, r)
  {
    match r {
      case BackwardRun(top, n) => CommandGaps(db, chain, r);
      case ForwardRun(top, n) => CommandGaps(db, chain, r);
      case ServiceRun(latest, n, fails) => ServiceRunGaps(db, chain, latest, n, fails);
    }
  }

  lemma CommandGaps(db: Db, chain: Chain, r: IndexRun)
    requires ValidChain(chain) && IndexDb(db) && !r.ServiceRun?
    ensures IndexDb(AfterRun(db, chain, r)) && (NoGaps(AfterRun(db, chain, r), chain) <==> NoGaps(db, chain))
  {
    if NoGaps(db, chain) {
      match r {
        case BackwardRun(top, n) => BackwardMakesNone(db, chain, top, n);
        case ForwardRun(top, n) => ForwardMakesNone(db, chain, top, n);
      }
    } else {
      var at, wanted := IndexedIn(db), WithRecords(chain);
      var a, h, b :| at(a) && 0 <= a < h < b && wanted(h) && at(b) && !at(h);
      RunFillsNone(db, chain, r, a, h, b);
    }
  }

  lemma ServiceRunGaps(db: Db, chain: Chain, latest: nat, n: nat, fails: int -> bool)
    requires ValidChain(chain) && IndexDb(db)
    ensures var r := ServiceRun(latest, n, fails);
      && IndexDb(AfterRun(db, chain, r))
      && (NoGaps(AfterRun(db, chain, r), chain) <==> NoGaps(db, chain) && !MakesGapOn(db, chain, r))
  {
    var start, after := ServiceRuns(db, chain, latest, n, fails);
    GapsByFailure(IndexedIn(db), IndexedIn(after), WithRecords(chain), fails, start, start + n);
  }

  /** None of the runs makes a gap on the index that it finds. */
  ghost predicate NoneMakesGap(db: Db, chain: Chain, runs: seq<IndexRun>)
    decreases |runs|
  {
    runs == [] ||
    var front, last := runs[..|runs| - 1], runs[|runs| - 1];
    NoneMakesGap(db, chain, front) && !MakesGapOn(AfterRuns(db, chain, front), chain, last)
  }

  /**
   After any sequence of runs of the command, in either direction and each cut anywhere, and of the
   service, there are no gaps if and only if there were none before and none of the services made one.
   */
  lemma {:induction false} GapsExactly(db: Db, chain: Chain, runs: seq<IndexRun>)
    requires ValidChain(chain) && IndexDb(db)
    ensures IndexDb(AfterRuns(db, chain, runs))
    ensures NoGaps(AfterRuns(db, chain, runs), chain) <==> NoGaps(db, chain) && NoneMakesGap(db, chain, runs)
    decreases |runs|
  {
    if runs != [] {
      var front, last := runs[..|runs| - 1], runs[|runs| - 1];
      GapsExactly(db, chain, front);
      RunGaps(AfterRuns(db, chain, front), chain, last);
    }
  }

  /** In particular, runs of the command neither make nor fill gaps. */
  lemma GapsNeitherMadeNorFilled(db: Db, chain: Chain, runs: seq<IndexRun>)
    requires ValidChain(chain) && IndexDb(db) && CommandOnly(runs)
    ensures NoGaps(AfterRuns(db, chain, runs), chain) <==> NoGaps(db, chain)
  {
    GapsExactly(db, chain, runs);
    CommandMakesNone(db, chain, runs);
  }

  ghost predicate CommandOnly(runs: seq<IndexRun>) {
    forall r :: r in runs ==> !r.ServiceRun?
  }

  lemma {:induction false} CommandMakesNone(db: Db, chain: Chain, runs: seq<IndexRun>)
    requires CommandOnly(runs)
    ensures NoneMakesGap(db, chain, runs)
    decreases |runs|
  {
    if runs != [] {
      assert runs[|runs| - 1] in runs;
      CommandMakesNone(db, chain, runs[..|runs| - 1]);
    }
  }

  // ---------- The service ----------

  /**
   In every state of every interleaving, the indexed heights are those of the start and the blocks with
   records that the service passed, without those on which indexing failed.
   */
  lemma ServiceIndexes(latest: int, events: seq<Service.Event>, s: Service.State, db: Db, chain: Chain,
                       fails: int -> bool)
    requires Service.Run(latest, events) == Service.Reached(s) && ValidChain(chain)
    ensures HandedOver(IndexedIn(db), IndexedIn(Handed(db, chain, s.indexed, fails)), WithRecords(chain), fails,
                       s.start, s.lastBlock)
  {
    InOrder(latest, events, s);
    HandedAfter(db, chain, s.start, |s.indexed|, fails);
  }

  lemma InOrder(latest: int, events: seq<Service.Event>, s: Service.State)
    requires Service.Run(latest, events) == Service.Reached(s)
    ensures s.indexed == HeightsAfter(s.start, |s.indexed|) && s.start + |s.indexed| == s.lastBlock
  {
    Service.HeightsInOrder(latest, events, s);
  }

  /** What the service reads at its start is the last block of the index. */
  ghost predicate Reads(events: seq<Service.Event>, db: Db) {
    LoadLastBlock(db).Height? && Service.ReadsLast(events, LoadLastBlock(db).h)
  }

  /** Hence it starts at the last indexed block, or at one it knew of on an empty index. */
  lemma ServiceStartsAt(latest: int, events: seq<Service.Event>, s: Service.State, db: Db)
    requires Service.Run(latest, events) == Service.Reached(s) && !s.loop.Starting? && 0 <= latest
    requires IndexDb(db) && Reads(events, db)
    ensures 0 <= s.start == ServiceStart(db, s.start) && Starts(IndexedIn(db), s.start)
  {
    var last := LoadLastBlock(db).h;
    var k := Service.StartsAfter(latest, events, s, last);
    Service.MaxAtLeast(latest, s.headers[..k]);
    LastIsHeight(db);
    ServiceBegins(db, s.start);
  }

  lemma LastIsHeight(db: Db)
    requires IndexDb(db)
    ensures LoadLastBlock(db).Height? && -1 <= LoadLastBlock(db).h
  {
    LastBlockIsGreatest(db);
  }

  /** Every reachable state of a service that has started is such a run of the service. */
  lemma ServiceIsRun(latest: int, events: seq<Service.Event>, s: Service.State, db: Db, chain: Chain,
                     fails: int -> bool)
    requires Service.Run(latest, events) == Service.Reached(s) && !s.loop.Starting? && 0 <= latest
    requires IndexDb(db) && Reads(events, db)
    ensures 0 <= s.start &&
      Handed(db, chain, s.indexed, fails) == AfterRun(db, chain, ServiceRun(s.start, |s.indexed|, fails))
  {
    ServiceStartsAt(latest, events, s, db);
    InOrder(latest, events, s);
  }

  /**
   A service leaves the index without gaps if and only if there were none before, and it indexed no block
   after one with records on which indexing had failed or, where it was started on an empty index, none on
   both sides of such a block.
   */
  lemma ServiceGaps(latest: int, events: seq<Service.Event>, s: Service.State, db: Db, chain: Chain, fails: int -> bool)
    requires Service.Run(latest, events) == Service.Reached(s) && 0 <= latest
    requires ValidChain(chain) && IndexDb(db) && Reads(events, db)
    ensures NoGaps(Handed(db, chain, s.indexed, fails), chain) <==>
            NoGaps(db, chain) && !MakesGap(IndexedIn(db), WithRecords(chain), fails, s.start, s.lastBlock)
  {
    if s.loop.Starting? {
      Service.NotStarted(latest, events, s);
    } else {
      ServiceStartsAt(latest, events, s, db);
      StartedGaps(latest, events, s, db, chain, fails);
    }
  }

  lemma StartedGaps(latest: int, events: seq<Service.Event>, s: Service.State, db: Db, chain: Chain, fails: int -> bool)
    requires Service.Run(latest, events) == Service.Reached(s) && ValidChain(chain) && Starts(IndexedIn(db), s.start)
    ensures NoGaps(Handed(db, chain, s.indexed, fails), chain) <==>
            NoGaps(db, chain) && !MakesGap(IndexedIn(db), WithRecords(chain), fails, s.start, s.lastBlock)
  {
    ServiceIndexes(latest, events, s, db, chain, fails);
    GapsByFailure(IndexedIn(db), IndexedIn(Handed(db, chain, s.indexed, fails)), WithRecords(chain), fails,
                  s.start, s.lastBlock);
  }

  /**
   Such a service exists wherever the next two blocks have records: if indexing the first of them fails
   and the second succeeds, a resumed service leaves a gap, and no later run of any kind fills it.
   */
  lemma ServiceLeavesGap(db: Db, chain: Chain, start: int, runs: seq<IndexRun>)
    returns (events: seq<Service.Event>, s: Service.State, fails: int -> bool)
    requires ValidChain(chain) && IndexDb(db) && Greatest(IndexedIn(db), start)
    requires WithRecords(chain)(start + 1) && WithRecords(chain)(start + 2)
    ensures Service.Run(start + 2, events) == Service.Reached(s) && s.start == start && Reads(events, db)
    ensures !NoGaps(Handed(db, chain, s.indexed, fails), chain)
    ensures !NoGaps(AfterRuns(Handed(db, chain, s.indexed, fails), chain, runs), chain)
  {
    events, s := Service.TwoBlocks(start);
    fails := h => h == start + 1;
    WentOnAt(WithRecords(chain), fails, start);
    ReadsGreatest(db, start);
    StartedGaps(start + 2, events, s, db, chain, fails);
    HandedKeepsIndexDb(db, chain, s.indexed, fails);
    GapsExactly(Handed(db, chain, s.indexed, fails), chain, runs);
  }

  lemma ReadsGreatest(db: Db, last: int)
    requires IndexDb(db) && Greatest(IndexedIn(db), last)
    ensures InInt64(last) && LoadLastBlock(db) == Height(last)
  {
    var same := LastIs(db, last);
    GreatestOnly(IndexedIn(db), last, same);
  }

  lemma GreatestOnly(at: Heights, last: int, same: int)
    requires Greatest(at, last) && last <= same && at(same)
    ensures same == last
  {
  }

  lemma WentOnAt(wanted: Heights, fails: int -> bool, start: int)
    requires wanted(start + 1) && fails(start + 1) && wanted(start + 2) && !fails(start + 2)
    ensures WentOn(wanted, fails, start, start + 2)
  {
  }

  /**
   On an empty index the same failures leave no gap: the failed block is the first one below the indexed
   ones, and the next backward run begins with it.
   */
  lemma FirstStartRecovers(db: Db, chain: Chain, start: int, top: int64)
    returns (events: seq<Service.Event>, s: Service.State, fails: int -> bool)
    requires ValidChain(chain) && IndexDb(db) && Nothing(IndexedIn(db)) && 0 <= start
    requires WithRecords(chain)(start + 1) && WithRecords(chain)(start + 2)
    ensures Service.Run(start, events) == Service.Reached(s) && s.start == start && Reads(events, db)
    ensures WentOn(WithRecords(chain), fails, s.start, s.lastBlock)
    ensures var after := Handed(db, chain, s.indexed, fails);
      && NoGaps(after, chain) && !IndexedIn(after)(start + 1)
      && IndexedIn(AfterRun(after, chain, BackwardRun(top, 1)))(start + 1)
  {
    events, s := Service.TwoBlocksFirst(start);
    fails := h => h == start + 1;
    var after := Handed(db, chain, s.indexed, fails);
    WentOnAt(WithRecords(chain), fails, start);
    ServiceIndexes(start, events, s, db, chain, fails);
    StartedGaps(start, events, s, db, chain, fails);
    NothingIndexed(db, start);
    HandedKeepsIndexDb(db, chain, s.indexed, fails);
    OnlyTheSecond(IndexedIn(db), IndexedIn(after), WithRecords(chain), fails, start);
    TakesNextBelow(after, chain, top, start + 2, start + 1);
  }

  lemma OnlyTheSecond(at: Heights, after: Heights, wanted: Heights, fails: int -> bool, start: int)
    requires Nothing(at) && 0 <= start && HandedOver(at, after, wanted, fails, start, start + 2)
    requires wanted(start + 2) && fails(start + 1) && !fails(start + 2)
    ensures Least(after, start + 2) && !after(start + 1) && !WentRound(wanted, fails, start, start + 2)
  {
  }

  /** A backward run begins with the block below the first indexed one. */
  lemma TakesNextBelow(db: Db, chain: Chain, top: int64, first: int, i: int)
    requires ValidChain(chain) && IndexDb(db) && Least(IndexedIn(db), first)
    requires i == first - 1 && 0 < i && WithRecords(chain)(i)
    ensures IndexedIn(AfterRun(db, chain, BackwardRun(top, 1)))(i)
  {
    var same := FirstBounds(db, top, first);
    assert same == first;
    OneStepDown(db, chain, top, i);
    IndexAddsOne(db, chain, i);
  }

  lemma OneStepDown(db: Db, chain: Chain, top: int64, i: int)
    requires BackwardStart(db, top) == i && 0 < i && HasBlock(chain, i)
    ensures AfterRun(db, chain, BackwardRun(top, 1)) == IndexAt(db, chain, i)
  {
    var sw := BackwardSweep(chain, top);
    assert sw.Down(db, i, 1) == sw.Down(sw.step(db, i), i - 1, 0);
  }

  // ---------- The service and the command agree ----------

  lemma ServiceIsDown(latest: int, events: seq<Service.Event>, s: Service.State, db: Db, chain: Chain, n: nat)
    requires Service.Run(latest, events) == Service.Reached(s) && InInt64(s.lastBlock) && n == s.lastBlock - s.start
    requires Blocks(chain).AllPresent(s.start + 1, s.lastBlock)
    ensures Handed(db, chain, s.indexed, Never()) == ForwardSweep(chain, s.lastBlock).Down(db, n, n)
  {
    Service.HeightsInOrder(latest, events, s);
    Blocks(chain).HandedUp(s.lastBlock, ForwardStart, db, s.start, s.indexed, n);
  }

  /**
   A service that resumed from the last indexed block has at every moment, without failures, the
   database that a full forward run of the command up to the same block would have left.
   */
  lemma ServiceIsForward(latest: int, events: seq<Service.Event>, s: Service.State, db: Db, chain: Chain)
    requires Service.Run(latest, events) == Service.Reached(s) && InInt64(s.lastBlock)
    requires s.start == ForwardStart(db) - 1 && forall h :: s.start < h <= s.lastBlock ==> HasBlock(chain, h)
    ensures Handed(db, chain, s.indexed, Never()) == ForwardSweep(chain, s.lastBlock).Full(db)
  {
    Service.HeightsInOrder(latest, events, s);
    BlocksThere(chain, s.start, s.lastBlock);
    ServiceIsDown(latest, events, s, db, chain, |s.indexed|);
    ForwardFrom(db, chain, s.lastBlock, |s.indexed|, 0);
  }

  lemma BlocksThere(chain: Chain, start: int, last: int)
    requires forall h :: start < h <= last ==> HasBlock(chain, h)
    ensures Blocks(chain).AllPresent(start + 1, last)
  {
  }
}
