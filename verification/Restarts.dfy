/**
 Restarts of the `index-eth-tx` command while the chain grows. Forward runs that were cut anywhere, each
 against the height the chain had by then, end with the database of one run against the last height.
 Backward runs end with the database of one run against the height of the first of them that indexed
 anything: only an empty index lets a backward run look at the chain's height.
 */
module Restarts {
  import opened Machine
  import opened KvKeys
  import opened Sweeps
  import opened Traversal
  import opened Gaps

  // ---------- Forward ----------

  /** Runs against heights that the chain had before it reached `top`. */
  ghost predicate ForwardUpTo(runs: seq<IndexRun>, top: int64) {
    forall r :: r in runs ==> r.ForwardRun? && r.top <= top
  }

  lemma {:induction false} ForwardGrowing(db: Db, chain: Chain, runs: seq<IndexRun>, top: int64)
    requires ValidChain(chain) && IndexDb(db) && ForwardUpTo(runs, top)
    ensures IndexDb(AfterRuns(db, chain, runs))
    ensures ForwardSweep(chain, top).Full(AfterRuns(db, chain, runs)) == ForwardSweep(chain, top).Full(db)
    decreases |runs|
  {
    if runs != [] {
      var front, last := runs[..|runs| - 1], runs[|runs| - 1];
      assert last in runs;
      ForwardGrowing(db, chain, front, top);
      ForwardAgain(AfterRuns(db, chain, front), chain, last.top, last.blocks, top);
    }
  }

  lemma ForwardAgain(db: Db, chain: Chain, lower: int64, n: nat, top: int64)
    requires ValidChain(chain) && IndexDb(db) && lower <= top
    ensures var after := AfterRun(db, chain, ForwardRun(lower, n));
      IndexDb(after) && ForwardSweep(chain, top).Full(after) == ForwardSweep(chain, top).Full(db)
  {
    var m := ShorterCut(db, chain, lower, n, top);
    CutAndFull(ForwardSweep(chain, top), db, m) by {
      ForwardLawful(chain, top);
    }
  }

  lemma ShorterCut(db: Db, chain: Chain, lower: int64, n: nat, top: int64) returns (m: nat)
    requires lower <= top
    ensures ForwardSweep(chain, lower).Cut(db, n) == ForwardSweep(chain, top).Cut(db, m)
  {
    var start := ForwardStart(db);
    var i, j := lower + 1 - start, top + 1 - start;
    m := Blocks(chain).UpShorter(lower, top, ForwardStart, db, i, j, n);
    Blocks(chain).UpFrom(lower, ForwardStart, db, i, n);
    Blocks(chain).UpFrom(top, ForwardStart, db, j, m);
  }

  lemma CutAndFull(sw: Sweep<Db>, db: Db, n: nat)
    requires sw.Lawful() && sw.inv(db)
    ensures sw.inv(sw.Cut(db, n)) && sw.Full(sw.Cut(db, n)) == sw.Full(db)
  {
    sw.DownKeeps(db, sw.start(db), n);
    sw.ResumeAnywhere(db, sw.start(db), n);
  }

  // ---------- Backward ----------

  ghost predicate Backwards(runs: seq<IndexRun>) {
    forall r :: r in runs ==> r.BackwardRun?
  }

  /** The height against which the first run that changed the index was started; `top` if none did. */
  ghost function DecidingTop(db: Db, chain: Chain, runs: seq<IndexRun>, top: int64): int64
    requires Backwards(runs)
    decreases |runs|
  {
    if runs == [] then top
    else
      var front, last := runs[..|runs| - 1], runs[|runs| - 1];
      if AfterRuns(db, chain, front) != db then DecidingTop(db, chain, front, top)
      else if AfterRuns(db, chain, runs) != db then last.top
      else top
  }

  lemma {:induction false} BackwardGrowing(db: Db, chain: Chain, runs: seq<IndexRun>, top: int64)
    requires ValidChain(chain) && IndexDb(db) && Backwards(runs)
    ensures var after := AfterRuns(db, chain, runs);
      && IndexDb(after) && (after == db || !Nothing(IndexedIn(after)))
      && BackwardSweep(chain, top).Full(after) == BackwardSweep(chain, DecidingTop(db, chain, runs, top)).Full(db)
    decreases |runs|
  {
    if runs != [] {
      var front, last := runs[..|runs| - 1], runs[|runs| - 1];
      assert last in runs;
      BackwardGrowing(db, chain, front, top);
      BackwardAgain(AfterRuns(db, chain, front), chain, last.top, last.blocks, top);
    }
  }

  /** A backward run changes nothing, or leaves an index on which the chain's height is irrelevant. */
  lemma BackwardAgain(db: Db, chain: Chain, other: int64, n: nat, top: int64)
    requires ValidChain(chain) && IndexDb(db)
    ensures var after := AfterRun(db, chain, BackwardRun(other, n));
      && IndexDb(after) && (after == db || !Nothing(IndexedIn(after)))
      && (after != db ==> BackwardSweep(chain, top).Full(after) == BackwardSweep(chain, other).Full(db))
      && (!Nothing(IndexedIn(db)) ==> BackwardSweep(chain, top).Full(after) == BackwardSweep(chain, top).Full(db))
  {
    var after := AfterRun(db, chain, BackwardRun(other, n));
    CutAndFull(BackwardSweep(chain, other), db, n) by {
      BackwardLawful(chain, other);
    }
    ChangedOrNot(db, chain, other, n);
    if after != db {
      TopIrrelevant(after, chain, top, other);
    }
    if !Nothing(IndexedIn(db)) {
      TopIrrelevant(db, chain, top, other);
    }
  }

  lemma TopIrrelevant(db: Db, chain: Chain, one: int64, other: int64)
    requires IndexDb(db) && !Nothing(IndexedIn(db))
    ensures BackwardSweep(chain, one).Full(db) == BackwardSweep(chain, other).Full(db)
  {
    var at := IndexedIn(db);
    var h :| 0 <= h && at(h);
    SameStart(db, one, other, h);
    SameSweep(Blocks(chain), StartBelow(one), StartBelow(other), db);
  }

  lemma SameSweep(blocks: Walk<Db>, one: Db -> int, other: Db -> int, db: Db)
    requires one(db) == other(db)
    ensures blocks.Down(one).Full(db) == blocks.Down(other).Full(db)
  {
    blocks.DownAlike(one, other, db, one(db), blocks.Down(one).Steps(one(db)));
  }

  lemma SameStart(db: Db, one: int64, other: int64, h: int)
    requires IndexDb(db) && 0 <= h && IndexedIn(db)(h)
    ensures BackwardStart(db, one) == BackwardStart(db, other)
  {
    var first := FirstIs(db, h);
  }

  /** Every indexed block leaves its trace, so that an index that is still empty is still the same. */
  lemma ChangedOrNot(db: Db, chain: Chain, top: int64, n: nat)
    requires ValidChain(chain) && IndexDb(db)
    ensures var after := AfterRun(db, chain, BackwardRun(top, n)); after == db || !Nothing(IndexedIn(after))
  {
    SameOrIndexedSurvives(db, chain);
    var i := BackwardInvariant(db, chain, top, n, SameOrIndexed(db));
  }

  ghost function SameOrIndexed(db: Db): (Db, int) -> bool {
    (after, i) => after == db || !Nothing(IndexedIn(after))
  }

  lemma SameOrIndexedSurvives(db: Db, chain: Chain)
    requires ValidChain(chain)
    ensures Downward(chain, SameOrIndexed(db))
  {
    forall s: Db, h: int {:trigger IndexAt(s, chain, h)} | IndexDb(s) && HasBlock(chain, h) && SameOrIndexed(db)(s, h)
      ensures SameOrIndexed(db)(IndexAt(s, chain, h), h - 1)
    {
      SameOrIndexedStep(s, chain, h);
    }
  }

  lemma SameOrIndexedStep(db: Db, chain: Chain, h: int)
    requires ValidChain(chain) && IndexDb(db) && HasBlock(chain, h)
    ensures IndexAt(db, chain, h) == db || !Nothing(IndexedIn(IndexAt(db, chain, h)))
  {
    if EmptyAt(chain, h) {
      IndexAtKeeps(db, chain, h);
    } else {
      IndexAddsAt(db, chain, h, h);
      NotNothing(IndexedIn(IndexAt(db, chain, h)), h);
    }
  }

  lemma NotNothing(at: Heights, h: int)
    requires 0 <= h && at(h)
    ensures !Nothing(at)
  {
  }
}
