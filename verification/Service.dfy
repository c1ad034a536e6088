/**
 The indexer service (server/indexer_service.go) as a state machine: the goroutine that follows new
 block headers and the indexing loop share `latestBlock` and a signal channel with one slot, and their
 steps interleave in any order.
 */
module Service {

  /** Where the header goroutine stands. */
  datatype HeaderPc = Receiving | Comparing(height: int) | Notifying

  /** Where the indexing loop stands. */
  datatype LoopPc = Starting | Checking | Waiting | Guarding(i: int) | Fetching(i: int)

  datatype State = State(
    latestBlock: int,
    signal: bool,
    header: HeaderPc,
    loop: LoopPc,
    lastBlock: int,
    start: int,          // the value of `lastBlock` when the loop began
    indexed: seq<int>,   // the heights handed to `IndexBlock` so far
    headers: seq<int>)   // the header heights received so far

  datatype Event =
    | HeaderArrives(height: int)
    | HeaderCompared
    | Notify
    | LoopStarts(lastIndexed: int)
    | Check
    | SignalTaken
    | TimedOut
    | Guard
    | FetchFails
    | BlockIndexed

  function Initial(latest: int): State {
    State(latest, false, Receiving, Starting, -1, -1, [], [])
  }

  predicate Enabled(s: State, e: Event) {
    match e
    case HeaderArrives(_) => s.header.Receiving?
    case HeaderCompared => s.header.Comparing?
    case Notify => s.header.Notifying?
    case LoopStarts(n) => s.loop.Starting? && n >= -1
    case Check => s.loop.Checking?
    case SignalTaken => s.loop.Waiting? && s.signal
    case TimedOut => s.loop.Waiting?
    case Guard => s.loop.Guarding?
    case FetchFails => s.loop.Fetching?
    case BlockIndexed => s.loop.Fetching?
  }

  /** The state after an event. A fetched result is assumed to carry the height that was asked for. */
  function Next(s: State, e: Event): State
    requires Enabled(s, e)
  {
    match e
    case HeaderArrives(h) => s.(header := Comparing(h), headers := s.headers + [h])
    case HeaderCompared =>
      if s.header.height > s.latestBlock
      then s.(latestBlock := s.header.height, header := Notifying)
      else s.(header := Receiving)
    case Notify => s.(signal := true, header := Receiving)
    case LoopStarts(n) =>
      var last := if n == -1 then s.latestBlock else n;
      s.(lastBlock := last, start := last, loop := Checking)
    case Check =>
      if s.latestBlock <= s.lastBlock then s.(loop := Waiting) else s.(loop := Guarding(s.lastBlock + 1))
    case SignalTaken => s.(signal := false, loop := Checking)
    case TimedOut => s.(loop := Checking)
    case Guard =>
      if s.loop.i <= s.latestBlock then s.(loop := Fetching(s.loop.i)) else s.(loop := Checking)
    case FetchFails => s.(loop := Checking)
    case BlockIndexed =>
      s.(indexed := s.indexed + [s.loop.i], lastBlock := s.loop.i, loop := Guarding(s.loop.i + 1))
  }

  datatype Outcome = Reached(state: State) | Impossible

  /** The state in which a sequence of events ends, if each was enabled in its turn. */
  function Run(latest: int, events: seq<Event>): Outcome
    decreases |events|
  {
    if events == [] then Reached(Initial(latest))
    else match Run(latest, events[..|events| - 1])
      case Impossible => Impossible
      case Reached(s) =>
        var e := events[|events| - 1];
        if Enabled(s, e) then Reached(Next(s, e)) else Impossible
  }

  // ---------- Safety ----------

  function MaxOf(a: int, hs: seq<int>): int {
    if hs == [] then a
    else var m := MaxOf(a, hs[..|hs| - 1]); if hs[|hs| - 1] > m then hs[|hs| - 1] else m
  }

  /** The heights that the header goroutine has already compared. */
  function Compared(s: State): seq<int> {
    if s.header.Comparing? && s.headers != [] then s.headers[..|s.headers| - 1] else s.headers
  }

  /** Waiting on a new block means being about to learn of it. */
  ghost predicate NoLostWakeup(s: State) {
    s.loop.Waiting? && s.latestBlock > s.lastBlock ==> s.signal || s.header.Notifying?
  }

  /** The heights indexed are start + 1, start + 2, ..., lastBlock: no gap, no repeat. */
  ghost predicate GapFree(s: State) {
    && |s.indexed| == s.lastBlock - s.start
    && forall j :: 0 <= j < |s.indexed| ==> s.indexed[j] == s.start + 1 + j
  }

  ghost predicate Inv(latest: int, s: State) {
    && NoLostWakeup(s)
    && GapFree(s)
    && (s.loop.Starting? ==> s.indexed == [])
    && (s.header.Comparing? ==> s.headers != [] && s.headers[|s.headers| - 1] == s.header.height)
    && s.latestBlock == MaxOf(latest, Compared(s))
    && (s.indexed != [] ==> s.lastBlock <= s.latestBlock)
    && (s.loop.Guarding? || s.loop.Fetching? ==> s.loop.i == s.lastBlock + 1)
    && (s.loop.Fetching? ==> s.loop.i <= s.latestBlock)
  }

  predicate OfHeaders(e: Event) {
    e.HeaderArrives? || e.HeaderCompared? || e.Notify?
  }

  lemma HeaderKeepsInv(latest: int, s: State, e: Event)
    requires Inv(latest, s) && Enabled(s, e) && OfHeaders(e)
    ensures Inv(latest, Next(s, e))
  {
    match e
    case HeaderArrives(h) => ArrivalKeepsInv(latest, s, h);
    case HeaderCompared => ComparisonKeepsInv(latest, s);
    case Notify => assert Compared(Next(s, e)) == Compared(s);
  }

  lemma ArrivalKeepsInv(latest: int, s: State, h: int)
    requires Inv(latest, s) && s.header.Receiving?
    ensures Inv(latest, Next(s, HeaderArrives(h)))
  {
    var t := s.(header := Comparing(h), headers := s.headers + [h]);
    assert Compared(t) == s.headers == Compared(s);
    assert Next(s, HeaderArrives(h)) == t;
  }

  lemma ComparisonKeepsInv(latest: int, s: State)
    requires Inv(latest, s) && s.header.Comparing?
    ensures Inv(latest, Next(s, HeaderCompared))
  {
    var t := Next(s, HeaderCompared);
    assert Compared(s) == s.headers[..|s.headers| - 1] && Compared(t) == s.headers;
    assert MaxOf(latest, s.headers) == t.latestBlock;
  }

  lemma IndexingKeepsInv(latest: int, s: State)
    requires Inv(latest, s) && Enabled(s, BlockIndexed)
    ensures Inv(latest, Next(s, BlockIndexed))
  {
    assert Compared(Next(s, BlockIndexed)) == Compared(s);
  }

  lemma LoopKeepsInv(latest: int, s: State, e: Event)
    requires Inv(latest, s) && Enabled(s, e) && !OfHeaders(e) && !e.BlockIndexed?
    ensures Inv(latest, Next(s, e))
  {
    var t := Next(s, e);
    assert t.header == s.header && t.headers == s.headers && t.latestBlock == s.latestBlock && t.indexed == s.indexed;
    assert Compared(t) == Compared(s);
  }

  /** The invariant survives every event of either goroutine. */
  lemma InvInductive(latest: int, s: State, e: Event)
    requires Inv(latest, s) && Enabled(s, e)
    ensures Inv(latest, Next(s, e))
  {
    if OfHeaders(e) {
      HeaderKeepsInv(latest, s, e);
    } else if e.BlockIndexed? {
      IndexingKeepsInv(latest, s);
    } else {
      LoopKeepsInv(latest, s, e);
    }
  }

  /**
   In every state of every interleaving no wakeup is lost, the indexed heights are gap-free, no block
   is indexed before it was announced, and `latestBlock` is the highest height seen.
   */
  lemma {:induction false} Safety(latest: int, events: seq<Event>, s: State)
    requires Run(latest, events) == Reached(s)
    ensures Inv(latest, s)
    decreases |events|
  {
    if events != [] {
      var p := Run(latest, events[..|events| - 1]).state;
      Safety(latest, events[..|events| - 1], p);
      InvInductive(latest, p, events[|events| - 1]);
    }
  }

  lemma HeightsInOrder(latest: int, events: seq<Event>, s: State)
    requires Run(latest, events) == Reached(s)
    ensures |s.indexed| == s.lastBlock - s.start
    ensures forall j :: 0 <= j < |s.indexed| ==> s.indexed[j] == s.start + 1 + j
  {
    Safety(latest, events, s);
  }

  /** No height is indexed twice, and every height between two indexed ones was indexed. */
  lemma IndexedExactlyOnce(latest: int, events: seq<Event>, s: State, h: int)
    requires Run(latest, events) == Reached(s)
    ensures h in s.indexed <==> s.start < h <= s.lastBlock
    ensures multiset(s.indexed)[h] <= 1
  {
    Safety(latest, events, s);
    if s.start < h <= s.lastBlock {
      assert s.indexed[h - s.start - 1] == h;
    }
    Counts(s.indexed, s.start, h);
  }

  lemma {:induction false} Counts(xs: seq<int>, start: int, h: int)
    requires forall j :: 0 <= j < |xs| ==> xs[j] == start + 1 + j
    ensures multiset(xs)[h] <= 1
    ensures h > start + |xs| ==> multiset(xs)[h] == 0
  {
    if xs != [] {
      var front := xs[..|xs| - 1];
      assert xs == front + [xs[|xs| - 1]];
      Counts(front, start, h);
    }
  }

  /** A header that is not new wakes nobody. */
  lemma StaleHeader(s: State, h: int)
    requires s.header.Receiving? && h <= s.latestBlock
    ensures Next(Next(s, HeaderArrives(h)), HeaderCompared) == s.(headers := s.headers + [h])
  {
  }

  // ---------- The start ----------

  /** The loop reads `last` as the last indexed block, -1 on an empty index. */
  ghost predicate ReadsLast(events: seq<Event>, last: int) {
    forall e :: e in events && e.LoopStarts? ==> e.lastIndexed == last
  }

  /**
   Once started, the service goes on after the last indexed block; on an empty index, after the highest block
   that it knew of by then, which was there from the outset or is among the first `k` headers.
   */
  lemma {:induction false} StartsAfter(latest: int, events: seq<Event>, s: State, last: int) returns (k: nat)
    requires Run(latest, events) == Reached(s) && ReadsLast(events, last) && !s.loop.Starting?
    ensures k <= |s.headers| && s.start == if last == -1 then MaxOf(latest, s.headers[..k]) else last
    decreases |events|
  {
    var front, e := events[..|events| - 1], events[|events| - 1];
    var p := Run(latest, front).state;
    assert e in events;
    if e.LoopStarts? {
      Safety(latest, front, p);
      k := |Compared(p)|;
      assert Compared(p) == p.headers[..k];
    } else {
      k := StartsAfter(latest, front, p, last);
      assert s.headers[..k] == p.headers[..k];
    }
  }

  /** Before that, nothing was handed over. */
  lemma {:induction false} NotStarted(latest: int, events: seq<Event>, s: State)
    requires Run(latest, events) == Reached(s) && s.loop.Starting?
    ensures s.start == s.lastBlock == -1 && s.indexed == []
    decreases |events|
  {
    if events != [] {
      NotStarted(latest, events[..|events| - 1], Run(latest, events[..|events| - 1]).state);
    }
  }

  lemma {:induction false} MaxAtLeast(a: int, hs: seq<int>)
    ensures a <= MaxOf(a, hs) && forall h :: h in hs ==> h <= MaxOf(a, hs)
    ensures MaxOf(a, hs) == a || MaxOf(a, hs) in hs
  {
    if hs != [] {
      MaxAtLeast(a, hs[..|hs| - 1]);
      assert hs == hs[..|hs| - 1] + [hs[|hs| - 1]];
    }
  }

  // ---------- Progress ----------

  /** The steps of the service itself: all but new headers, the start, timeouts and failed fetches. */
  predicate Internal(e: Event) {
    e.HeaderCompared? || e.Notify? || e.Check? || e.SignalTaken? || e.Guard? || e.BlockIndexed?
  }

  /** The highest height announced so far, also by a header that is still being compared. */
  function Target(s: State): int {
    if s.header.Comparing? && s.header.height > s.latestBlock then s.header.height else s.latestBlock
  }

  function Remaining(s: State): nat {
    if Target(s) > s.lastBlock then Target(s) - s.lastBlock else 0
  }

  /** A bound on the internal steps ahead: blocks that remain, a header, a signal, and the turn of the loop. */
  function Rank(s: State): nat {
    10 * Remaining(s) +
    (match s.header
     case Receiving => 0
     case Comparing(_) => 12
     case Notifying => 8) +
    (if s.signal then 4 else 0) +
    (match s.loop
     case Starting => 0
     case Waiting => 0
     case Checking => if s.latestBlock > s.lastBlock then 3 else 1
     case Guarding(_) => 2
     case Fetching(_) => 1)
  }

  /** Every internal step, whichever is taken, brings the service closer to having nothing to do. */
  lemma InternalProgress(latest: int, s: State, e: Event)
    requires Inv(latest, s) && Enabled(s, e) && Internal(e)
    ensures var t := Next(s, e);
      && Rank(t) < Rank(s) && Target(t) == Target(s)
      && t.start == s.start && t.loop.Starting? == s.loop.Starting?
  {
  }

  /** Any run of internal steps is no longer than the rank of the state in which it begins. */
  lemma {:induction false} InternalRun(latest: int, events: seq<Event>, s: State, more: seq<Event>, t: State)
    requires Run(latest, events) == Reached(s) && Run(latest, events + more) == Reached(t)
    requires forall e :: e in more ==> Internal(e)
    ensures |more| + Rank(t) <= Rank(s) && Target(t) == Target(s)
    ensures t.start == s.start && t.loop.Starting? == s.loop.Starting?
    decreases |more|
  {
    if more == [] {
      assert events + more == events;
    } else {
      var front, last := more[..|more| - 1], more[|more| - 1];
      assert (events + more)[..|events + more| - 1] == events + front;
      assert (events + more)[|events + more| - 1] == last;
      var p := Run(latest, events + front).state;
      InternalRun(latest, events, s, front, p);
      Safety(latest, events + front, p);
      assert Internal(last);
      InternalProgress(latest, p, last);
    }
  }

  /** No internal step is possible. */
  ghost predicate Quiet(s: State) {
    forall e :: Internal(e) ==> !Enabled(s, e)
  }

  /** Nothing is left to do exactly when the loop waits, no header is in work and no signal is pending. */
  lemma QuietMeans(latest: int, s: State)
    requires Inv(latest, s) && !s.loop.Starting?
    ensures Quiet(s) <==> s.loop.Waiting? && s.header.Receiving? && !s.signal
    ensures Quiet(s) ==> s.latestBlock <= s.lastBlock
  {
    if Quiet(s) {
      assert !Enabled(s, HeaderCompared) && !Enabled(s, Notify) && !Enabled(s, SignalTaken);
      assert !Enabled(s, Check) && !Enabled(s, Guard) && !Enabled(s, BlockIndexed);
    }
  }

  /** As long as an announced block is not indexed, an internal step is possible: no timeout is needed. */
  lemma NeverStuck(latest: int, events: seq<Event>, s: State)
    requires Run(latest, events) == Reached(s) && !s.loop.Starting? && Target(s) > s.lastBlock
    ensures exists e :: Internal(e) && Enabled(s, e)
  {
    Safety(latest, events, s);
    QuietMeans(latest, s);
  }

  lemma AllIndexed(latest: int, events: seq<Event>, s: State)
    requires Run(latest, events) == Reached(s)
    ensures forall h :: s.start < h <= s.lastBlock ==> h in s.indexed
  {
    forall h | s.start < h <= s.lastBlock ensures h in s.indexed {
      IndexedExactlyOnce(latest, events, s, h);
    }
  }

  /**
   Under every schedule: whatever internal steps follow each other, there are at most `Rank` of them, and
   when no further one is possible, every height announced by then was handed over.
   */
  lemma EveryScheduleCatchesUp(latest: int, events: seq<Event>, s: State, more: seq<Event>, t: State)
    requires Run(latest, events) == Reached(s) && !s.loop.Starting? && Run(latest, events + more) == Reached(t)
    requires forall e :: e in more ==> Internal(e)
    ensures |more| <= Rank(s)
    ensures Quiet(t) ==> t.latestBlock == Target(s) && forall h :: s.start < h <= Target(s) ==> h in t.indexed
  {
    InternalRun(latest, events, s, more, t);
    if Quiet(t) {
      Safety(latest, events + more, t);
      QuietMeans(latest, t);
      AllIndexed(latest, events + more, t);
    }
  }

  lemma RunOn(latest: int, events: seq<Event>, s: State, e: Event)
    requires Run(latest, events) == Reached(s) && Enabled(s, e)
    ensures Run(latest, events + [e]) == Reached(Next(s, e))
  {
    assert (events + [e])[..|events|] == events;
  }

  lemma GoOn(latest: int, events: seq<Event>, s: State) returns (e: Event, t: State)
    requires Run(latest, events) == Reached(s) && !Quiet(s)
    ensures Internal(e) && Run(latest, events + [e]) == Reached(t) && Rank(t) < Rank(s)
  {
    e :| Internal(e) && Enabled(s, e);
    t := Next(s, e);
    Safety(latest, events, s);
    InternalProgress(latest, s, e);
    RunOn(latest, events, s, e);
  }

  lemma Prefixed(latest: int, events: seq<Event>, e: Event, more: seq<Event>)
    requires Internal(e) && forall x :: x in more ==> Internal(x)
    ensures Run(latest, events + ([e] + more)) == Run(latest, (events + [e]) + more)
    ensures forall x :: x in [e] + more ==> Internal(x)
  {
    assert events + ([e] + more) == (events + [e]) + more;
  }

  /** There is such a schedule from every reachable state. */
  lemma {:induction false} CatchesUp(latest: int, events: seq<Event>, s: State) returns (more: seq<Event>, t: State)
    requires Run(latest, events) == Reached(s)
    ensures Run(latest, events + more) == Reached(t) && Quiet(t)
    ensures forall e :: e in more ==> Internal(e)
    decreases Rank(s)
  {
    if Quiet(s) {
      more, t := [], s;
      assert events + [] == events;
    } else {
      var e, p := GoOn(latest, events, s);
      more, t := CatchesUp(latest, events + [e], p);
      Prefixed(latest, events, e, more);
      more := [e] + more;
    }
  }

  /** A run that hands over two blocks after the start. */
  lemma TwoBlocks(start: int) returns (events: seq<Event>, s: State)
    requires start >= 0
    ensures Run(start + 2, events) == Reached(s)
    ensures s.start == start && s.lastBlock == start + 2 && s.indexed == [start + 1, start + 2]
    ensures ReadsLast(events, start)
  {
    events, s := Began(start + 2, start);
    events, s := OneBlock(start + 2, events, s);
    events, s := OneBlock(start + 2, events, s);
  }

  /** The same on a first start, where the index is empty and the loop begins at the latest block. */
  lemma TwoBlocksFirst(start: int) returns (events: seq<Event>, s: State)
    ensures Run(start, events) == Reached(s)
    ensures s.start == start && s.lastBlock == start + 2 && s.indexed == [start + 1, start + 2]
    ensures ReadsLast(events, -1)
  {
    events, s := Announced(start);
    events, s := OneBlock(start, events, s);
    events, s := OneBlock(start, events, s);
  }

  lemma Announced(start: int) returns (events: seq<Event>, s: State)
    ensures Run(start, events) == Reached(s) && s.loop == Guarding(start + 1) && s.latestBlock == start + 2
    ensures s.start == start && s.indexed == [] && ReadsLast(events, -1)
  {
    var s1 := Initial(start).(lastBlock := start, start := start, loop := Checking);
    var s2 := s1.(header := Comparing(start + 2), headers := [start + 2]);
    var s3 := s2.(latestBlock := start + 2, header := Notifying);
    events := [LoopStarts(-1)];
    assert events[..0] == [] && Run(start, events) == Reached(s1);
    RunOn(start, events, s1, HeaderArrives(start + 2));
    events := events + [HeaderArrives(start + 2)];
    RunOn(start, events, s2, HeaderCompared);
    events := events + [HeaderCompared];
    RunOn(start, events, s3, Check);
    events, s := events + [Check], s3.(loop := Guarding(start + 1));
  }

  lemma Began(latest: int, start: int) returns (events: seq<Event>, s: State)
    requires 0 <= start < latest
    ensures Run(latest, events) == Reached(s) && s.loop == Guarding(start + 1) && s.latestBlock == latest
    ensures s.start == start && s.indexed == [] && ReadsLast(events, start)
  {
    var s0 := Initial(latest);
    var s1 := s0.(lastBlock := start, start := start, loop := Checking);
    events := [LoopStarts(start)];
    assert events[..0] == [] && Run(latest, events) == Reached(s1);
    RunOn(latest, events, s1, Check);
    events, s := events + [Check], s1.(loop := Guarding(start + 1));
  }

  lemma OneBlock(latest: int, events: seq<Event>, s: State) returns (more: seq<Event>, t: State)
    requires Run(latest, events) == Reached(s) && s.loop.Guarding? && s.loop.i <= s.latestBlock
    ensures Run(latest, more) == Reached(t) && t.loop == Guarding(s.loop.i + 1) && t.latestBlock == s.latestBlock
    ensures t.start == s.start && t.lastBlock == s.loop.i && t.indexed == s.indexed + [s.loop.i]
    ensures forall last :: ReadsLast(events, last) ==> ReadsLast(more, last)
  {
    var s1 := Next(s, Guard);
    RunOn(latest, events, s, Guard);
    RunOn(latest, events + [Guard], s1, BlockIndexed);
    more, t := events + [Guard] + [BlockIndexed], Next(s1, BlockIndexed);
  }
}
