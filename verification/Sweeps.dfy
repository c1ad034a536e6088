/**
 A resumable sweep: a loop that counts down to 1, applying one step per number to a state, and that
 recomputes its starting number from the state whenever it is started.

 Both directions of the `index-eth-tx` command are such sweeps (module `Traversal`).
 */
module Sweeps {
  /**
   `step(s, i)` is the state after number `i` was processed; the sweep stops at a number that is not
   `present`; an `idle` number leaves no trace in the state; `start(s)` is where a sweep over `s` begins.
   */
  datatype Sweep<!S(!new)> = Sweep(
    step: (S, int) -> S,
    present: int -> bool,
    idle: int -> bool,
    start: S -> int,
    inv: S -> bool)
  {
    ghost predicate Lawful() {
      && (forall s, i {:trigger step(s, i)} :: inv(s) && present(i) ==> inv(step(s, i)))
      && (forall s, i {:trigger step(s, i)} :: inv(s) && present(i) && idle(i) ==> step(s, i) == s)
      && (forall s, i {:trigger step(s, i)} ::
            inv(s) && present(i) && !idle(i) && i <= start(s) ==> start(step(s, i)) == i - 1)
    }

    /** The loop from `i`, cut after at most `n` steps. */
    ghost function Down(s: S, i: int, n: nat): S
      decreases n
    {
      if i <= 0 || n == 0 || !present(i) then s else Down(step(s, i), i - 1, n - 1)
    }

    ghost function Steps(i: int): nat {
      if i < 0 then 0 else i
    }

    ghost function Cut(s: S, n: nat): S {
      Down(s, start(s), n)
    }

    ghost function Full(s: S): S {
      Down(s, start(s), Steps(start(s)))
    }

    ghost function Cuts(s: S, cuts: seq<nat>): S
      decreases cuts
    {
      if cuts == [] then s else Cuts(Cut(s, cuts[0]), cuts[1..])
    }

    lemma {:induction false} DownKeeps(s: S, i: int, n: nat)
      requires Lawful() && inv(s)
      ensures inv(Down(s, i, n))
      decreases n
    {
      if !(i <= 0 || n == 0 || !present(i)) {
        DownKeeps(step(s, i), i - 1, n - 1);
      }
    }

    /** Idle numbers at the head of a sweep make no difference. */
    lemma {:induction false} SkipIdle(s: S, i: int, j: int)
      requires Lawful() && inv(s) && 0 <= j <= i
      requires forall h :: j < h <= i ==> present(h) && idle(h)
      ensures Down(s, i, i) == Down(s, j, j)
      decreases i
    {
      if j < i {
        assert step(s, i) == s;
        SkipIdle(s, i - 1, j);
      }
    }

    /** A sweep over `s` has everything above `i` behind it. */
    ghost predicate ResumesAt(s: S, i: int) {
      i <= start(s) && forall h :: i < h <= start(s) ==> present(h) && idle(h)
    }

    /** From any point of a sweep, a restarted full sweep ends where this one would have ended. */
    lemma {:induction false} ResumeAnywhere(s: S, i: int, n: nat)
      requires Lawful() && inv(s) && ResumesAt(s, i)
      ensures Full(Down(s, i, n)) == Down(s, i, Steps(i))
      decreases n
    {
      if i <= 0 || n == 0 || !present(i) {
        if start(s) > 0 {
          SkipIdle(s, start(s), Steps(i));
        }
      } else {
        assert ResumesAt(step(s, i), i - 1);
        ResumeAnywhere(step(s, i), i - 1, n - 1);
      }
    }

    /** Sweeps cut anywhere and restarted any number of times converge to one full sweep. */
    lemma {:induction false} RestartsConverge(s: S, cuts: seq<nat>)
      requires Lawful() && inv(s)
      ensures Full(Cuts(s, cuts)) == Full(s)
      decreases cuts
    {
      if cuts != [] {
        DownKeeps(s, start(s), cuts[0]);
        RestartsConverge(Cut(s, cuts[0]), cuts[1..]);
        ResumeAnywhere(s, start(s), cuts[0]);
      }
    }

    /** `p` survives every turn of the loop. */
    ghost predicate Survives(p: (S, int) -> bool) {
      forall s, k {:trigger step(s, k)} :: inv(s) && present(k) && p(s, k) ==> p(step(s, k), k - 1)
    }

    /** What holds of the start of a loop and survives every turn holds of wherever it ends. */
    lemma {:induction false} DownInvariant(s: S, i: int, n: nat, p: (S, int) -> bool) returns (k: int)
      requires Lawful() && inv(s) && p(s, i) && Survives(p)
      ensures k <= i && inv(Down(s, i, n)) && p(Down(s, i, n), k)
      decreases n
    {
      k := i;
      if !(i <= 0 || n == 0 || !present(i)) {
        k := DownInvariant(step(s, i), i - 1, n - 1, p);
      }
    }

    /** One more turn of the loop. */
    lemma {:induction false} OneMore(s: S, i: int, n: nat, k: int)
      requires k == i - n > 0 && forall j :: k <= j <= i ==> present(j)
      ensures Down(s, i, n + 1) == step(Down(s, i, n), k)
      decreases n
    {
      if n > 0 {
        OneMore(step(s, i), i - 1, n - 1, k);
      }
    }

    /** The state after some numbers, one after the other. */
    ghost function Fold(s: S, numbers: seq<int>): S
      decreases |numbers|
    {
      if numbers == [] then s else step(Fold(s, numbers[..|numbers| - 1]), numbers[|numbers| - 1])
    }

    lemma {:induction false} FoldIsDown(s: S, i: int, numbers: seq<int>)
      requires |numbers| <= i || numbers == []
      requires forall j :: 0 <= j < |numbers| ==> numbers[j] == i - j && present(numbers[j])
      ensures Fold(s, numbers) == Down(s, i, |numbers|)
      decreases |numbers|
    {
      if numbers != [] {
        var n := |numbers| - 1;
        FoldIsDown(s, i, numbers[..n]);
        forall k | i - n <= k <= i ensures present(k) { assert present(numbers[i - k]); }
        OneMore(s, i, n, numbers[n]);
      }
    }

    ghost predicate AllPresent(i: int) {
      forall k :: 0 < k <= i ==> present(k)
    }

    /** Each step that is not idle leaves a trace, for its own number only. */
    ghost predicate TracesOwn(traced: (S, int) -> bool, h: int) {
      forall s, k {:trigger step(s, k)} :: inv(s) && present(k) ==>
        (traced(step(s, k), h) <==> traced(s, h) || (h == k && !idle(k)))
    }

    /** A trace that each step leaves for its own number only is left for every number swept. */
    lemma {:induction false} Covers(s: S, i: int, traced: (S, int) -> bool, h: int)
      requires Lawful() && inv(s) && i >= 0 && AllPresent(i)
      requires TracesOwn(traced, h)
      ensures traced(Down(s, i, i), h) <==> traced(s, h) || (0 < h <= i && !idle(h))
      decreases i
    {
      if i > 0 {
        var next := step(s, i);
        assert traced(next, h) <==> traced(s, h) || (h == i && !idle(i));
        assert Down(s, i, i) == Down(next, i - 1, i - 1);
        Covers(next, i - 1, traced, h);
      }
    }

    /** The same for a full sweep over a state without traces. */
    lemma FullCovers(s: S, traced: (S, int) -> bool, h: int)
      requires Lawful() && inv(s) && start(s) >= 0 && AllPresent(start(s))
      requires TracesOwn(traced, h)
      requires !traced(s, h)
      ensures traced(Full(s), h) <==> 0 < h <= start(s) && !idle(h)
    {
      Covers(s, start(s), traced, h);
    }
  }

  /**
   What a loop does at each height, whichever way it goes: `step(s, h)` is the state after height `h`, and
   the rest is as for sweeps.
   */
  datatype Walk<!S(!new)> = Walk(step: (S, int) -> S, present: int -> bool, idle: int -> bool, inv: S -> bool) {

    /** Downward to height 1; the numbers of the sweep are the heights. */
    ghost function Down(start: S -> int): Sweep<S> {
      Sweep(step, present, idle, start, inv)
    }

    /** Upward to height `top`; the numbers of the sweep count the heights that remain. */
    ghost function Up(top: int, start: S -> int): Sweep<S> {
      Sweep((s, k) => step(s, top + 1 - k), k => present(top + 1 - k), k => idle(top + 1 - k),
            s => top + 1 - start(s), inv)
    }

    /** Number `k` of a sweep is the height `h`. */
    ghost predicate Visits(sw: Sweep<S>, k: int, h: int) {
      && sw.present(k) == present(h) && sw.idle(k) == idle(h)
      && forall s :: sw.step(s, k) == step(s, h)
    }

    lemma DownVisits(start: S -> int, h: int)
      ensures Visits(Down(start), h, h)
    {
    }

    lemma UpVisits(top: int, start: S -> int, k: int, h: int)
      requires k + h == top + 1
      ensures Visits(Up(top, start), k, h)
    {
      assert top + 1 - k == h;
    }

    /** Where an upward loop starts in terms of its heights. */
    lemma UpFrom(top: int, start: S -> int, s: S, i: int, n: nat)
      requires i == top + 1 - start(s)
      ensures Up(top, start).Cut(s, n) == Up(top, start).Down(s, i, n)
      ensures Up(top, start).Full(s) == Up(top, start).Down(s, i, Up(top, start).Steps(i))
    {
    }

    /** Where a loop is to start makes no difference once it has started. */
    lemma {:induction false} DownAlike(one: S -> int, other: S -> int, s: S, i: int, n: nat)
      ensures Down(one).Down(s, i, n) == Down(other).Down(s, i, n)
      decreases n
    {
      if !(i <= 0 || n == 0 || !present(i)) {
        DownAlike(one, other, step(s, i), i - 1, n - 1);
      }
    }

    /** An upward loop to a lower height is a cut of the one to a higher height. */
    lemma {:induction false} UpShorter(top: int, higher: int, start: S -> int, s: S, i: int, j: int, n: nat)
      returns (m: nat)
      requires top <= higher && j - i == higher - top
      ensures Up(top, start).Down(s, i, n) == Up(higher, start).Down(s, j, m)
      decreases n
    {
      m := 0;
      var h := top + 1 - i;
      assert higher + 1 - j == h;
      if !(i <= 0 || n == 0 || !present(h)) {
        m := UpShorter(top, higher, start, step(s, h), i - 1, j - 1, n - 1);
        m := m + 1;
      }
    }

    /** `p` survives every height on the way up. */
    ghost predicate SurvivesUp(p: (S, int) -> bool) {
      forall s, h {:trigger step(s, h)} :: inv(s) && present(h) && p(s, h) ==> p(step(s, h), h + 1)
    }

    lemma UpSurvives(top: int, start: S -> int, p: (S, int) -> bool)
      requires SurvivesUp(p)
      ensures Up(top, start).Survives(FromTop(top, p))
    {
      var sw, q := Up(top, start), FromTop(top, p);
      forall s, k {:trigger sw.step(s, k)} | sw.inv(s) && sw.present(k) && q(s, k) ensures q(sw.step(s, k), k - 1) {
        assert p(step(s, top + 1 - k), top + 1 - k + 1);
      }
    }

    /** Each height that is not idle leaves a trace, for itself only. */
    ghost predicate TracesOwn(traced: (S, int) -> bool, g: int) {
      forall s, h {:trigger step(s, h)} :: inv(s) && present(h) ==>
        (traced(step(s, h), g) <==> traced(s, g) || (g == h && !idle(h)))
    }

    ghost predicate AllPresent(from: int, to: int) {
      forall h :: from <= h <= to ==> present(h)
    }

    /** From a state without traces, a full downward loop leaves one for every height that is not idle. */
    lemma DownCovers(start: S -> int, s: S, traced: (S, int) -> bool, g: int)
      requires Down(start).Lawful() && inv(s) && start(s) >= 0 && AllPresent(1, start(s))
      requires TracesOwn(traced, g) && !traced(s, g)
      ensures traced(Down(start).Full(s), g) <==> 0 < g <= start(s) && !idle(g)
    {
      Down(start).FullCovers(s, traced, g);
    }

    /** The same upward. */
    lemma UpCovers(top: int, start: S -> int, s: S, traced: (S, int) -> bool, g: int)
      requires Up(top, start).Lawful() && inv(s) && start(s) <= top + 1 && AllPresent(start(s), top)
      requires TracesOwn(traced, g) && !traced(s, g)
      ensures traced(Up(top, start).Full(s), g) <==> start(s) <= g <= top && !idle(g)
    {
      var sw, k := Up(top, start), top + 1 - g;
      UpTracesOwn(top, start, traced, g);
      sw.FullCovers(s, FromTop(top, traced), k);
      assert top + 1 - k == g;
    }

    lemma UpTracesOwn(top: int, start: S -> int, traced: (S, int) -> bool, g: int)
      requires TracesOwn(traced, g)
      ensures Up(top, start).TracesOwn(FromTop(top, traced), top + 1 - g)
    {
      var sw, q := Up(top, start), FromTop(top, traced);
      assert top + 1 - (top + 1 - g) == g;
      forall s, k {:trigger sw.step(s, k)} | sw.inv(s) && sw.present(k)
        ensures q(sw.step(s, k), top + 1 - g) <==> q(s, top + 1 - g) || (top + 1 - g == k && !sw.idle(k))
      {
        assert sw.step(s, k) == step(s, top + 1 - k);
      }
    }

    /** The state after some heights in order, without those at which the step failed. */
    ghost function Handed(s: S, heights: seq<int>, fails: int -> bool): S
      decreases |heights|
    {
      if heights == [] then s
      else
        var front, h := Handed(s, heights[..|heights| - 1], fails), heights[|heights| - 1];
        if fails(h) then front else step(front, h)
    }

    lemma {:induction false} HandedIsFold(top: int, start: S -> int, s: S, heights: seq<int>, numbers: seq<int>)
      requires |numbers| == |heights| && forall j :: 0 <= j < |heights| ==> numbers[j] == top + 1 - heights[j]
      ensures Handed(s, heights, Never()) == Up(top, start).Fold(s, numbers)
      decreases |heights|
    {
      if heights != [] {
        var n := |heights| - 1;
        HandedIsFold(top, start, s, heights[..n], numbers[..n]);
        assert top + 1 - numbers[n] == heights[n];
      }
    }

    /** Handing over all heights after `from`, up to `top`, is the upward loop from there. */
    lemma HandedUp(top: int, start: S -> int, s: S, from: int, heights: seq<int>, i: nat)
      requires |heights| == i == top - from && AllPresent(from + 1, top)
      requires forall j :: 0 <= j < |heights| ==> heights[j] == from + 1 + j
      ensures Handed(s, heights, Never()) == Up(top, start).Down(s, i, i)
    {
      var numbers := seq(i, j => i - j);
      HandedIsFold(top, start, s, heights, numbers);
      forall j | 0 <= j < i ensures Up(top, start).present(numbers[j]) {
        assert present(top + 1 - numbers[j]);
      }
      Up(top, start).FoldIsDown(s, i, numbers);
    }
  }

  ghost function Never(): int -> bool {
    h => false
  }

  ghost function FromTop<S>(top: int, p: (S, int) -> bool): (S, int) -> bool {
    (s, k) => p(s, top + 1 - k)
  }
}
