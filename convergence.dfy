/** The scroll-to-converge loop of `fetch_reviews`: the visible review items
    are counted again and again; a count above every earlier one triggers a
    scroll and resets the stagnation counter, any other count bumps it, and
    the loop ends when the counter reaches three. The page is represented by
    the finite sequence of counts its polls return. */
module Convergence {

  const StagnationLimit: nat := 3

  function Max(a: nat, b: nat): nat {
    if a < b then b else a
  }

  /** `prev_count` after the given polls: the largest of 0 and every count seen. */
  function RunningMax(polls: seq<nat>): nat {
    if polls == [] then 0
    else Max(RunningMax(polls[..|polls| - 1]), polls[|polls| - 1])
  }

  /** Poll `j` shows more items than all polls before it. */
  predicate IsNewMax(polls: seq<nat>, j: nat)
    requires j < |polls|
  {
    polls[j] > RunningMax(polls[..j])
  }

  /** The stagnation counter after the given polls: the number of polls at
      the end that were not new maxima. */
  function Streak(polls: seq<nat>): nat {
    if polls == [] then 0
    else if IsNewMax(polls, |polls| - 1) then 0
    else Streak(polls[..|polls| - 1]) + 1
  }

  /** The number of scrolls issued for the given polls: one per new maximum. */
  function Scrolls(polls: seq<nat>): nat {
    if polls == [] then 0
    else Scrolls(polls[..|polls| - 1]) + (if IsNewMax(polls, |polls| - 1) then 1 else 0)
  }

  /** The loop ends at poll `stop`: the counter reaches the limit there and
      at no earlier poll. */
  predicate IsStop(polls: seq<nat>, stop: nat) {
    stop < |polls| && Streak(polls[..stop + 1]) == StagnationLimit
    && forall n | 0 <= n <= stop :: Streak(polls[..n]) < StagnationLimit
  }

  /** How the loop ends on a finite run of polls: it stops at poll `stop` with
      `prev_count == count` after `scrolls` scrolls, or the polls run out first
      (the program itself would keep polling). */
  datatype Outcome = Converged(stop: nat, count: nat, scrolls: nat) | Unterminated

  /** The loop itself, over the counts its polls return. */
  method ScrollToConverge(polls: seq<nat>) returns (r: Outcome)
    ensures r.Converged? ==> IsStop(polls, r.stop)
    ensures r.Converged? ==> r.count == RunningMax(polls[..r.stop + 1])
    ensures r.Converged? ==> r.scrolls == Scrolls(polls[..r.stop + 1])
    ensures r.Unterminated? <==> forall n | 0 <= n <= |polls| :: Streak(polls[..n]) < StagnationLimit
  {
    var prevCount, attempts, scrolls := 0, 0, 0;
    var i := 0;
    while i < |polls|
      invariant i <= |polls|
      invariant prevCount == RunningMax(polls[..i])
      invariant attempts == Streak(polls[..i]) < StagnationLimit
      invariant scrolls == Scrolls(polls[..i])
      invariant forall n | 0 <= n <= i :: Streak(polls[..n]) < StagnationLimit
    {
      assert polls[..i + 1][..i] == polls[..i];
      var currentCount := polls[i];
      if currentCount > prevCount {
        prevCount := currentCount;
        scrolls := scrolls + 1;
        attempts := 0;
      } else {
        attempts := attempts + 1;
        if attempts >= StagnationLimit {
          return Converged(i, prevCount, scrolls);
        }
      }
      i := i + 1;
    }
    assert polls[..|polls|] == polls;
    return Unterminated;
  }

  /** `prev_count` is the maximum of 0 and every count polled so far. */
  lemma {:induction false} RunningMaxIsMaximum(polls: seq<nat>)
    ensures forall j | 0 <= j < |polls| :: polls[j] <= RunningMax(polls)
    ensures RunningMax(polls) == 0 || RunningMax(polls) in polls
  {
    if polls != [] {
      var init := polls[..|polls| - 1];
      RunningMaxIsMaximum(init);
      assert forall j | 0 <= j < |init| :: polls[j] == init[j];
    }
  }

  /** The counter reaches the limit exactly at the third consecutive poll
      that is not above `prev_count`. */
  lemma StreakReachesLimit(polls: seq<nat>)
    ensures Streak(polls) >= StagnationLimit <==>
      |polls| >= 3 && !IsNewMax(polls, |polls| - 1)
      && !IsNewMax(polls[..|polls| - 1], |polls| - 2)
      && !IsNewMax(polls[..|polls| - 2], |polls| - 3)
  {
    if |polls| >= 1 {
      var p1 := polls[..|polls| - 1];
      if |polls| >= 2 {
        var p2 := p1[..|p1| - 1];
        assert p2 == polls[..|polls| - 2];
        if |polls| >= 3 {
          assert p2[..|p2| - 1] == polls[..|polls| - 3];
        }
      }
    }
  }

  /** Every scroll follows a strictly larger count, so there are never more
      scrolls than items at the end (and never more than polls). */
  lemma {:induction false} ScrollsBounded(polls: seq<nat>)
    ensures Scrolls(polls) <= RunningMax(polls)
    ensures Scrolls(polls) <= |polls|
  {
    if polls != [] {
      ScrollsBounded(polls[..|polls| - 1]);
    }
  }

  /** One poll, as the loop body treats it: a count above `prev_count`
      becomes the new `prev_count`, issues a scroll and resets the counter;
      any other count leaves `prev_count` alone and bumps the counter. */
  lemma Poll(init: seq<nat>, count: nat)
    ensures IsNewMax(init + [count], |init|) <==> count > RunningMax(init)
    ensures RunningMax(init + [count]) == Max(RunningMax(init), count)
    ensures Streak(init + [count]) == if count > RunningMax(init) then 0 else Streak(init) + 1
    ensures Scrolls(init + [count]) == Scrolls(init) + if count > RunningMax(init) then 1 else 0
  {
    assert (init + [count])[..|init|] == init;
  }

  /** The stopping poll is unique: the outcome of the loop is determined by
      the counts alone. */
  lemma StopUnique(polls: seq<nat>, s1: nat, s2: nat)
    requires IsStop(polls, s1) && IsStop(polls, s2)
    ensures s1 == s2
  {
  }

  /** A stagnation streak is reset by a new maximum: counts 5, 8, 8, 8, 12,
      12, 12, 12 stop at the last poll with 12 items after three scrolls. */
  lemma StreakResets(p: seq<nat>)
    requires p == [5, 8, 8, 8, 12, 12, 12, 12]
    ensures IsStop(p, 7) && RunningMax(p) == 12 && Scrolls(p) == 3
  {
    Poll(p[..0], 5);
    assert p[..1] == p[..0] + [5];
    Poll(p[..1], 8);
    assert p[..2] == p[..1] + [8];
    Poll(p[..2], 8);
    assert p[..3] == p[..2] + [8];
    Poll(p[..3], 8);
    assert p[..4] == p[..3] + [8];
    Poll(p[..4], 12);
    assert p[..5] == p[..4] + [12];
    Poll(p[..5], 12);
    assert p[..6] == p[..5] + [12];
    Poll(p[..6], 12);
    assert p[..7] == p[..6] + [12];
    Poll(p[..7], 12);
    assert p[..8] == p[..7] + [12] == p;
  }

  /** A first poll that shows at least one item is an increase over the
      initial 0, so three equal positive counts (the first three of `p`) are
      not enough to stop: the fourth equal count is. */
  lemma EqualCountsNeedFourPolls(p: seq<nat>)
    requires p == [5, 5, 5, 5]
    ensures forall n | 0 <= n <= 3 :: Streak(p[..3][..n]) < StagnationLimit
    ensures IsStop(p, 3)
  {
    Poll(p[..0], 5);
    assert p[..1] == p[..0] + [5];
    Poll(p[..1], 5);
    assert p[..2] == p[..1] + [5];
    Poll(p[..2], 5);
    assert p[..3] == p[..2] + [5];
    Poll(p[..3], 5);
    assert p[..4] == p[..3] + [5] == p;
    assert forall n | 0 <= n <= 3 :: p[..3][..n] == p[..n];
  }

  /** The items handed on are those of the stopping poll, which may be fewer
      than `prev_count`: counts 5, 3, 3, 3 stop at poll 3 with `prev_count` 5
      while that poll shows 3 items. */
  lemma LastPollNotLargest(p: seq<nat>)
    requires p == [5, 3, 3, 3]
    ensures IsStop(p, 3) && RunningMax(p) == 5 && p[3] < RunningMax(p)
  {
    Poll(p[..0], 5);
    assert p[..1] == p[..0] + [5];
    Poll(p[..1], 3);
    assert p[..2] == p[..1] + [3];
    Poll(p[..2], 3);
    assert p[..3] == p[..2] + [3];
    Poll(p[..3], 3);
    assert p[..4] == p[..3] + [3] == p;
  }

  /** The test is a strict `>`, so a first poll that shows no item is no
      increase: counts 0, 0, 0 stop at the third poll without any scroll. */
  lemma EmptyPollsStopAtThird(p: seq<nat>)
    requires p == [0, 0, 0]
    ensures IsStop(p, 2) && RunningMax(p) == 0 && Scrolls(p) == 0
  {
    Poll(p[..0], 0);
    assert p[..1] == p[..0] + [0];
    Poll(p[..1], 0);
    assert p[..2] == p[..1] + [0];
    Poll(p[..2], 0);
    assert p[..3] == p[..2] + [0] == p;
  }
}
