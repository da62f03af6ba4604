/**
 * What the removal loop guarantees about the grid it leaves behind, for any
 * sequence of draws: only filled cells are touched and each of them takes the
 * placeholder, the counter never goes below zero or above its start, every
 * counted draw clears at most one cell, no filled value is duplicated, and
 * with the uniqueness check on a uniquely completable grid stays so.
 */
module Removal {
  import opened Rules
  import opened Solutions
  import opened Generator

  /** Every cell of h is the cell of g, or a filled cell of g now holding p. */
  ghost predicate Thinned(g: Grid, h: Grid, n: nat, p: int)
    requires IsSquare(g, n) && IsSquare(h, n)
  {
    forall i, j :: 0 <= i < n && 0 <= j < n ==> h[i][j] == g[i][j] || (g[i][j] != 0 && h[i][j] == p)
  }

  /**
   * One draw changes at most the drawn cell, and only if it was filled; it
   * counts exactly when the cell was filled and the check, if on, passes.
   */
  lemma RemoveStepFrame(g: Grid, n: nat, s: nat, p: int, enforce: bool, r: nat, c: nat)
    requires IsSquare(g, n) && 0 < s && r < n && c < n
    ensures var (h, counted) := RemoveStep(g, n, s, p, enforce, r, c);
      && IsSquare(h, n) && Thinned(g, h, n, p)
      && (counted <==> g[r][c] != 0 && (!enforce || UniquelyCompletable(Place(g, r, c, p), n, s)))
      && (counted ==> g[r][c] != 0 && h == Place(g, r, c, p))
      && (!counted ==> h == g)
  {
  }

  /**
   * The removal loop leaves a square grid obtained from g by turning some
   * filled cells into the placeholder; the counter ends between zero and its
   * start (when it starts positive); each counted draw accounts for at most
   * one draw; and when nothing was counted the grid is untouched.
   */
  lemma {:induction false} RemoveRunFrame(g: Grid, n: nat, s: nat, p: int, enforce: bool, count: int, picks: seq<(int, int)>)
    requires IsSquare(g, n) && 0 < s && PicksInRange(picks, n)
    ensures var (h, left) := RemoveRun(g, n, s, p, enforce, count, picks);
      && IsSquare(h, n) && Thinned(g, h, n, p)
      && left <= count
      && (count > 0 ==> 0 <= left && count - left <= |picks|)
      && (left == count ==> h == g)
    decreases |picks|
  {
    if count <= 0 || picks == [] {
    } else {
      var (r, c) := picks[0];
      var (h1, counted) := RemoveStep(g, n, s, p, enforce, r, c);
      RemoveStepFrame(g, n, s, p, enforce, r, c);
      var count1 := if counted then count - 1 else count;
      assert PicksInRange(picks[1..], n);
      RemoveRunFrame(h1, n, s, p, enforce, count1, picks[1..]);
      var (h, left) := RemoveRun(h1, n, s, p, enforce, count1, picks[1..]);
      assert RemoveRun(g, n, s, p, enforce, count, picks) == (h, left);
      forall i, j | 0 <= i < n && 0 <= j < n
        ensures h[i][j] == g[i][j] || (g[i][j] != 0 && h[i][j] == p)
      {
      }
    }
  }

  /**
   * The placeholder is on at most as many cells as before plus the number of
   * counted draws; with the integer placeholder 0 the two are equal, so the
   * counter tells exactly how many cells were cleared.
   */
  lemma {:induction false} RemoveRunPlaceholders(g: Grid, n: nat, s: nat, p: int, enforce: bool, count: int, picks: seq<(int, int)>)
    requires IsSquare(g, n) && 0 < s && PicksInRange(picks, n)
    ensures var (h, left) := RemoveRun(g, n, s, p, enforce, count, picks);
      && Occurrences(h, p) <= Occurrences(g, p) + (count - left)
      && (p == 0 ==> Occurrences(h, p) == Occurrences(g, p) + (count - left))
    decreases |picks|
  {
    if count <= 0 || picks == [] {
    } else {
      var (r, c) := picks[0];
      var (h1, counted) := RemoveStep(g, n, s, p, enforce, r, c);
      RemoveStepFrame(g, n, s, p, enforce, r, c);
      if counted {
        OccurrencesPlace(g, r, c, p, p);
      }
      var count1 := if counted then count - 1 else count;
      assert PicksInRange(picks[1..], n);
      RemoveRunPlaceholders(h1, n, s, p, enforce, count1, picks[1..]);
    }
  }

  /** Turning filled cells into a placeholder outside 1..n keeps a grid consistent. */
  lemma ThinnedConsistent(g: Grid, h: Grid, n: nat, s: nat, p: int)
    requires IsSquare(g, n) && IsSquare(h, n) && 0 < s && !(1 <= p <= n)
    requires Consistent(g, n, s) && Thinned(g, h, n, p)
    ensures Consistent(h, n, s)
  {
    forall i, j, i2, j2 | 0 <= i < n && 0 <= j < n && 0 <= i2 < n && 0 <= j2 < n &&
                          Peers(s, i, j, i2, j2) && 1 <= h[i][j] <= n
      ensures h[i][j] != h[i2][j2]
    {
    }
  }

  /** No draw sequence makes two peers hold the same number. */
  lemma RemoveRunConsistent(g: Grid, n: nat, s: nat, p: int, enforce: bool, count: int, picks: seq<(int, int)>)
    requires IsSquare(g, n) && 0 < s && PicksInRange(picks, n) && !(1 <= p <= n)
    requires Consistent(g, n, s)
    ensures var (h, left) := RemoveRun(g, n, s, p, enforce, count, picks);
      IsSquare(h, n) && Consistent(h, n, s)
  {
    RemoveRunFrame(g, n, s, p, enforce, count, picks);
    var (h, left) := RemoveRun(g, n, s, p, enforce, count, picks);
    ThinnedConsistent(g, h, n, s, p);
  }

  /**
   * With the uniqueness check on, the grid the loop leaves is uniquely
   * completable whenever it started so or at least one draw counted.
   */
  lemma {:induction false} RemoveRunKeepsUnique(g: Grid, n: nat, s: nat, p: int, count: int, picks: seq<(int, int)>)
    requires IsSquare(g, n) && 0 < s && PicksInRange(picks, n)
    ensures var (h, left) := RemoveRun(g, n, s, p, true, count, picks);
      IsSquare(h, n) && (UniquelyCompletable(g, n, s) || left < count ==> UniquelyCompletable(h, n, s))
    decreases |picks|
  {
    RemoveRunFrame(g, n, s, p, true, count, picks);
    if count <= 0 || picks == [] {
    } else {
      var (r, c) := picks[0];
      var (h1, counted) := RemoveStep(g, n, s, p, true, r, c);
      RemoveStepFrame(g, n, s, p, true, r, c);
      var count1 := if counted then count - 1 else count;
      assert PicksInRange(picks[1..], n);
      RemoveRunKeepsUnique(h1, n, s, p, count1, picks[1..]);
    }
  }

  /**
   * The loop as written, with the check off and a placeholder other than 0,
   * started from a grid without empty cells: no cell ever becomes 0, so every
   * draw counts, a cell drawn twice included, and the counter drops by one
   * per draw until it reaches 0.
   */
  lemma {:induction false} RemoveRunUncheckedCounts(g: Grid, n: nat, s: nat, p: int, count: int, picks: seq<(int, int)>)
    requires IsSquare(g, n) && 0 < s && PicksInRange(picks, n) && ZeroFree(g) && p != 0 && count > 0
    ensures RemoveRun(g, n, s, p, false, count, picks).1 == if |picks| >= count then 0 else count - |picks|
    decreases |picks|
  {
    if picks != [] {
      var (r, c) := picks[0];
      var rest := picks[1..];
      assert PicksInRange(rest, n);
      var h := Place(g, r, c, p);
      assert ZeroFree(h);
      assert RemoveRun(g, n, s, p, false, count, picks) == RemoveRun(h, n, s, p, false, count - 1, rest);
      if count > 1 {
        RemoveRunUncheckedCounts(h, n, s, p, count - 1, rest);
      }
    }
  }
}
