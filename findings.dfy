/**
 * Two ways the removal loop departs from what it is evidently meant to do,
 * and the removal it is meant to perform.
 *
 * Removed cells receive the placeholder, but both the loop's own "is this
 * cell filled" test and the solution counter recognise only the integer 0 as
 * empty. With any other placeholder (every configured placeholder is a
 * string) a removed cell is, for the counter, a filled cell: the uniqueness
 * check sees a grid with no empty cell and always accepts, and a cell that
 * is drawn again is cleared again and counted again.
 *
 * The intended removal clears cells to 0 while it runs, so that the counter
 * and the filled-cell test see them, and writes the placeholder only into
 * the finished puzzle.
 */
module Findings {
  import opened Rules
  import opened Solutions
  import opened Generator
  import opened Removal

  /** A grid with no empty cell has exactly one completion: itself. */
  lemma ZeroFreeUnique(g: Grid, n: nat, s: nat)
    requires IsSquare(g, n) && 0 < s && ZeroFree(g)
    ensures UniquelyCompletable(g, n, s)
  {
    CountZeroFree(g, n, s);
    CountOneIffUnique(g, n, s);
  }

  /**
   * As written, with a placeholder other than 0, the uniqueness check never
   * rejects a draw on a full grid: the loop does the same with the check on
   * as with it off.
   */
  lemma {:induction false} UniquenessCheckVacuous(g: Grid, n: nat, s: nat, p: int, count: int, picks: seq<(int, int)>)
    requires IsSquare(g, n) && 0 < s && PicksInRange(picks, n) && ZeroFree(g) && p != 0
    ensures RemoveRun(g, n, s, p, true, count, picks) == RemoveRun(g, n, s, p, false, count, picks)
    decreases |picks|
  {
    if count <= 0 || picks == [] {
    } else {
      var (r, c) := picks[0];
      var h := Place(g, r, c, p);
      ZeroFreeUnique(h, n, s);
      assert RemoveStep(g, n, s, p, true, r, c) == RemoveStep(g, n, s, p, false, r, c) == (h, true);
      assert PicksInRange(picks[1..], n);
      UniquenessCheckVacuous(h, n, s, p, count - 1, picks[1..]);
    }
  }

  /** A solved 4-by-4 grid with 2-by-2 blocks. */
  function FullGrid(): (g: Grid)
    ensures IsSquare(g, 4)
  {
    [[1, 2, 3, 4], [3, 4, 1, 2], [2, 1, 4, 3], [4, 3, 2, 1]]
  }

  /** The same grid with the digits 1 and 2 swapped in rows 0 and 2, columns 0 and 1. */
  function SwappedGrid(): (g: Grid)
    ensures IsSquare(g, 4)
  {
    [[2, 1, 3, 4], [3, 4, 1, 2], [1, 2, 4, 3], [4, 3, 2, 1]]
  }

  /** Rows, columns and blocks without repeats make a consistent grid. */
  lemma ConsistentFromUnits(g: Grid, n: nat, s: nat)
    requires IsSquare(g, n) && 0 < s
    requires forall i, j, j2 :: 0 <= i < n && 0 <= j < j2 < n ==> g[i][j] != g[i][j2]
    requires forall i, i2, j :: 0 <= i < i2 < n && 0 <= j < n ==> g[i][j] != g[i2][j]
    requires forall i, j, i2, j2 :: (0 <= i < n && 0 <= j < n && 0 <= i2 < n && 0 <= j2 < n &&
               i != i2 && j != j2 && SameBlock(s, i, j, i2, j2)) ==> g[i][j] != g[i2][j2]
    ensures Consistent(g, n, s)
  {
    forall i, j, i2, j2 | 0 <= i < n && 0 <= j < n && 0 <= i2 < n && 0 <= j2 < n &&
                          Peers(s, i, j, i2, j2) && 1 <= g[i][j] <= n
      ensures g[i][j] != g[i2][j2]
    {
      if i == i2 {
        if j < j2 { assert g[i][j] != g[i][j2]; } else { assert g[i][j2] != g[i][j]; }
      } else if j == j2 {
        if i < i2 { assert g[i][j] != g[i2][j]; } else { assert g[i2][j] != g[i][j]; }
      }
    }
  }

  lemma SmallBlocks(i: int, j: int, i2: int, j2: int)
    requires 0 <= i < 4 && 0 <= j < 4 && 0 <= i2 < 4 && 0 <= j2 < 4
    requires i != i2 && j != j2 && SameBlock(2, i, j, i2, j2)
    ensures i2 == i + 1 - 2 * (i % 2) && j2 == j + 1 - 2 * (j % 2)
  {
  }

  lemma FullGridSolved()
    ensures Solved(FullGrid(), 4, 2)
  {
    var g := FullGrid();
    forall i, j, i2, j2 | 0 <= i < 4 && 0 <= j < 4 && 0 <= i2 < 4 && 0 <= j2 < 4 &&
                          i != i2 && j != j2 && SameBlock(2, i, j, i2, j2)
      ensures g[i][j] != g[i2][j2]
    {
      SmallBlocks(i, j, i2, j2);
    }
    ConsistentFromUnits(g, 4, 2);
  }

  lemma SwappedGridSolved()
    ensures Solved(SwappedGrid(), 4, 2)
  {
    var g := SwappedGrid();
    forall i, j, i2, j2 | 0 <= i < 4 && 0 <= j < 4 && 0 <= i2 < 4 && 0 <= j2 < 4 &&
                          i != i2 && j != j2 && SameBlock(2, i, j, i2, j2)
      ensures g[i][j] != g[i2][j2]
    {
      SmallBlocks(i, j, i2, j2);
    }
    ConsistentFromUnits(g, 4, 2);
  }

  /** The four draws that clear the corners of the rectangle on which the two grids differ. */
  function RectanglePicks(): (picks: seq<(int, int)>)
    ensures PicksInRange(picks, 4)
  {
    [(0, 0), (0, 1), (2, 0), (2, 1)]
  }

  /** The full grid with the four rectangle corners holding the placeholder p. */
  function RectanglePuzzle(p: int): (g: Grid)
    ensures IsSquare(g, 4)
  {
    [[p, p, 3, 4], [3, 4, 1, 2], [p, p, 4, 3], [4, 3, 2, 1]]
  }

  /** The same puzzle with the four corners empty. */
  function RectangleBlank(): (g: Grid)
    ensures IsSquare(g, 4)
  {
    [[0, 0, 3, 4], [3, 4, 1, 2], [0, 0, 4, 3], [4, 3, 2, 1]]
  }

  /** The four draws all count, with the check on, and place p on the four corners. */
  lemma RectangleRun(p: int)
    requires p != 0 && !(1 <= p <= 4)
    ensures RemoveRun(FullGrid(), 4, 2, p, true, 4, RectanglePicks()) == (RectanglePuzzle(p), 0)
  {
    UniquenessCheckVacuous(FullGrid(), 4, 2, p, 4, RectanglePicks());
    RectangleRunUnchecked(p);
  }

  /** With the check off, the four draws place p on the four corners. */
  lemma RectangleRunUnchecked(p: int)
    requires p != 0 && !(1 <= p <= 4)
    ensures RemoveRun(FullGrid(), 4, 2, p, false, 4, RectanglePicks()) == (RectanglePuzzle(p), 0)
  {
    var g := FullGrid();
    var picks := RectanglePicks();
    var g1 := Place(g, 0, 0, p);
    var g2 := Place(g1, 0, 1, p);
    var g3 := Place(g2, 2, 0, p);
    var g4 := Place(g3, 2, 1, p);
    forall i | 0 <= i < 4
      ensures g4[i] == RectanglePuzzle(p)[i]
    {
    }
    assert picks[1..] == [(0, 1), (2, 0), (2, 1)];
    assert picks[1..][1..] == [(2, 0), (2, 1)];
    assert picks[1..][1..][1..] == [(2, 1)];
    assert RemoveRun(g3, 4, 2, p, false, 1, [(2, 1)]) == (g4, 0);
    assert RemoveRun(g2, 4, 2, p, false, 2, [(2, 0), (2, 1)]) == (g4, 0);
    assert RemoveRun(g1, 4, 2, p, false, 3, picks[1..]) == (g4, 0);
    assert RemoveRun(g, 4, 2, p, false, 4, picks) == (g4, 0);
    assert g4 == RectanglePuzzle(p);
  }

  /** Reading the placeholder as an empty cell turns the puzzle into the blank rectangle. */
  lemma RectangleReplaced(p: int)
    requires p != 0 && !(1 <= p <= 4)
    ensures Replace(RectanglePuzzle(p), p, 0) == RectangleBlank()
  {
    var h := Replace(RectanglePuzzle(p), p, 0);
    forall i | 0 <= i < 4
      ensures h[i] == RectangleBlank()[i]
    {
    }
  }

  /** The blank rectangle is completed both by the full grid and by the swapped grid. */
  lemma RectangleBlankAmbiguous()
    ensures Ambiguous(RectangleBlank(), 4, 2)
  {
    var blank := RectangleBlank();
    assert forall i, j :: 0 <= i < 4 && 0 <= j < 4 && blank[i][j] != 0 ==>
      FullGrid()[i][j] == blank[i][j] && SwappedGrid()[i][j] == blank[i][j];
    FullGridSolved();
    SwappedGridSolved();
    SolvedCompletes(blank, FullGrid(), 4, 2);
    SolvedCompletes(blank, SwappedGrid(), 4, 2);
    assert FullGrid()[0][0] != SwappedGrid()[0][0];
  }

  /**
   * As written: a 4-by-4 puzzle, 25 percent missing, uniqueness enforced,
   * any placeholder other than 0 (such as the string "0"). The loop clears
   * all four target cells, yet once the placeholder is read as an empty cell
   * the puzzle has two solutions.
   */
  lemma AmbiguousPuzzleAccepted(p: int)
    requires p != 0 && !(1 <= p <= 4)
    ensures RemovalTarget(4, 25) == 4
    ensures var (puzzle, left) := RemoveRun(FullGrid(), 4, 2, p, true, 4, RectanglePicks());
      && left == 0
      && IsSquare(puzzle, 4)
      && Ambiguous(Replace(puzzle, p, 0), 4, 2)
  {
    RectangleRun(p);
    RectangleReplaced(p);
    RectangleBlankAmbiguous();
  }

  /**
   * As written, with a placeholder other than 0: drawing the same filled
   * cell twice counts twice, so a target of two leaves one placeholder.
   */
  lemma RepeatedDrawCountsTwice(g: Grid, n: nat, s: nat, p: int)
    requires IsSquare(g, n) && 0 < n && 0 < s && g[0][0] != 0 && p != 0
    ensures PicksInRange([(0, 0), (0, 0)], n)
    ensures RemoveRun(g, n, s, p, false, 2, [(0, 0), (0, 0)]) == (Place(g, 0, 0, p), 0)
    ensures g[0][0] != p ==> Occurrences(Place(g, 0, 0, p), p) == Occurrences(g, p) + 1
  {
    var h := Place(g, 0, 0, p);
    PlaceTwice(g, 0, 0, p, p);
    assert [(0, 0), (0, 0)][1..] == [(0, 0)];
    assert RemoveRun(h, n, s, p, false, 1, [(0, 0)]) == (h, 0);
    OccurrencesPlace(g, 0, 0, p, p);
  }

  /**
   * From a solved grid, the intended removal puts the placeholder on exactly
   * as many cells as it counted, leaves every other cell as it was, keeps
   * the puzzle consistent, and with the check on leaves a puzzle whose only
   * solution is the grid it started from.
   */
  lemma IntendedRemovalCorrect(g: Grid, n: nat, s: nat, p: int, enforce: bool, count: int, picks: seq<(int, int)>)
    requires 0 < s && Solved(g, n, s) && PicksInRange(picks, n) && !(1 <= p <= n)
    ensures var (puzzle, left) := IntendedRemoval(g, n, s, p, enforce, count, picks);
      var blank := RemoveRun(g, n, s, 0, enforce, count, picks).0;
      && IsSquare(puzzle, n) && IsSquare(blank, n)
      && (count > 0 ==> 0 <= left <= count)
      && Occurrences(puzzle, p) == count - left
      && (forall i, j :: 0 <= i < n && 0 <= j < n ==>
            (puzzle[i][j] == p <==> blank[i][j] == 0) && (puzzle[i][j] != p ==> puzzle[i][j] == g[i][j]))
      && Consistent(puzzle, n, s)
      && IsCompletion(blank, g, n, s)
      && (enforce ==> UniquelyCompletable(blank, n, s))
  {
    var (blank, left) := RemoveRun(g, n, s, 0, enforce, count, picks);
    RemoveRunFrame(g, n, s, 0, enforce, count, picks);
    RemoveRunPlaceholders(g, n, s, 0, enforce, count, picks);
    var puzzle := Replace(blank, 0, p);
    OccurrencesAbsent(g, 0);
    if p != 0 {
      OccurrencesAbsent(blank, p);
      OccurrencesReplace(blank, 0, p);
    } else {
      assert forall i :: 0 <= i < n ==> puzzle[i] == blank[i];
      assert puzzle == blank;
    }
    forall i, j | 0 <= i < n && 0 <= j < n
      ensures puzzle[i][j] == g[i][j] || (g[i][j] != 0 && puzzle[i][j] == p)
    {
      assert blank[i][j] == g[i][j] || blank[i][j] == 0;
    }
    ThinnedConsistent(g, puzzle, n, s, p);
    SolvedCompletes(blank, g, n, s);
    if enforce {
      ZeroFreeUnique(g, n, s);
      RemoveRunKeepsUnique(g, n, s, 0, count, picks);
    }
  }

  /**
   * The corrected removal with the check off, from a solved grid: the counter
   * ends at the target less the number of different cells drawn, or at 0, and
   * the puzzle holds the placeholder on that many cells, so the target number
   * of cells is cleared as soon as the draws reach that many different cells.
   */
  lemma IntendedRemovalReachesTarget(g: Grid, n: nat, s: nat, p: int, count: int, picks: seq<(int, int)>)
    requires 0 < s && Solved(g, n, s) && PicksInRange(picks, n) && !(1 <= p <= n) && count > 0
    ensures var (puzzle, left) := IntendedRemoval(g, n, s, p, false, count, picks);
      var k := |set m | m in picks|;
      && left == (if k >= count then 0 else count - k)
      && Occurrences(puzzle, p) == (if k >= count then count else k)
  {
    assert ZeroFree(g);
    FilledDrawnAll(g, n, picks);
    IntendedRemovalCorrect(g, n, s, p, false, count, picks);
  }
}
