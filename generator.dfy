/**
 * The puzzle engine: a generator object that owns one grid and fills it by
 * randomized backtracking, counts solutions by bounded backtracking, and
 * clears cells with an optional uniqueness check and rollback.
 *
 * Randomness is supplied by the caller: `order(k)` is the candidate order the
 * k-th call of the filler uses (a permutation of 1..n, as a shuffle yields),
 * and `picks` is the sequence of cells the removal loop draws.
 */
module Generator {
  import opened Wrappers
  import opened Rules
  import opened Solutions

  /** p lists each of 1..n once: a shuffled candidate list. */
  predicate IsOrder(p: seq<int>, n: nat) {
    && |p| == n
    && (forall k :: 0 <= k < |p| ==> 1 <= p[k] <= n)
    && (forall v :: 1 <= v <= n ==> v in p)
  }

  /**
   * A grid with a completion has, in any candidate order for its empty cell
   * (r, c), a legal candidate whose placement still has a completion.
   */
  lemma CompletingCandidate(g: Grid, n: nat, s: nat, r: nat, c: nat, nums: seq<int>) returns (m: nat)
    requires IsSquare(g, n) && 0 < s && r < n && c < n && g[r][c] == 0
    requires IsOrder(nums, n) && Completable(g, n, s)
    ensures m < |nums| && Safe(g, n, s, r, c, nums[m]) && Completable(Place(g, r, c, nums[m]), n, s)
  {
    var h :| IsCompletion(g, h, n, s);
    LowerCompletion(g, n, s, r, c, h);
    assert h[r][c] in nums;
    var k :| 0 <= k < |nums| && nums[k] == h[r][c];
    m := k;
  }

  /** Every pick is a cell of an n-by-n grid. */
  predicate PicksInRange(picks: seq<(int, int)>, n: nat) {
    forall k :: 0 <= k < |picks| ==> 0 <= picks[k].0 < n && 0 <= picks[k].1 < n
  }

  function Min(a: int, b: int): int {
    if a <= b then a else b
  }

  /**
   * One branch of the capped count: the counter before it, the branch's own
   * leaves, and the later branches' leaves. Once the capped counter after the
   * branch passes 1 it is the final answer; otherwise it is exact.
   */
  lemma SolveStep(before: nat, here: nat, rest: nat, after: nat, total: int)
    requires total == Min(before + here + rest, 2) && after == Min(before + here, 2)
    ensures after > 1 ==> total == after
    ensures after <= 1 ==> after == before + here && total == Min(after + rest, 2)
  {
  }

  /**
   * The number of cells to clear: the product n * n * percent divided by 100
   * and truncated toward zero, as the float division and int() conversion do.
   */
  function RemovalTarget(n: nat, percent: int): (t: int)
    ensures 0 <= percent ==> 0 <= t && 100 * t <= n * n * percent < 100 * t + 100
    ensures percent <= 0 ==> t <= 0
    ensures 0 <= percent <= 100 ==> t <= n * n
  {
    var product := n * n * percent;
    if product >= 0 then product / 100 else -((-product) / 100)
  }

  /**
   * One draw of the removal loop at cell (r, c): a cell holding 0 is skipped;
   * otherwise the cell takes the placeholder and the draw counts, unless the
   * uniqueness check is on and fails, in which case the cell gets its value back.
   */
  ghost function RemoveStep(g: Grid, n: nat, s: nat, p: int, enforce: bool, r: nat, c: nat): (res: (Grid, bool))
    requires IsSquare(g, n) && 0 < s && r < n && c < n
    ensures IsSquare(res.0, n)
    ensures res.1 <==> g[r][c] != 0 && (!enforce || UniquelyCompletable(Place(g, r, c, p), n, s))
    ensures res.1 ==> res.0 == Place(g, r, c, p) && (enforce ==> UniquelyCompletable(res.0, n, s))
    ensures !res.1 ==> res.0 == g
  {
    if g[r][c] == 0 then (g, false)
    else
      var h := Place(g, r, c, p);
      if enforce && !UniquelyCompletable(h, n, s) then (g, false) else (h, true)
  }

  /** The removal loop over a finite sequence of draws: the grid and the counter it ends with. */
  ghost function RemoveRun(g: Grid, n: nat, s: nat, p: int, enforce: bool, count: int, picks: seq<(int, int)>): (res: (Grid, int))
    requires IsSquare(g, n) && 0 < s && PicksInRange(picks, n)
    ensures IsSquare(res.0, n)
    ensures res.1 <= count && (count > 0 ==> 0 <= res.1 && count - res.1 <= |picks|)
    ensures res.1 == count ==> res.0 == g
    decreases |picks|
  {
    if count <= 0 || picks == [] then (g, count)
    else
      var (h, counted) := RemoveStep(g, n, s, p, enforce, picks[0].0, picks[0].1);
      RemoveRun(h, n, s, p, enforce, if counted then count - 1 else count, picks[1..])
  }

  /**
   * The intended removal: run the loop with 0 as the mark of a cleared cell,
   * then write the placeholder into every cleared cell.
   */
  ghost function IntendedRemoval(g: Grid, n: nat, s: nat, p: int, enforce: bool, count: int, picks: seq<(int, int)>): (res: (Grid, int))
    requires IsSquare(g, n) && 0 < s && PicksInRange(picks, n)
    ensures IsSquare(res.0, n)
    ensures res.1 <= count && (count > 0 ==> 0 <= res.1 && count - res.1 <= |picks|)
    ensures forall i, j :: 0 <= i < n && 0 <= j < n ==> res.0[i][j] != 0 || p == 0 || g[i][j] == 0
    ensures !enforce && count > 0 ==>
      var k := |FilledDrawn(g, n, picks)|;
      res.1 == if k >= count then 0 else count - k
  {
    var (blank, left) := RemoveRun(g, n, s, 0, enforce, count, picks);
    if !enforce && count > 0 then
      RemoveRunCounts(g, n, s, count, picks);
      (Replace(blank, 0, p), left)
    else
      (Replace(blank, 0, p), left)
  }

  /** The filled cells of g among the draws, each once. */
  ghost function FilledDrawn(g: Grid, n: nat, picks: seq<(int, int)>): set<(int, int)>
    requires IsSquare(g, n) && PicksInRange(picks, n)
    decreases |picks|
  {
    if picks == [] then {}
    else
      var (r, c) := picks[0];
      assert PicksInRange(picks[1..], n);
      (if g[r][c] != 0 then {(r, c)} else {}) + FilledDrawn(g, n, picks[1..])
  }

  /** In a grid without empty cells, the filled cells drawn are all the cells drawn. */
  lemma {:induction false} FilledDrawnAll(g: Grid, n: nat, picks: seq<(int, int)>)
    requires IsSquare(g, n) && PicksInRange(picks, n) && ZeroFree(g)
    ensures FilledDrawn(g, n, picks) == set m | m in picks
    decreases |picks|
  {
    if picks != [] {
      assert PicksInRange(picks[1..], n);
      FilledDrawnAll(g, n, picks[1..]);
      assert (set m | m in picks) == {picks[0]} + (set m | m in picks[1..]);
    }
  }

  /** Emptying cell (r, c) takes exactly that cell out of the filled cells drawn. */
  lemma {:induction false} FilledDrawnClear(g: Grid, n: nat, picks: seq<(int, int)>, r: nat, c: nat)
    requires IsSquare(g, n) && PicksInRange(picks, n) && r < n && c < n
    ensures FilledDrawn(Place(g, r, c, 0), n, picks) == FilledDrawn(g, n, picks) - {(r, c)}
    decreases |picks|
  {
    if picks != [] {
      assert PicksInRange(picks[1..], n);
      FilledDrawnClear(g, n, picks[1..], r, c);
    }
  }

  /**
   * With the uniqueness check off and 0 as the mark of a cleared cell, every
   * draw at a filled cell clears it and counts, and a cell once cleared never
   * counts again: the counter ends at its start minus the number of different
   * filled cells drawn, or at 0 if there are at least as many of those.
   */
  lemma {:induction false} RemoveRunCounts(g: Grid, n: nat, s: nat, count: int, picks: seq<(int, int)>)
    requires IsSquare(g, n) && 0 < s && PicksInRange(picks, n) && count > 0
    ensures var k := |FilledDrawn(g, n, picks)|;
      RemoveRun(g, n, s, 0, false, count, picks).1 == if k >= count then 0 else count - k
    decreases |picks|
  {
    if picks != [] {
      var (r, c) := picks[0];
      var rest := picks[1..];
      assert PicksInRange(rest, n);
      var filled := FilledDrawn(g, n, rest);
      if g[r][c] == 0 {
        assert FilledDrawn(g, n, picks) == filled;
        RemoveRunCounts(g, n, s, count, rest);
      } else {
        var h := Place(g, r, c, 0);
        assert RemoveRun(g, n, s, 0, false, count, picks) == RemoveRun(h, n, s, 0, false, count - 1, rest);
        assert |FilledDrawn(g, n, picks)| == |FilledDrawn(h, n, rest)| + 1 by {
          FilledDrawnClear(g, n, rest, r, c);
          var others := filled - {(r, c)};
          assert FilledDrawn(g, n, picks) == others + {(r, c)};
        }
        if count > 1 {
          RemoveRunCounts(h, n, s, count - 1, rest);
        }
      }
    }
  }

  class SudokuGenerator {
    const gridSize: nat
    const subGridSize: nat
    const placeholder: int
    const enforceUnique: bool
    var grid: Grid

    /**
     * Blocks tile the grid (the legality test indexes the whole block) and the
     * placeholder is not a number a cell can be filled with.
     */
    ghost predicate Valid()
      reads this
    {
      && 0 < subGridSize && gridSize % subGridSize == 0
      && !(1 <= placeholder <= gridSize)
      && IsSquare(grid, gridSize)
    }

    constructor (gridSize: nat, subGridSize: nat, placeholder: int, enforceUnique: bool)
      requires 0 < subGridSize && gridSize % subGridSize == 0
      requires !(1 <= placeholder <= gridSize)
      ensures Valid()
      ensures this.gridSize == gridSize && this.subGridSize == subGridSize
      ensures this.placeholder == placeholder && this.enforceUnique == enforceUnique
      ensures grid == Empty(gridSize)
    {
      this.gridSize := gridSize;
      this.subGridSize := subGridSize;
      this.placeholder := placeholder;
      this.enforceUnique := enforceUnique;
      this.grid := Empty(gridSize);
    }

    /** The legality test: num is absent from the row, the column and the block of (row, col). */
    method IsSafe(row: nat, col: nat, num: int) returns (safe: bool)
      requires Valid() && row < gridSize && col < gridSize
      ensures safe <==> Safe(grid, gridSize, subGridSize, row, col, num)
    {
      var x := 0;
      while x < gridSize
        invariant 0 <= x <= gridSize
        invariant forall y :: 0 <= y < x ==> grid[row][y] != num && grid[y][col] != num
      {
        if grid[row][x] == num || grid[x][col] == num {
          return false;
        }
        x := x + 1;
      }
      var startRow, startCol := BlockOrigin(subGridSize, row), BlockOrigin(subGridSize, col);
      BlockFits(subGridSize, gridSize, row);
      BlockFits(subGridSize, gridSize, col);
      var i := 0;
      while i < subGridSize
        invariant 0 <= i <= subGridSize
        invariant forall a, b :: startRow <= a < startRow + i && startCol <= b < startCol + subGridSize ==> grid[a][b] != num
      {
        var cells := grid[startRow + i];
        var j := 0;
        while j < subGridSize
          invariant 0 <= j <= subGridSize
          invariant forall a, b :: startRow <= a < startRow + i && startCol <= b < startCol + subGridSize ==> grid[a][b] != num
          invariant forall b :: startCol <= b < startCol + j ==> cells[b] != num
        {
          if cells[startCol + j] == num {
            BlockBand(subGridSize, row, startRow + i);
            BlockBand(subGridSize, col, startCol + j);
            assert SameBlock(subGridSize, row, col, startRow + i, startCol + j);
            return false;
          }
          j := j + 1;
        }
        i := i + 1;
      }
      forall a, b | 0 <= a < gridSize && 0 <= b < gridSize && SameBlock(subGridSize, row, col, a, b)
        ensures grid[a][b] != num
      {
        BlockBand(subGridSize, row, a);
        BlockBand(subGridSize, col, b);
      }
      return true;
    }

    /** The first cell holding 0 in row-major order, or None when no cell holds 0. */
    method FindEmptyCell() returns (cell: Option<(nat, nat)>)
      requires Valid()
      ensures cell.None? <==> ZeroFree(grid)
      ensures cell.Some? ==> IsFirstZero(grid, cell.value.0, cell.value.1)
      ensures cell == FirstZero(grid)
    {
      var row := 0;
      while row < gridSize
        invariant 0 <= row <= gridSize
        invariant forall i, j :: 0 <= i < row && 0 <= j < gridSize ==> grid[i][j] != 0
      {
        var col := 0;
        while col < gridSize
          invariant 0 <= col <= gridSize
          invariant forall j :: 0 <= j < col ==> grid[row][j] != 0
        {
          if grid[row][col] == 0 {
            FirstZeroUnique(grid, row, col);
            return Some((row, col));
          }
          col := col + 1;
        }
        row := row + 1;
      }
      return None;
    }

    /**
     * Randomized backtracking filler. Each call that finds an empty cell uses
     * the next candidate order. It succeeds exactly when the grid it starts
     * from has a completion; on success the grid is such a completion, and on
     * failure the grid is as it was, every placement having been undone.
     */
    method FillGrid(order: nat -> seq<int>, next: nat) returns (filled: bool, next': nat)
      requires Valid()
      requires forall k :: IsOrder(order(k), gridSize)
      modifies this
      ensures Valid() && next <= next'
      ensures filled <==> Completable(old(grid), gridSize, subGridSize)
      ensures filled ==> IsCompletion(old(grid), grid, gridSize, subGridSize)
      ensures !filled ==> grid == old(grid)
      decreases ZeroCount(grid)
    {
      var cell := FindEmptyCell();
      if cell.None? {
        ZeroFreeCompletion(grid, gridSize, subGridSize);
        return true, next;
      }
      var (row, col) := cell.value;
      var nums := order(next);
      assert IsOrder(nums, gridSize);
      next' := next + 1;
      ghost var g0 := grid;
      var k := 0;
      while k < |nums|
        invariant 0 <= k <= |nums|
        invariant grid == g0 && next < next'
        invariant forall m :: 0 <= m < k && Safe(g0, gridSize, subGridSize, row, col, nums[m]) ==>
                    !Completable(Place(g0, row, col, nums[m]), gridSize, subGridSize)
      {
        var num := nums[k];
        var safe := IsSafe(row, col, num);
        if safe {
          grid := Place(grid, row, col, num);
          PlaceFillsZero(g0, row, col, num);
          filled, next' := FillGrid(order, next');
          if filled {
            LiftCompletion(g0, gridSize, subGridSize, row, col, num, grid);
            return;
          }
          grid := Place(grid, row, col, 0);
          PlaceUndo(g0, row, col, num);
        }
        k := k + 1;
      }
      if Completable(g0, gridSize, subGridSize) {
        var m := CompletingCandidate(g0, gridSize, subGridSize, row, col, nums);
        assert false;
      }
      return false, next';
    }

    /**
     * The inner search of the uniqueness check with its shared counter. It
     * adds the leaves it finds to the counter and stops as soon as the counter
     * passes 1, so it returns the counter plus the number of leaves, capped at 2.
     * Every cell it fills is reset to 0, so the grid is unchanged.
     */
    method Solve(solutions: nat) returns (solutions': nat)
      requires Valid() && solutions <= 1
      modifies this
      ensures Valid() && grid == old(grid)
      ensures solutions' == Min(solutions + Count(old(grid), gridSize, subGridSize), 2)
      decreases ZeroCount(grid), 1
    {
      var cell := FindEmptyCell();
      if cell.None? {
        CountZeroFree(grid, gridSize, subGridSize);
        return solutions + 1;
      }
      var (row, col) := cell.value;
      ghost var g0 := grid;
      CountAtFirstZero(g0, gridSize, subGridSize, row, col);
      ghost var total := Min(solutions + Count(g0, gridSize, subGridSize), 2);
      solutions' := solutions;
      var num := 1;
      while num <= gridSize
        invariant 1 <= num <= gridSize + 1
        invariant grid == g0 && solutions' <= 1
        invariant total == Min(solutions' + Branches(g0, gridSize, subGridSize, row, col, num), 2)
      {
        ghost var before := solutions';
        BranchesStep(g0, gridSize, subGridSize, row, col, num);
        solutions' := TryNumber(row, col, num, solutions');
        SolveStep(before, Branch(g0, gridSize, subGridSize, row, col, num),
                  Branches(g0, gridSize, subGridSize, row, col, num + 1), solutions', total);
        if solutions' > 1 {
          return;
        }
        num := num + 1;
      }
    }

    /**
     * One candidate of the inner search: when num is legal at the empty cell
     * (row, col), the search below that placement adds its leaves to the
     * counter, capped at 2, and the cell is reset to 0.
     */
    method TryNumber(row: nat, col: nat, num: int, solutions: nat) returns (solutions': nat)
      requires Valid() && row < gridSize && col < gridSize && grid[row][col] == 0
      requires 1 <= num <= gridSize && solutions <= 1
      modifies this
      ensures Valid() && grid == old(grid)
      ensures solutions' == Min(solutions + Branch(old(grid), gridSize, subGridSize, row, col, num), 2)
      decreases ZeroCount(grid), 0
    {
      var safe := IsSafe(row, col, num);
      if !safe {
        return solutions;
      }
      ghost var g0 := grid;
      PlaceFillsZero(g0, row, col, num);
      grid := Place(grid, row, col, num);
      solutions' := Solve(solutions);
      grid := Place(grid, row, col, 0);
      PlaceUndo(g0, row, col, num);
    }

    /** True exactly when the grid, read with 0 as the empty cell, has one and only one completion. */
    method HasUniqueSolution() returns (unique: bool)
      requires Valid()
      modifies this
      ensures Valid() && grid == old(grid)
      ensures unique <==> Count(grid, gridSize, subGridSize) == 1
      ensures unique <==> UniquelyCompletable(grid, gridSize, subGridSize)
    {
      var solutions := Solve(0);
      CountOneIffUnique(grid, gridSize, subGridSize);
      unique := solutions == 1;
    }

    /**
     * The removal loop over the supplied draws. It returns the counter, which
     * is still positive only when the draws ran out before the target was met.
     */
    method RemoveNumbers(percent: int, picks: seq<(int, int)>) returns (cellsToRemove: int)
      requires Valid() && PicksInRange(picks, gridSize)
      modifies this
      ensures Valid()
      ensures (grid, cellsToRemove)
           == RemoveRun(old(grid), gridSize, subGridSize, placeholder, enforceUnique, RemovalTarget(gridSize, percent), picks)
    {
      cellsToRemove := RemovalTarget(gridSize, percent);
      var k := 0;
      while cellsToRemove > 0 && k < |picks|
        invariant 0 <= k <= |picks| && Valid()
        invariant RemoveRun(old(grid), gridSize, subGridSize, placeholder, enforceUnique, RemovalTarget(gridSize, percent), picks)
               == RemoveRun(grid, gridSize, subGridSize, placeholder, enforceUnique, cellsToRemove, picks[k..])
      {
        var (row, col) := picks[k];
        assert picks[k..][1..] == picks[k + 1..];
        if grid[row][col] != 0 {
          var backup := grid[row][col];
          ghost var before := grid;
          grid := Place(grid, row, col, placeholder);
          var keep := true;
          if enforceUnique {
            keep := HasUniqueSolution();
          }
          if !keep {
            grid := Place(grid, row, col, backup);
            PlaceUndo(before, row, col, placeholder);
          } else {
            cellsToRemove := cellsToRemove - 1;
          }
        }
        k := k + 1;
      }
    }

    /**
     * The removal as intended: cleared cells hold 0 while the loop runs, so
     * that the filled-cell test and the uniqueness check see them, and the
     * placeholder is written into every cleared cell at the end.
     */
    method RemoveNumbersIntended(percent: int, picks: seq<(int, int)>) returns (cellsToRemove: int)
      requires Valid() && PicksInRange(picks, gridSize)
      modifies this
      ensures Valid()
      ensures (grid, cellsToRemove)
           == IntendedRemoval(old(grid), gridSize, subGridSize, placeholder, enforceUnique, RemovalTarget(gridSize, percent), picks)
    {
      cellsToRemove := RemovalTarget(gridSize, percent);
      var k := 0;
      while cellsToRemove > 0 && k < |picks|
        invariant 0 <= k <= |picks| && Valid()
        invariant RemoveRun(old(grid), gridSize, subGridSize, 0, enforceUnique, RemovalTarget(gridSize, percent), picks)
               == RemoveRun(grid, gridSize, subGridSize, 0, enforceUnique, cellsToRemove, picks[k..])
      {
        var (row, col) := picks[k];
        assert picks[k..][1..] == picks[k + 1..];
        if grid[row][col] != 0 {
          var backup := grid[row][col];
          ghost var before := grid;
          grid := Place(grid, row, col, 0);
          var keep := true;
          if enforceUnique {
            keep := HasUniqueSolution();
          }
          if !keep {
            grid := Place(grid, row, col, backup);
            PlaceUndo(before, row, col, 0);
          } else {
            cellsToRemove := cellsToRemove - 1;
          }
        }
        k := k + 1;
      }
      grid := Replace(grid, 0, placeholder);
    }

    /**
     * Resets the grid to all zeros, fills it and then clears cells. The
     * filler's verdict is not looked at, so when it fails the removal runs on
     * the empty grid. The ghost result is the grid the removal starts from.
     */
    method GeneratePuzzle(percent: int, order: nat -> seq<int>, picks: seq<(int, int)>)
      returns (puzzle: Grid, cellsLeft: int, ghost solution: Grid)
      requires Valid() && PicksInRange(picks, gridSize)
      requires forall k :: IsOrder(order(k), gridSize)
      modifies this
      ensures Valid() && puzzle == grid
      ensures solution == Empty(gridSize) || Solved(solution, gridSize, subGridSize)
      ensures Completable(Empty(gridSize), gridSize, subGridSize) ==> Solved(solution, gridSize, subGridSize)
      ensures (puzzle, cellsLeft)
           == RemoveRun(solution, gridSize, subGridSize, placeholder, enforceUnique, RemovalTarget(gridSize, percent), picks)
    {
      grid := Empty(gridSize);
      var filled, _ := FillGrid(order, 0);
      solution := grid;
      if filled {
        CompletionSolves(Empty(gridSize), grid, gridSize, subGridSize);
      }
      cellsLeft := RemoveNumbers(percent, picks);
      puzzle := grid;
    }
  }

  datatype InitError = PlaceholderIsGridNumber(placeholder: int)

  /**
   * Construction of a generator: a placeholder that is one of the numbers
   * 1..gridSize is refused. The caller supplies sizes in which the blocks tile
   * the grid, as every preset does.
   */
  method NewGenerator(gridSize: nat, subGridSize: nat, placeholder: int, enforceUnique: bool)
    returns (r: Result<SudokuGenerator, InitError>)
    requires 0 < subGridSize && gridSize % subGridSize == 0
    ensures r.Failure? <==> 1 <= placeholder <= gridSize
    ensures r.Failure? ==> r.error == PlaceholderIsGridNumber(placeholder)
    ensures r.Success? ==> fresh(r.value) && r.value.Valid() && r.value.grid == Empty(gridSize)
    ensures r.Success? ==> r.value.gridSize == gridSize && r.value.subGridSize == subGridSize
    ensures r.Success? ==> r.value.placeholder == placeholder && r.value.enforceUnique == enforceUnique
  {
    if 1 <= placeholder <= gridSize {
      return Failure(PlaceholderIsGridNumber(placeholder));
    }
    var g := new SudokuGenerator(gridSize, subGridSize, placeholder, enforceUnique);
    return Success(g);
  }
}
