/**
 * What the engine's backtracking search counts. A completion of a grid fills
 * every empty cell (0) with a value in 1..n that differs from all of the
 * cell's peers and leaves every other cell alone. `Count` is the number of
 * leaves of the search tree the engine walks (first empty cell in row-major
 * order, candidates 1..n that pass the legality test). The lemmas show that
 * this number is at least one exactly when a completion exists, and at least
 * two exactly when two different completions exist.
 */
module Solutions {
  import opened Wrappers
  import opened Rules

  /** Cell (i, j) of h completes cell (i, j) of g. */
  ghost predicate CellCompleted(g: Grid, h: Grid, n: nat, s: nat, i: nat, j: nat)
    requires IsSquare(g, n) && IsSquare(h, n) && 0 < s && i < n && j < n
  {
    if g[i][j] != 0 then h[i][j] == g[i][j]
    else
      && 1 <= h[i][j] <= n
      && forall i2, j2 :: 0 <= i2 < n && 0 <= j2 < n && Peers(s, i, j, i2, j2) ==> h[i2][j2] != h[i][j]
  }

  /** h is g with every empty cell legally filled. */
  ghost predicate IsCompletion(g: Grid, h: Grid, n: nat, s: nat)
    requires IsSquare(g, n) && 0 < s
  {
    IsSquare(h, n) && forall i, j :: 0 <= i < n && 0 <= j < n ==> CellCompleted(g, h, n, s, i, j)
  }

  ghost predicate Completable(g: Grid, n: nat, s: nat)
    requires IsSquare(g, n) && 0 < s
  {
    exists h :: IsCompletion(g, h, n, s)
  }

  /** Two different completions exist. */
  ghost predicate Ambiguous(g: Grid, n: nat, s: nat)
    requires IsSquare(g, n) && 0 < s
  {
    exists h1, h2 :: IsCompletion(g, h1, n, s) && IsCompletion(g, h2, n, s) && h1 != h2
  }

  /** Exactly one completion exists. */
  ghost predicate UniquelyCompletable(g: Grid, n: nat, s: nat)
    requires IsSquare(g, n) && 0 < s
  {
    exists h :: IsCompletion(g, h, n, s) && forall h' :: IsCompletion(g, h', n, s) ==> h' == h
  }

  /** Number of leaves of the full search tree below g (no early exit). */
  ghost function Count(g: Grid, n: nat, s: nat): nat
    requires IsSquare(g, n) && 0 < s
    decreases ZeroCount(g), n + 1
  {
    match FirstZero(g)
    case None => 1
    case Some((r, c)) => Branches(g, n, s, r, c, 1)
  }

  /** Leaves below the candidates v, v + 1, .., n for the empty cell (r, c). */
  ghost function Branches(g: Grid, n: nat, s: nat, r: nat, c: nat, v: nat): nat
    requires IsSquare(g, n) && 0 < s && r < n && c < n && g[r][c] == 0 && 1 <= v
    decreases ZeroCount(g), n + 1 - v
  {
    if v > n then 0
    else
      var here := if Safe(g, n, s, r, c, v) then (PlaceFillsZero(g, r, c, v); Count(Place(g, r, c, v), n, s)) else 0;
      here + Branches(g, n, s, r, c, v + 1)
  }

  lemma CountZeroFree(g: Grid, n: nat, s: nat)
    requires IsSquare(g, n) && 0 < s && FirstZero(g).None?
    ensures Count(g, n, s) == 1
  {
  }

  lemma CountAtFirstZero(g: Grid, n: nat, s: nat, r: nat, c: nat)
    requires IsSquare(g, n) && 0 < s && FirstZero(g) == Some((r, c))
    ensures r < n && c < n && g[r][c] == 0
    ensures Count(g, n, s) == Branches(g, n, s, r, c, 1)
  {
  }

  /** Leaves below the single candidate v for the empty cell (r, c): none when v is not legal there. */
  ghost function Branch(g: Grid, n: nat, s: nat, r: nat, c: nat, v: nat): nat
    requires IsSquare(g, n) && 0 < s && r < n && c < n && g[r][c] == 0 && 1 <= v <= n
  {
    if Safe(g, n, s, r, c, v) then Count(Place(g, r, c, v), n, s) else 0
  }

  lemma BranchesStep(g: Grid, n: nat, s: nat, r: nat, c: nat, v: nat)
    requires IsSquare(g, n) && 0 < s && r < n && c < n && g[r][c] == 0 && 1 <= v <= n
    ensures Branches(g, n, s, r, c, v) == Branch(g, n, s, r, c, v) + Branches(g, n, s, r, c, v + 1)
  {
  }

  /** A completion of the grid after a legal placement completes the grid before it. */
  lemma LiftCompletion(g: Grid, n: nat, s: nat, r: nat, c: nat, v: int, h: Grid)
    requires IsSquare(g, n) && 0 < s && r < n && c < n && g[r][c] == 0
    requires 1 <= v <= n && Safe(g, n, s, r, c, v)
    requires IsCompletion(Place(g, r, c, v), h, n, s)
    ensures IsCompletion(g, h, n, s) && h[r][c] == v
  {
    var g' := Place(g, r, c, v);
    assert CellCompleted(g', h, n, s, r, c);
    forall i, j | 0 <= i < n && 0 <= j < n
      ensures CellCompleted(g, h, n, s, i, j)
    {
      assert CellCompleted(g', h, n, s, i, j);
      if i == r && j == c {
        forall i2, j2 | 0 <= i2 < n && 0 <= j2 < n && Peers(s, i, j, i2, j2)
          ensures h[i2][j2] != h[i][j]
        {
          assert CellCompleted(g', h, n, s, i2, j2);
          if g[i2][j2] == 0 {
            assert Peers(s, i2, j2, i, j);
          } else if i2 == r {
            assert g[r][j2] != v;
          } else if j2 == c {
            assert g[i2][c] != v;
          } else {
            assert SameBlock(s, r, c, i2, j2);
          }
        }
      }
    }
  }

  /** A completion passes the legality test at each empty cell and completes the grid with that cell placed. */
  lemma LowerCompletion(g: Grid, n: nat, s: nat, r: nat, c: nat, h: Grid)
    requires IsSquare(g, n) && 0 < s && r < n && c < n && g[r][c] == 0
    requires IsCompletion(g, h, n, s)
    ensures 1 <= h[r][c] <= n && Safe(g, n, s, r, c, h[r][c])
    ensures IsCompletion(Place(g, r, c, h[r][c]), h, n, s)
  {
    var v := h[r][c];
    assert CellCompleted(g, h, n, s, r, c);
    forall x | 0 <= x < n
      ensures g[r][x] != v && g[x][c] != v
    {
      assert CellCompleted(g, h, n, s, r, x);
      assert CellCompleted(g, h, n, s, x, c);
      if x != c { assert Peers(s, r, c, r, x); }
      if x != r { assert Peers(s, r, c, x, c); }
    }
    forall i, j | 0 <= i < n && 0 <= j < n && SameBlock(s, r, c, i, j)
      ensures g[i][j] != v
    {
      assert CellCompleted(g, h, n, s, i, j);
      if i != r || j != c { assert Peers(s, r, c, i, j); }
    }
    var g' := Place(g, r, c, v);
    forall i, j | 0 <= i < n && 0 <= j < n
      ensures CellCompleted(g', h, n, s, i, j)
    {
      assert CellCompleted(g, h, n, s, i, j);
    }
  }

  /** A grid without empty cells is its own and only completion. */
  lemma ZeroFreeCompletion(g: Grid, n: nat, s: nat)
    requires IsSquare(g, n) && 0 < s && ZeroFree(g)
    ensures IsCompletion(g, g, n, s)
    ensures forall h :: IsCompletion(g, h, n, s) ==> h == g
  {
    forall i, j | 0 <= i < n && 0 <= j < n
      ensures CellCompleted(g, g, n, s, i, j)
    {
    }
    forall h | IsCompletion(g, h, n, s)
      ensures h == g
    {
      forall i | 0 <= i < n
        ensures h[i] == g[i]
      {
        forall j | 0 <= j < n
          ensures h[i][j] == g[i][j]
        {
          assert CellCompleted(g, h, n, s, i, j);
        }
      }
    }
  }

  lemma {:induction false} BranchesAtLeast(g: Grid, n: nat, s: nat, r: nat, c: nat, v: nat, w: nat)
    requires IsSquare(g, n) && 0 < s && r < n && c < n && g[r][c] == 0
    requires 1 <= v <= w <= n && Safe(g, n, s, r, c, w)
    ensures Branches(g, n, s, r, c, v) >= Count(Place(g, r, c, w), n, s)
    decreases w - v
  {
    if v < w {
      BranchesAtLeast(g, n, s, r, c, v + 1, w);
    }
  }

  lemma {:induction false} BranchesAtLeastTwo(g: Grid, n: nat, s: nat, r: nat, c: nat, v: nat, w1: nat, w2: nat)
    requires IsSquare(g, n) && 0 < s && r < n && c < n && g[r][c] == 0
    requires 1 <= v <= w1 < w2 <= n && Safe(g, n, s, r, c, w1) && Safe(g, n, s, r, c, w2)
    ensures Branches(g, n, s, r, c, v) >= Count(Place(g, r, c, w1), n, s) + Count(Place(g, r, c, w2), n, s)
    decreases w1 - v
  {
    if v < w1 {
      BranchesAtLeastTwo(g, n, s, r, c, v + 1, w1, w2);
    } else {
      BranchesAtLeast(g, n, s, r, c, v + 1, w2);
    }
  }

  lemma {:induction false} PositiveBranch(g: Grid, n: nat, s: nat, r: nat, c: nat, v: nat) returns (w: nat)
    requires IsSquare(g, n) && 0 < s && r < n && c < n && g[r][c] == 0 && 1 <= v
    requires Branches(g, n, s, r, c, v) >= 1
    ensures v <= w <= n && Safe(g, n, s, r, c, w) && Count(Place(g, r, c, w), n, s) >= 1
    decreases n + 1 - v
  {
    if Safe(g, n, s, r, c, v) && Count(Place(g, r, c, v), n, s) >= 1 {
      w := v;
    } else {
      w := PositiveBranch(g, n, s, r, c, v + 1);
    }
  }

  lemma {:induction false} TwoBranches(g: Grid, n: nat, s: nat, r: nat, c: nat, v: nat) returns (w1: nat, w2: nat)
    requires IsSquare(g, n) && 0 < s && r < n && c < n && g[r][c] == 0 && 1 <= v
    requires Branches(g, n, s, r, c, v) >= 2
    ensures v <= w1 <= w2 <= n && Safe(g, n, s, r, c, w1) && Safe(g, n, s, r, c, w2)
    ensures w1 == w2 ==> Count(Place(g, r, c, w1), n, s) >= 2
    ensures w1 != w2 ==> Count(Place(g, r, c, w1), n, s) >= 1 && Count(Place(g, r, c, w2), n, s) >= 1
    decreases n + 1 - v
  {
    if Safe(g, n, s, r, c, v) && Count(Place(g, r, c, v), n, s) >= 1 {
      if Count(Place(g, r, c, v), n, s) >= 2 {
        w1, w2 := v, v;
      } else {
        w1 := v;
        w2 := PositiveBranch(g, n, s, r, c, v + 1);
      }
    } else {
      w1, w2 := TwoBranches(g, n, s, r, c, v + 1);
    }
  }

  /** The search finds at least one leaf exactly when the grid has a completion. */
  lemma {:induction false} CountPositive(g: Grid, n: nat, s: nat)
    requires IsSquare(g, n) && 0 < s
    ensures Count(g, n, s) >= 1 <==> Completable(g, n, s)
    decreases ZeroCount(g)
  {
    match FirstZero(g)
    case None =>
      ZeroFreeCompletion(g, n, s);
    case Some((r, c)) =>
      if Count(g, n, s) >= 1 {
        var w := PositiveBranch(g, n, s, r, c, 1);
        var g' := Place(g, r, c, w);
        PlaceFillsZero(g, r, c, w);
        CountPositive(g', n, s);
        var h :| IsCompletion(g', h, n, s);
        LiftCompletion(g, n, s, r, c, w, h);
      }
      if Completable(g, n, s) {
        var h :| IsCompletion(g, h, n, s);
        LowerCompletion(g, n, s, r, c, h);
        var w := h[r][c];
        PlaceFillsZero(g, r, c, w);
        CountPositive(Place(g, r, c, w), n, s);
        BranchesAtLeast(g, n, s, r, c, 1, w);
      }
  }

  /** Two leaves of the search are two different completions. */
  lemma {:induction false} AmbiguousFromCount(g: Grid, n: nat, s: nat)
    requires IsSquare(g, n) && 0 < s && Count(g, n, s) >= 2
    ensures Ambiguous(g, n, s)
    decreases ZeroCount(g)
  {
    match FirstZero(g)
    case None =>
    case Some((r, c)) =>
      var w1, w2 := TwoBranches(g, n, s, r, c, 1);
      var g1, g2 := Place(g, r, c, w1), Place(g, r, c, w2);
      PlaceFillsZero(g, r, c, w1);
      PlaceFillsZero(g, r, c, w2);
      if w1 == w2 {
        AmbiguousFromCount(g1, n, s);
        var h1, h2 :| IsCompletion(g1, h1, n, s) && IsCompletion(g1, h2, n, s) && h1 != h2;
        LiftCompletion(g, n, s, r, c, w1, h1);
        LiftCompletion(g, n, s, r, c, w1, h2);
      } else {
        CountPositive(g1, n, s);
        CountPositive(g2, n, s);
        var h1 :| IsCompletion(g1, h1, n, s);
        var h2 :| IsCompletion(g2, h2, n, s);
        LiftCompletion(g, n, s, r, c, w1, h1);
        LiftCompletion(g, n, s, r, c, w2, h2);
        assert h1[r][c] != h2[r][c];
      }
  }

  /** Two different completions are found as two leaves of the search. */
  lemma {:induction false} CountFromAmbiguous(g: Grid, n: nat, s: nat)
    requires IsSquare(g, n) && 0 < s && Ambiguous(g, n, s)
    ensures Count(g, n, s) >= 2
    decreases ZeroCount(g)
  {
    var h1, h2 :| IsCompletion(g, h1, n, s) && IsCompletion(g, h2, n, s) && h1 != h2;
    match FirstZero(g)
    case None =>
      ZeroFreeCompletion(g, n, s);
      assert false;
    case Some((r, c)) =>
      LowerCompletion(g, n, s, r, c, h1);
      LowerCompletion(g, n, s, r, c, h2);
      var w1, w2 := h1[r][c], h2[r][c];
      var g1, g2 := Place(g, r, c, w1), Place(g, r, c, w2);
      PlaceFillsZero(g, r, c, w1);
      PlaceFillsZero(g, r, c, w2);
      if w1 == w2 {
        CountFromAmbiguous(g1, n, s);
        BranchesAtLeast(g, n, s, r, c, 1, w1);
      } else {
        CountPositive(g1, n, s);
        CountPositive(g2, n, s);
        if w1 < w2 {
          BranchesAtLeastTwo(g, n, s, r, c, 1, w1, w2);
        } else {
          BranchesAtLeastTwo(g, n, s, r, c, 1, w2, w1);
        }
      }
  }

  /** The search finds a second leaf exactly when the grid has two different completions. */
  lemma CountAtLeastTwo(g: Grid, n: nat, s: nat)
    requires IsSquare(g, n) && 0 < s
    ensures Count(g, n, s) >= 2 <==> Ambiguous(g, n, s)
  {
    if Count(g, n, s) >= 2 {
      AmbiguousFromCount(g, n, s);
    }
    if Ambiguous(g, n, s) {
      CountFromAmbiguous(g, n, s);
    }
  }

  /** The search finds exactly one leaf exactly when the grid has exactly one completion. */
  lemma CountOneIffUnique(g: Grid, n: nat, s: nat)
    requires IsSquare(g, n) && 0 < s
    ensures Count(g, n, s) == 1 <==> UniquelyCompletable(g, n, s)
  {
    CountPositive(g, n, s);
    CountAtLeastTwo(g, n, s);
    if Count(g, n, s) == 1 {
      var h :| IsCompletion(g, h, n, s);
      forall h' | IsCompletion(g, h', n, s)
        ensures h' == h
      {
      }
    }
    if UniquelyCompletable(g, n, s) {
      var h :| IsCompletion(g, h, n, s) && forall h' :: IsCompletion(g, h', n, s) ==> h' == h;
      forall h1, h2 | IsCompletion(g, h1, n, s) && IsCompletion(g, h2, n, s)
        ensures h1 == h2
      {
      }
    }
  }
  /** Every cell holds the empty marker or a value in 1..n. */
  ghost predicate Numeric(g: Grid, n: nat)
    requires IsSquare(g, n)
  {
    forall i, j :: 0 <= i < n && 0 <= j < n ==> 0 <= g[i][j] <= n
  }

  /** Completing a consistent grid of numbers gives a solved puzzle. */
  lemma CompletionSolves(g: Grid, h: Grid, n: nat, s: nat)
    requires IsSquare(g, n) && 0 < s && Numeric(g, n) && Consistent(g, n, s)
    requires IsCompletion(g, h, n, s)
    ensures Solved(h, n, s)
  {
    forall i, j | 0 <= i < n && 0 <= j < n
      ensures 1 <= h[i][j] <= n
    {
      assert CellCompleted(g, h, n, s, i, j);
    }
    forall i, j, i2, j2 | 0 <= i < n && 0 <= j < n && 0 <= i2 < n && 0 <= j2 < n &&
                          Peers(s, i, j, i2, j2) && 1 <= h[i][j] <= n
      ensures h[i][j] != h[i2][j2]
    {
      assert CellCompleted(g, h, n, s, i, j);
      assert CellCompleted(g, h, n, s, i2, j2);
      assert Peers(s, i2, j2, i, j);
    }
  }

  /** A solved puzzle that agrees with g on g's filled cells is a completion of g. */
  lemma SolvedCompletes(g: Grid, h: Grid, n: nat, s: nat)
    requires IsSquare(g, n) && 0 < s && Solved(h, n, s)
    requires forall i, j :: 0 <= i < n && 0 <= j < n && g[i][j] != 0 ==> h[i][j] == g[i][j]
    ensures IsCompletion(g, h, n, s)
  {
    forall i, j | 0 <= i < n && 0 <= j < n
      ensures CellCompleted(g, h, n, s, i, j)
    {
    }
  }
}
