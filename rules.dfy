/**
 * The constraint model of the puzzle engine, on grid values.
 *
 * A grid is a sequence of rows of integer cells. The engine's empty marker is
 * the integer 0; filled cells hold 1..n; a removed cell holds the placeholder,
 * which is never in 1..n. Blocks are s-by-s squares: cell (i, j) lies in the
 * block numbered (i / s, j / s), whose top-left corner is (s * (i / s), s * (j / s)).
 */
module Rules {
  import opened Wrappers
  import opened Arith

  type Grid = seq<seq<int>>

  /** g has n rows of n cells. */
  predicate IsSquare(g: Grid, n: nat) {
    |g| == n && forall i :: 0 <= i < n ==> |g[i]| == n
  }

  /** The grid with cell (r, c) overwritten by v. */
  function Place(g: Grid, r: nat, c: nat, v: int): (h: Grid)
    requires r < |g| && c < |g[r]|
    ensures |h| == |g| && forall i :: 0 <= i < |g| ==> |h[i]| == |g[i]|
    ensures h[r][c] == v
    ensures forall i, j :: 0 <= i < |g| && 0 <= j < |g[i]| && (i != r || j != c) ==> h[i][j] == g[i][j]
  {
    g[r := g[r][c := v]]
  }

  lemma PlaceSame(g: Grid, r: nat, c: nat)
    requires r < |g| && c < |g[r]|
    ensures Place(g, r, c, g[r][c]) == g
  {
    assert g[r][c := g[r][c]] == g[r];
  }

  lemma PlaceTwice(g: Grid, r: nat, c: nat, v: int, w: int)
    requires r < |g| && c < |g[r]|
    ensures Place(Place(g, r, c, v), r, c, w) == Place(g, r, c, w)
  {
    assert g[r][c := v][c := w] == g[r][c := w];
  }

  /** Writing a cell and then writing its old value back restores the grid. */
  lemma PlaceUndo(g: Grid, r: nat, c: nat, v: int)
    requires r < |g| && c < |g[r]|
    ensures Place(Place(g, r, c, v), r, c, g[r][c]) == g
  {
    PlaceTwice(g, r, c, v, g[r][c]);
    PlaceSame(g, r, c);
  }

  /** Cells (i, j) and (i2, j2) lie in the same s-by-s block. */
  predicate SameBlock(s: nat, i: int, j: int, i2: int, j2: int)
    requires 0 < s
  {
    i / s == i2 / s && j / s == j2 / s
  }

  /** Two distinct cells that share a row, a column or a block. */
  predicate Peers(s: nat, i: int, j: int, i2: int, j2: int)
    requires 0 < s
  {
    (i != i2 || j != j2) && (i == i2 || j == j2 || SameBlock(s, i, j, i2, j2))
  }

  /**
   * The legality test of the engine: v occurs nowhere in row r, nowhere in
   * column c and nowhere in the block of (r, c). The cell (r, c) itself is
   * inspected too.
   */
  ghost predicate Safe(g: Grid, n: nat, s: nat, r: nat, c: nat, v: int)
    requires IsSquare(g, n) && 0 < s && r < n && c < n
  {
    && (forall x :: 0 <= x < n ==> g[r][x] != v && g[x][c] != v)
    && (forall i, j :: 0 <= i < n && 0 <= j < n && SameBlock(s, r, c, i, j) ==> g[i][j] != v)
  }

  /** No filled value (one in 1..n) is repeated between peers. */
  ghost predicate Consistent(g: Grid, n: nat, s: nat)
    requires IsSquare(g, n) && 0 < s
  {
    forall i, j, i2, j2 ::
      (0 <= i < n && 0 <= j < n && 0 <= i2 < n && 0 <= j2 < n &&
       Peers(s, i, j, i2, j2) && 1 <= g[i][j] <= n) ==> g[i][j] != g[i2][j2]
  }

  /** Every cell holds a value in 1..n and no two peers agree: a solved puzzle. */
  ghost predicate Solved(g: Grid, n: nat, s: nat)
    requires 0 < s
  {
    && IsSquare(g, n)
    && (forall i, j :: 0 <= i < n && 0 <= j < n ==> 1 <= g[i][j] <= n)
    && Consistent(g, n, s)
  }

  /** No cell holds the empty marker 0. */
  predicate ZeroFree(g: Grid) {
    forall i, j :: 0 <= i < |g| && 0 <= j < |g[i]| ==> g[i][j] != 0
  }

  /** (r, c) is the first cell holding 0 in row-major order. */
  predicate IsFirstZero(g: Grid, r: nat, c: nat) {
    && r < |g| && c < |g[r]| && g[r][c] == 0
    && (forall i, j :: 0 <= i < r && 0 <= j < |g[i]| ==> g[i][j] != 0)
    && (forall j :: 0 <= j < c ==> g[r][j] != 0)
  }

  /** Index of the first 0 in a row, if any. */
  function ZeroIndex(row: seq<int>): (k: Option<nat>)
    ensures k.None? <==> 0 !in row
    ensures k.Some? ==> k.value < |row| && row[k.value] == 0 && 0 !in row[..k.value]
  {
    if row == [] then None
    else if row[0] == 0 then Some(0)
    else match ZeroIndex(row[1..])
      case None => None
      case Some(k) =>
        assert row[1..][..k] == row[1..k + 1];
        Some(k + 1)
  }

  /** The first cell holding 0 among rows i.. in row-major order. */
  function FirstZeroFrom(g: Grid, i: nat): (z: Option<(nat, nat)>)
    requires i <= |g|
    decreases |g| - i
    ensures z.None? <==> forall a, b :: i <= a < |g| && 0 <= b < |g[a]| ==> g[a][b] != 0
    ensures z.Some? ==> i <= z.value.0 < |g| && z.value.1 < |g[z.value.0]| && g[z.value.0][z.value.1] == 0
    ensures z.Some? ==> forall a, b :: i <= a < z.value.0 && 0 <= b < |g[a]| ==> g[a][b] != 0
    ensures z.Some? ==> forall b :: 0 <= b < z.value.1 ==> g[z.value.0][b] != 0
  {
    if i == |g| then None
    else match ZeroIndex(g[i])
      case Some(k) =>
        assert forall b :: 0 <= b < k ==> g[i][b] == g[i][..k][b];
        Some((i, k))
      case None =>
        assert forall b :: 0 <= b < |g[i]| ==> g[i][b] in g[i];
        FirstZeroFrom(g, i + 1)
  }

  /** The cell the engine fills next: the first 0 in row-major order, or None when no cell holds 0. */
  function FirstZero(g: Grid): (z: Option<(nat, nat)>)
    ensures z.None? <==> ZeroFree(g)
    ensures z.Some? ==> IsFirstZero(g, z.value.0, z.value.1)
  {
    FirstZeroFrom(g, 0)
  }

  /** Number of cells of a row equal to v. */
  function RowOccurrences(row: seq<int>, v: int): nat {
    if row == [] then 0 else (if row[0] == v then 1 else 0) + RowOccurrences(row[1..], v)
  }

  /** Number of cells of the grid equal to v. */
  function Occurrences(g: Grid, v: int): nat {
    if g == [] then 0 else RowOccurrences(g[0], v) + Occurrences(g[1..], v)
  }

  lemma {:induction false} RowOccurrencesUpdate(row: seq<int>, c: nat, x: int, v: int)
    requires c < |row|
    ensures RowOccurrences(row[c := x], v)
         == RowOccurrences(row, v) - (if row[c] == v then 1 else 0) + (if x == v then 1 else 0)
  {
    if c > 0 {
      assert row[c := x][1..] == row[1..][c - 1 := x];
      RowOccurrencesUpdate(row[1..], c - 1, x, v);
    } else {
      assert row[c := x][1..] == row[1..];
    }
  }

  /** Overwriting one cell changes the count of v by the cell's old and new value only. */
  lemma {:induction false} OccurrencesPlace(g: Grid, r: nat, c: nat, x: int, v: int)
    requires r < |g| && c < |g[r]|
    ensures Occurrences(Place(g, r, c, x), v)
         == Occurrences(g, v) - (if g[r][c] == v then 1 else 0) + (if x == v then 1 else 0)
  {
    if r == 0 {
      assert Place(g, r, c, x)[1..] == g[1..];
      RowOccurrencesUpdate(g[0], c, x, v);
    } else {
      assert Place(g, r, c, x)[1..] == Place(g[1..], r - 1, c, x);
      OccurrencesPlace(g[1..], r - 1, c, x, v);
    }
  }

  /** The number of empty cells; every step of the backtracking search lowers it. */
  function ZeroCount(g: Grid): nat {
    Occurrences(g, 0)
  }

  lemma PlaceFillsZero(g: Grid, r: nat, c: nat, v: int)
    requires r < |g| && c < |g[r]| && g[r][c] == 0 && v != 0
    ensures ZeroCount(Place(g, r, c, v)) == ZeroCount(g) - 1
  {
    OccurrencesPlace(g, r, c, v, 0);
  }

  /** The grid of n rows of n empty cells. */
  function Empty(n: nat): (g: Grid)
    ensures IsSquare(g, n)
    ensures forall i, j :: 0 <= i < n && 0 <= j < n ==> g[i][j] == 0
  {
    seq(n, _ => seq(n, _ => 0))
  }
  /**
   * The top-left row of the block of row r, written s * (r / s) in the
   * engine; it equals r - r % s.
   */
  function BlockOrigin(s: nat, r: nat): (o: nat)
    requires 0 < s
    ensures o == s * (r / s) && o <= r < o + s
  {
    r - r % s
  }

  /** Cell i lies in the block band of r exactly when it lies between r's block origin and the next one. */
  lemma BlockBand(s: nat, r: nat, i: int)
    requires 0 < s && 0 <= i
    ensures i / s == r / s <==> BlockOrigin(s, r) <= i < BlockOrigin(s, r) + s
  {
    var q := r / s;
    if s * q <= i < s * q + s {
      DivOfOffset(s, q, i - s * q);
    }
  }

  /** A block that starts at the origin of a row inside an n-row grid ends inside it when s divides n. */
  lemma BlockFits(s: nat, n: nat, r: nat)
    requires 0 < s && n % s == 0 && r < n
    ensures BlockOrigin(s, r) + s <= n
  {
    var q, m := r / s, n / s;
    assert n == s * m;
    if q >= m {
      MulMonotone(s, m, q);
      assert false;
    }
    MulMonotone(s, q + 1, m);
  }

  /** The first empty cell in row-major order is unique. */
  lemma FirstZeroUnique(g: Grid, r: nat, c: nat)
    requires IsFirstZero(g, r, c)
    ensures FirstZero(g) == Some((r, c))
  {
    assert !ZeroFree(g);
  }
  /** The grid with every cell equal to a replaced by b. */
  function Replace(g: Grid, a: int, b: int): (h: Grid)
    ensures |h| == |g| && forall i :: 0 <= i < |g| ==> |h[i]| == |g[i]|
    ensures forall i, j :: 0 <= i < |g| && 0 <= j < |g[i]| ==> h[i][j] == if g[i][j] == a then b else g[i][j]
  {
    seq(|g|, i requires 0 <= i < |g| => seq(|g[i]|, j requires 0 <= j < |g[i]| => if g[i][j] == a then b else g[i][j]))
  }

  lemma {:induction false} RowOccurrencesAbsent(row: seq<int>, v: int)
    requires v !in row
    ensures RowOccurrences(row, v) == 0
  {
    if row != [] {
      assert row[0] in row;
      assert forall x :: x in row[1..] ==> x in row;
      RowOccurrencesAbsent(row[1..], v);
    }
  }

  /** A value no cell holds has no occurrences. */
  lemma {:induction false} OccurrencesAbsent(g: Grid, v: int)
    requires forall i, j :: 0 <= i < |g| && 0 <= j < |g[i]| ==> g[i][j] != v
    ensures Occurrences(g, v) == 0
  {
    if g != [] {
      assert forall j :: 0 <= j < |g[0]| ==> g[0][j] != v;
      RowOccurrencesAbsent(g[0], v);
      assert forall i, j :: 0 <= i < |g[1..]| && 0 <= j < |g[1..][i]| ==> g[1..][i][j] == g[i + 1][j];
      OccurrencesAbsent(g[1..], v);
    }
  }

  lemma {:induction false} RowOccurrencesReplace(row: seq<int>, a: int, b: int, r: seq<int>)
    requires a != b && |r| == |row|
    requires forall j :: 0 <= j < |row| ==> r[j] == if row[j] == a then b else row[j]
    ensures RowOccurrences(r, b) == RowOccurrences(row, a) + RowOccurrences(row, b)
  {
    if row != [] {
      RowOccurrencesReplace(row[1..], a, b, r[1..]);
    }
  }

  /** After replacing a by b, the cells holding b are those that held a or b. */
  lemma {:induction false} OccurrencesReplace(g: Grid, a: int, b: int)
    requires a != b
    ensures Occurrences(Replace(g, a, b), b) == Occurrences(g, a) + Occurrences(g, b)
  {
    var h := Replace(g, a, b);
    if g != [] {
      RowOccurrencesReplace(g[0], a, b, h[0]);
      assert h[1..] == Replace(g[1..], a, b);
      OccurrencesReplace(g[1..], a, b);
    }
  }
}
