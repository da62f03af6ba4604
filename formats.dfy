/**
 * The text serialisers of the format converter: each turns a saved puzzle
 * (rows of cells, a cell being a number or a placeholder string) into one
 * string. The lemmas state each layout exactly and, for the layouts that
 * keep every cell, how the cells are read back.
 */
module Formats {
  import opened Wrappers
  import opened Text
  import Config
  import opened Arith

  /** A cell of a saved puzzle: a number, or the placeholder string of a removed cell. */
  datatype Cell = Num(value: int) | Mark(text: string)

  type Puzzle = seq<seq<Cell>>

  /** The characters the layouts use as separators. */
  predicate Plain(s: string) {
    ',' !in s && '\n' !in s && ' ' !in s && '|' !in s
  }

  /** The text of a cell: the decimal text of a number, a string as it is. */
  function Show(c: Cell): (s: string)
    ensures c.Num? ==> Plain(s) && |s| >= 1
    ensures c.Num? && 0 <= c.value < 10 ==> |s| == 1 && s[0] as int - '0' as int == c.value
    ensures c.Mark? ==> s == c.text
  {
    match c
    case Num(v) => IntToString(v)
    case Mark(t) => t
  }

  /** The texts of a row's cells, in order. */
  function Texts(row: seq<Cell>): (ts: seq<string>)
    ensures |ts| == |row| && forall j :: 0 <= j < |row| ==> ts[j] == Show(row[j])
  {
    seq(|row|, j requires 0 <= j < |row| => Show(row[j]))
  }

  /** Every cell text is free of separator characters. */
  predicate PlainCells(puzzle: Puzzle) {
    forall i, j :: 0 <= i < |puzzle| && 0 <= j < |puzzle[i]| ==> Plain(Show(puzzle[i][j]))
  }

  /** Every row has exactly n cells. */
  predicate Rows(puzzle: Puzzle, n: nat) {
    forall i :: 0 <= i < |puzzle| ==> |puzzle[i]| == n
  }

  // ---------------------------------------------------------------- inline

  /** The texts of all cells, row by row, glued together with nothing between them. */
  function InlineString(puzzle: Puzzle): string {
    if |puzzle| == 0 then [] else Concat(Texts(puzzle[0])) + InlineString(puzzle[1..])
  }

  lemma {:induction false} InlineRow(row: seq<Cell>)
    requires forall j :: 0 <= j < |row| ==> |Show(row[j])| == 1
    ensures |Concat(Texts(row))| == |row|
    ensures forall j :: 0 <= j < |row| ==> Concat(Texts(row))[j] == Show(row[j])[0]
  {
    if |row| > 0 {
      assert Texts(row)[1..] == Texts(row[1..]);
      InlineRow(row[1..]);
    }
  }

  /** Where row i starts when every row is n characters long: i * n, by repeated addition. */
  function RowStart(i: nat, n: nat): nat {
    if i == 0 then 0 else RowStart(i - 1, n) + n
  }

  lemma {:induction false} RowStartProduct(i: nat, n: nat)
    ensures RowStart(i, n) == i * n
  {
    if i > 0 {
      RowStartProduct(i - 1, n);
      assert i * n == (i - 1) * n + n;
    }
  }

  /** The one-character texts of row's cells appear in s from position start on. */
  predicate RowAt(s: string, start: nat, row: seq<Cell>)
    requires forall j :: 0 <= j < |row| ==> |Show(row[j])| == 1
  {
    start + |row| <= |s| && forall j :: 0 <= j < |row| ==> s[start + j] == Show(row[j])[0]
  }

  lemma {:induction false} InlineRowsLength(puzzle: Puzzle, n: nat)
    requires Rows(puzzle, n)
    requires forall i, j :: 0 <= i < |puzzle| && 0 <= j < n ==> |Show(puzzle[i][j])| == 1
    ensures |InlineString(puzzle)| == RowStart(|puzzle|, n)
  {
    if |puzzle| > 0 {
      var rest := puzzle[1..];
      assert forall i :: 0 <= i < |rest| ==> rest[i] == puzzle[i + 1];
      assert |puzzle[0]| == n;
      InlineRow(puzzle[0]);
      InlineRowsLength(rest, n);
    }
  }

  lemma {:induction false} InlineRows(puzzle: Puzzle, n: nat)
    requires Rows(puzzle, n)
    requires forall i, j :: 0 <= i < |puzzle| && 0 <= j < n ==> |Show(puzzle[i][j])| == 1
    ensures forall i :: 0 <= i < |puzzle| ==> RowAt(InlineString(puzzle), RowStart(i, n), puzzle[i])
  {
    if |puzzle| > 0 {
      var rest := puzzle[1..];
      assert forall i :: 0 <= i < |rest| ==> rest[i] == puzzle[i + 1];
      InlineRows(rest, n);
      forall i | 1 <= i < |puzzle|
        ensures RowAt(InlineString(rest), RowStart(i - 1, n), puzzle[i])
      {
        assert RowAt(InlineString(rest), RowStart(i - 1, n), rest[i - 1]);
      }
      InlineRowsStep(puzzle, n, InlineString(rest));
      assert InlineString(puzzle) == Concat(Texts(puzzle[0])) + InlineString(rest);
    }
  }

  /** Rows found in the inline text of all rows but the first stay found once the first row is put in front. */
  lemma InlineRowsStep(puzzle: Puzzle, n: nat, tail: string)
    requires Rows(puzzle, n) && |puzzle| > 0
    requires forall i, j :: 0 <= i < |puzzle| && 0 <= j < n ==> |Show(puzzle[i][j])| == 1
    requires forall i :: 1 <= i < |puzzle| ==> RowAt(tail, RowStart(i - 1, n), puzzle[i])
    ensures forall i :: 0 <= i < |puzzle| ==> RowAt(Concat(Texts(puzzle[0])) + tail, RowStart(i, n), puzzle[i])
  {
    assert |puzzle[0]| == n;
    InlineRow(puzzle[0]);
    var head := Concat(Texts(puzzle[0]));
    forall i | 0 <= i < |puzzle|
      ensures RowAt(head + tail, RowStart(i, n), puzzle[i])
    {
      if i > 0 {
        SpanShift(i, n);
        RowAtShift(head, tail, RowStart(i - 1, n), puzzle[i]);
      } else {
        InlineRowAt(puzzle[0], tail);
      }
    }
  }

  /** A row found at start in tail is found |head| further on in head + tail. */
  lemma RowAtShift(head: string, tail: string, start: nat, row: seq<Cell>)
    requires forall j :: 0 <= j < |row| ==> |Show(row[j])| == 1
    requires RowAt(tail, start, row)
    ensures RowAt(head + tail, |head| + start, row)
  {
    forall j | 0 <= j < |row|
      ensures (head + tail)[|head| + start + j] == Show(row[j])[0]
    {
      assert tail[start + j] == Show(row[j])[0];
    }
  }

  /** A row's own inline text, followed by anything, holds the row at position 0. */
  lemma InlineRowAt(row: seq<Cell>, tail: string)
    requires forall j :: 0 <= j < |row| ==> |Show(row[j])| == 1
    ensures RowAt(Concat(Texts(row)) + tail, 0, row)
  {
    InlineRow(row);
    var head := Concat(Texts(row));
    assert forall j :: 0 <= j < |row| ==> (head + tail)[j] == head[j];
  }

  lemma {:induction false} SpanShift(i: nat, n: nat)
    requires i > 0
    ensures RowStart(i, n) == n + RowStart(i - 1, n)
  {
  }

  /**
   * When every cell's text is one character, the inline string of a puzzle
   * with n cells per row has one character per cell, and character i * n + j
   * is the text of cell (i, j).
   */
  lemma {:induction false} InlineLayout(puzzle: Puzzle, n: nat)
    requires Rows(puzzle, n)
    requires forall i, j :: 0 <= i < |puzzle| && 0 <= j < n ==> |Show(puzzle[i][j])| == 1
    ensures |InlineString(puzzle)| == |puzzle| * n
    ensures forall i, j :: 0 <= i < |puzzle| && 0 <= j < n ==> CharAt(InlineString(puzzle), i * n + j, puzzle[i][j])
  {
    InlineLength(puzzle, n);
    forall i, j | 0 <= i < |puzzle| && 0 <= j < n
      ensures CharAt(InlineString(puzzle), i * n + j, puzzle[i][j])
    {
      InlineCell(puzzle, n, i, j);
    }
  }

  /** Position k of s holds the one-character text of cell c. */
  predicate CharAt(s: string, k: int, c: Cell) {
    0 <= k < |s| && |Show(c)| == 1 && s[k] == Show(c)[0]
  }

  lemma {:induction false} InlineLength(puzzle: Puzzle, n: nat)
    requires Rows(puzzle, n)
    requires forall i, j :: 0 <= i < |puzzle| && 0 <= j < n ==> |Show(puzzle[i][j])| == 1
    ensures |InlineString(puzzle)| == |puzzle| * n
  {
    InlineRowsLength(puzzle, n);
    RowStartProduct(|puzzle|, n);
  }

  lemma {:induction false} InlineCell(puzzle: Puzzle, n: nat, i: nat, j: nat)
    requires Rows(puzzle, n)
    requires forall i, j :: 0 <= i < |puzzle| && 0 <= j < n ==> |Show(puzzle[i][j])| == 1
    requires i < |puzzle| && j < n
    ensures i * n + j < |InlineString(puzzle)| && InlineString(puzzle)[i * n + j] == Show(puzzle[i][j])[0]
  {
    InlineRows(puzzle, n);
    RowStartProduct(i, n);
    assert RowAt(InlineString(puzzle), RowStart(i, n), puzzle[i]);
  }

  /** Each placeholder option is one character, so with numbers 1..9 every inline cell is one character. */
  lemma PlaceholdersOneCharacter(key: string)
    requires key in Config.Keys(Config.PlaceholderOptions())
    ensures |Show(Mark(key))| == 1
  {
  }

  // ---------------------------------------------------------------- CSV

  /** One row: its cell texts joined by commas. */
  function CsvLine(row: seq<Cell>): string {
    Join(Texts(row), ",")
  }

  function CsvLines(puzzle: Puzzle): (lines: seq<string>)
    ensures |lines| == |puzzle| && forall i :: 0 <= i < |puzzle| ==> lines[i] == CsvLine(puzzle[i])
  {
    seq(|puzzle|, i requires 0 <= i < |puzzle| => CsvLine(puzzle[i]))
  }

  /** The rows' lines joined by newlines. */
  function Csv(puzzle: Puzzle): string {
    Join(CsvLines(puzzle), "\n")
  }

  /** A non-empty row of plain cells is read back from its line by splitting at commas. */
  lemma CsvLineRoundTrip(row: seq<Cell>)
    requires |row| >= 1 && forall j :: 0 <= j < |row| ==> Plain(Show(row[j]))
    ensures '\n' !in CsvLine(row)
    ensures Split(CsvLine(row), ',') == Texts(row)
  {
    JoinAvoids(Texts(row), ",", '\n');
    SplitJoin(Texts(row), ',');
  }

  /**
   * The CSV text of a puzzle with at least one row, no empty row and no
   * separator inside a cell text splits at newlines into one line per row,
   * and each line splits at commas into that row's cell texts.
   */
  lemma CsvRoundTrip(puzzle: Puzzle)
    requires |puzzle| >= 1 && PlainCells(puzzle)
    requires forall i :: 0 <= i < |puzzle| ==> |puzzle[i]| >= 1
    ensures |Split(Csv(puzzle), '\n')| == |puzzle|
    ensures forall i :: 0 <= i < |puzzle| ==> Split(Split(Csv(puzzle), '\n')[i], ',') == Texts(puzzle[i])
  {
    var lines := CsvLines(puzzle);
    forall i | 0 <= i < |puzzle|
      ensures '\n' !in lines[i] && Split(lines[i], ',') == Texts(puzzle[i])
    {
      CsvLineRoundTrip(puzzle[i]);
    }
    SplitJoin(lines, '\n');
  }
  // ---------------------------------------------------------------- grid with separators

  /** The integer square root: the largest r with r * r <= n. */
  function Isqrt(n: nat): (r: nat)
    ensures r * r <= n < (r + 1) * (r + 1)
  {
    IsqrtFrom(n, 0)
  }

  function IsqrtFrom(n: nat, r: nat): (q: nat)
    requires r * r <= n
    ensures q * q <= n < (q + 1) * (q + 1)
    decreases n - r
  {
    if (r + 1) * (r + 1) > n then r
    else
      assert r + 1 <= (r + 1) * (r + 1);
      IsqrtFrom(n, r + 1)
  }

  /** Every text in the list is free of separator characters. */
  predicate AllPlain(ts: seq<string>) {
    forall m :: 0 <= m < |ts| ==> Plain(ts[m])
  }

  /**
   * The slices cells[j .. j + k] for j = start, start + k, ... below n, each
   * cut short at the end of cells, as slicing does.
   */
  function Chunks(cells: seq<string>, start: nat, n: nat, k: nat): seq<seq<string>>
    requires k > 0
    decreases n - start
  {
    if start >= n then []
    else
      var a := if start <= |cells| then start else |cells|;
      var b := if start + k <= |cells| then start + k else |cells|;
      [cells[a..b]] + Chunks(cells, start + k, n, k)
  }

  /** The chunks of a row as long as the grid cover it: in order, each non-empty and at most k long. */
  lemma {:induction false} ChunksCover(cells: seq<string>, start: nat, k: nat)
    requires k > 0 && start <= |cells|
    ensures var cs := Chunks(cells, start, |cells|, k);
      && Concat(cs) == cells[start..]
      && (forall c :: 0 <= c < |cs| ==> 1 <= |cs[c]| <= k)
      && (AllPlain(cells) ==> forall c :: 0 <= c < |cs| ==> AllPlain(cs[c]))
  {
    ChunksConcat(cells, start, k);
    ChunksSizes(cells, start, k);
    if AllPlain(cells) {
      ChunksPlain(cells, start, |cells|, k);
    }
  }

  /** The chunks from start on, glued back together, are the cells from start on. */
  lemma {:induction false} ChunksConcat(cells: seq<string>, start: nat, k: nat)
    requires k > 0 && start <= |cells|
    ensures Concat(Chunks(cells, start, |cells|, k)) == cells[start..]
    decreases |cells| - start
  {
    if start < |cells| {
      var b := if start + k <= |cells| then start + k else |cells|;
      var rest := Chunks(cells, start + k, |cells|, k);
      assert Concat(Chunks(cells, start, |cells|, k)) == cells[start..b] + Concat(rest) by {
        assert Chunks(cells, start, |cells|, k) == [cells[start..b]] + rest;
        ConcatCons(cells[start..b], rest);
      }
      if start + k <= |cells| {
        assert Concat(rest) == cells[b..] by {
          ChunksConcat(cells, start + k, k);
        }
        assert cells[start..] == cells[start..b] + cells[b..];
      } else {
        assert Concat(rest) == [] by {
          assert rest == [];
        }
        assert cells[start..] == cells[start..b];
      }
    }
  }


  /** Every chunk from start on has between 1 and k cells. */
  lemma {:induction false} ChunksSizes(cells: seq<string>, start: nat, k: nat)
    requires k > 0 && start <= |cells|
    ensures forall c :: 0 <= c < |Chunks(cells, start, |cells|, k)| ==> 1 <= |Chunks(cells, start, |cells|, k)[c]| <= k
    decreases |cells| - start
  {
    if start < |cells| {
      var cs := Chunks(cells, start, |cells|, k);
      var b := if start + k <= |cells| then start + k else |cells|;
      var rest := Chunks(cells, start + k, |cells|, k);
      assert cs == [cells[start..b]] + rest;
      if start + k <= |cells| {
        ChunksSizes(cells, start + k, k);
      } else {
        assert rest == [];
      }
      forall c | 0 <= c < |cs|
        ensures 1 <= |cs[c]| <= k
      {
        if c > 0 {
          assert cs[c] == rest[c - 1];
        }
      }
    }
  }

  /** The texts of a list of chunks, each chunk's cells joined by single spaces. */
  function ChunkTexts(chunks: seq<seq<string>>): (ts: seq<string>)
    ensures |ts| == |chunks| && forall c :: 0 <= c < |chunks| ==> ts[c] == Join(chunks[c], " ")
  {
    seq(|chunks|, c requires 0 <= c < |chunks| => Join(chunks[c], " "))
  }

  /** The parts of one row: its cells in chunks of k, below the grid size n. */
  function RowParts(row: seq<Cell>, n: nat, k: nat): seq<string>
    requires k > 0
  {
    ChunkTexts(Chunks(Texts(row), 0, n, k))
  }

  /** A row line: the parts joined by a spaced bar. */
  function RowLine(parts: seq<string>): string {
    Join(parts, " | ")
  }

  /** The dash line under a row line: each part replaced by as many dashes. */
  function DashLine(parts: seq<string>): string {
    Join(seq(|parts|, m requires 0 <= m < |parts| => Repeat('-', |parts[m]|)), " | ")
  }

  /**
   * The lines from row i on: each row's line, followed by a dash line when
   * separators are on, the row closes a band of k rows and it is not the last row.
   */
  function GridLines(puzzle: Puzzle, i: nat, k: nat, separator: bool): seq<string>
    requires k > 0
    decreases |puzzle| - i
  {
    if i >= |puzzle| then []
    else
      var parts := RowParts(puzzle[i], |puzzle|, k);
      [RowLine(parts)]
      + (if separator && (i + 1) % k == 0 && i + 1 != |puzzle| then [DashLine(parts)] else [])
      + GridLines(puzzle, i + 1, k, separator)
  }

  /** The grid text: blocks of width floor(sqrt N) for a puzzle of N rows. */
  function GridWithSeparators(puzzle: Puzzle, separator: bool): string {
    if |puzzle| == 0 then [] else Join(GridLines(puzzle, 0, Isqrt(|puzzle|), separator), "\n")
  }

  /** The line of row i, for a puzzle of N rows cut in chunks of k. */
  function RowText(puzzle: Puzzle, i: nat, k: nat): string
    requires i < |puzzle| && k > 0
  {
    RowLine(RowParts(puzzle[i], |puzzle|, k))
  }

  function DashText(puzzle: Puzzle, i: nat, k: nat): string
    requires i < |puzzle| && k > 0
  {
    DashLine(RowParts(puzzle[i], |puzzle|, k))
  }

  /** The token list with the bar tokens removed. */
  function Unbar(ts: seq<string>): seq<string> {
    if |ts| == 0 then [] else (if ts[0] == "|" then [] else [ts[0]]) + Unbar(ts[1..])
  }

  lemma {:induction false} UnbarAppend(a: seq<string>, b: seq<string>)
    ensures Unbar(a + b) == Unbar(a) + Unbar(b)
  {
    if |a| > 0 {
      assert (a + b)[1..] == a[1..] + b;
      UnbarAppend(a[1..], b);
    } else {
      assert a + b == b;
    }
  }

  lemma {:induction false} UnbarPlain(ts: seq<string>)
    requires AllPlain(ts)
    ensures Unbar(ts) == ts
  {
    if |ts| > 0 {
      assert '|' in "|";
      assert ts[0] != "|";
      UnbarPlain(ts[1..]);
    }
  }

  /**
   * Splitting the joined chunk texts at spaces and dropping the bar tokens
   * gives back the cells of all chunks, in order.
   */
  lemma {:induction false} BarTokens(chunks: seq<seq<string>>)
    requires |chunks| >= 1
    requires forall c :: 0 <= c < |chunks| ==> |chunks[c]| >= 1 && AllPlain(chunks[c])
    ensures Unbar(Split(RowLine(ChunkTexts(chunks)), ' ')) == Concat(chunks)
  {
    var ts := ChunkTexts(chunks);
    var c0 := chunks[0];
    SplitJoin(c0, ' ');
    UnbarPlain(c0);
    assert Concat(chunks) == c0 + Concat(chunks[1..]);
    if |chunks| == 1 {
      assert Concat(chunks[1..]) == [];
    } else {
      var rest := RowLine(ts[1..]);
      assert ts[1..] == ChunkTexts(chunks[1..]);
      BarTokens(chunks[1..]);
      assert RowLine(ts) == ts[0] + [' '] + (['|'] + [' '] + rest);
      UnbarAround(ts[0], rest);
    }
  }

  /** Splitting at spaces and dropping bars treats " | " between two texts as nothing. */
  lemma UnbarAround(x: string, rest: string)
    ensures Unbar(Split(x + [' '] + (['|'] + [' '] + rest), ' ')) == Unbar(Split(x, ' ')) + Unbar(Split(rest, ' '))
  {
    SplitAppend(x, ['|'] + [' '] + rest, ' ');
    SplitAppend(['|'], rest, ' ');
    SplitNoSep(['|'], ' ');
    UnbarAppend(Split(x, ' '), Split(['|'] + [' '] + rest, ' '));
    UnbarAppend([['|']], Split(rest, ' '));
  }

  /**
   * In a puzzle of N rows of N plain cells, splitting a row's line at spaces
   * and dropping the bar tokens gives back the row's cell texts in order.
   */
  lemma RowLineTokens(puzzle: Puzzle, i: nat)
    requires 1 <= |puzzle| && Rows(puzzle, |puzzle|) && PlainCells(puzzle) && i < |puzzle|
    ensures Unbar(Split(RowText(puzzle, i, Isqrt(|puzzle|)), ' ')) == Texts(puzzle[i])
  {
    var n := |puzzle|;
    var k := Isqrt(n);
    var cells := Texts(puzzle[i]);
    ChunksCover(cells, 0, k);
    var cs := Chunks(cells, 0, n, k);
    assert |cs| >= 1;
    BarTokens(cs);
  }
  /** Line idx of lines exists and is s. */
  predicate LineAt(lines: seq<string>, idx: int, s: string) {
    0 <= idx < |lines| && lines[idx] == s
  }

  /** Without separators there is one line per row, in order. */
  lemma {:induction false} GridLinesPlain(puzzle: Puzzle, i0: nat, k: nat)
    requires k > 0 && i0 <= |puzzle|
    ensures |GridLines(puzzle, i0, k, false)| == |puzzle| - i0
    ensures forall i :: i0 <= i < |puzzle| ==> LineAt(GridLines(puzzle, i0, k, false), i - i0, RowText(puzzle, i, k))
    decreases |puzzle| - i0
  {
    if i0 < |puzzle| {
      var lines := GridLines(puzzle, i0, k, false);
      var rest := GridLines(puzzle, i0 + 1, k, false);
      GridLinesPlain(puzzle, i0 + 1, k);
      assert lines == [RowText(puzzle, i0, k)] + rest;
      forall i | i0 < i < |puzzle|
        ensures LineAt(lines, i - i0, RowText(puzzle, i, k))
      {
        assert LineAt(rest, i - (i0 + 1), RowText(puzzle, i, k));
      }
    }
  }

  /**
   * The layout with separators from row i0 of N rows: row i sits at line
   * (i - i0) + (i / k - i0 / k), the dash line after a band-closing row that
   * is not the last sits right below it, and there are
   * (N - i0) + ((N - 1) / k - i0 / k) lines in all, so no other line appears.
   */
  predicate Banded(puzzle: Puzzle, i0: nat, k: nat)
    requires k > 0 && i0 < |puzzle|
  {
    && |GridLines(puzzle, i0, k, true)| == LinePos(i0, |puzzle| - 1, k) + 1
    && BandedRows(puzzle, i0, k)
    && BandedDashes(puzzle, i0, k)
  }

  /** Every row from i0 on sits at its line. */
  predicate BandedRows(puzzle: Puzzle, i0: nat, k: nat)
    requires k > 0 && i0 < |puzzle|
  {
    forall i :: i0 <= i < |puzzle| ==> LineAt(GridLines(puzzle, i0, k, true), LinePos(i0, i, k), RowText(puzzle, i, k))
  }

  /** Every band-closing row from i0 on, except the last row, has its dash line right below it. */
  predicate BandedDashes(puzzle: Puzzle, i0: nat, k: nat)
    requires k > 0 && i0 < |puzzle|
  {
    forall i :: i0 <= i < |puzzle| && (i + 1) % k == 0 && i + 1 != |puzzle| ==>
      LineAt(GridLines(puzzle, i0, k, true), LinePos(i0, i, k) + 1, DashText(puzzle, i, k))
  }

  /** The line of row i in the layout that starts at row i0: one line per row and one per band boundary crossed. */
  function LinePos(i0: nat, i: nat, k: nat): int
    requires k > 0
  {
    (i - i0) + (i / k - i0 / k)
  }

  /** Seen from row i0, a later row sits one line further down, two when row i0 closes a band. */
  lemma LinePosStep(i0: nat, i: nat, k: nat)
    requires k > 0
    ensures LinePos(i0, i, k) == 1 + (if (i0 + 1) % k == 0 then 1 else 0) + LinePos(i0 + 1, i, k)
  {
    DivSucc(i0, k);
  }

  /** A line found in the tail after the first 1 + d lines is found 1 + d further on. */
  lemma LineShift(lines: seq<string>, tail: seq<string>, d: nat, j: int, s: string)
    requires 1 + d <= |lines| && lines[1 + d..] == tail && LineAt(tail, j, s)
    ensures LineAt(lines, 1 + d + j, s)
  {
    assert lines[1 + d + j] == tail[j];
  }

  lemma {:induction false} GridLinesBands(puzzle: Puzzle, i0: nat, k: nat)
    requires k > 0 && i0 < |puzzle|
    ensures Banded(puzzle, i0, k)
    decreases |puzzle| - i0
  {
    if i0 + 1 < |puzzle| {
      GridLinesBands(puzzle, i0 + 1, k);
      BandedStep(puzzle, i0, k);
    } else {
      assert GridLines(puzzle, i0, k, true) == [RowText(puzzle, i0, k)];
    }
  }

  /** The lines from row i0: its row line, its dash line if any, then the lines from row i0 + 1. */
  lemma GridLinesHead(puzzle: Puzzle, i0: nat, k: nat)
    requires k > 0 && i0 + 1 < |puzzle|
    ensures var d := if (i0 + 1) % k == 0 then 1 else 0;
      var lines := GridLines(puzzle, i0, k, true);
      && |lines| == 1 + d + |GridLines(puzzle, i0 + 1, k, true)|
      && lines[0] == RowText(puzzle, i0, k)
      && (d == 1 ==> lines[1] == DashText(puzzle, i0, k))
      && lines[1 + d..] == GridLines(puzzle, i0 + 1, k, true)
  {
  }

  lemma BandedStep(puzzle: Puzzle, i0: nat, k: nat)
    requires k > 0 && i0 + 1 < |puzzle| && Banded(puzzle, i0 + 1, k)
    ensures Banded(puzzle, i0, k)
  {
    GridLinesHead(puzzle, i0, k);
    LinePosStep(i0, |puzzle| - 1, k);
    BandedRowsStep(puzzle, i0, k);
    BandedDashesStep(puzzle, i0, k);
  }

  lemma BandedRowsStep(puzzle: Puzzle, i0: nat, k: nat)
    requires k > 0 && i0 + 1 < |puzzle| && BandedRows(puzzle, i0 + 1, k)
    ensures BandedRows(puzzle, i0, k)
  {
    GridLinesHead(puzzle, i0, k);
    assert LinePos(i0, i0, k) == 0;
    forall i | i0 < i < |puzzle|
      ensures LineAt(GridLines(puzzle, i0, k, true), LinePos(i0, i, k), RowText(puzzle, i, k))
    {
      BandedRowStep(puzzle, i0, k, i);
    }
  }

  lemma BandedDashesStep(puzzle: Puzzle, i0: nat, k: nat)
    requires k > 0 && i0 + 1 < |puzzle| && BandedDashes(puzzle, i0 + 1, k)
    ensures BandedDashes(puzzle, i0, k)
  {
    GridLinesHead(puzzle, i0, k);
    assert LinePos(i0, i0, k) == 0;
    forall i | i0 < i < |puzzle| && (i + 1) % k == 0 && i + 1 != |puzzle|
      ensures LineAt(GridLines(puzzle, i0, k, true), LinePos(i0, i, k) + 1, DashText(puzzle, i, k))
    {
      BandedDashStep(puzzle, i0, k, i);
    }
  }

  /** A later row's line, found from row i0 + 1, is found from row i0. */
  lemma BandedRowStep(puzzle: Puzzle, i0: nat, k: nat, i: nat)
    requires k > 0 && i0 < i < |puzzle|
    requires LineAt(GridLines(puzzle, i0 + 1, k, true), LinePos(i0 + 1, i, k), RowText(puzzle, i, k))
    ensures LineAt(GridLines(puzzle, i0, k, true), LinePos(i0, i, k), RowText(puzzle, i, k))
  {
    var d := if (i0 + 1) % k == 0 then 1 else 0;
    GridLinesHead(puzzle, i0, k);
    LinePosStep(i0, i, k);
    LineShift(GridLines(puzzle, i0, k, true), GridLines(puzzle, i0 + 1, k, true), d, LinePos(i0 + 1, i, k), RowText(puzzle, i, k));
  }

  /** A later dash line, found from row i0 + 1, is found from row i0. */
  lemma BandedDashStep(puzzle: Puzzle, i0: nat, k: nat, i: nat)
    requires k > 0 && i0 < i < |puzzle|
    requires LineAt(GridLines(puzzle, i0 + 1, k, true), LinePos(i0 + 1, i, k) + 1, DashText(puzzle, i, k))
    ensures LineAt(GridLines(puzzle, i0, k, true), LinePos(i0, i, k) + 1, DashText(puzzle, i, k))
  {
    var d := if (i0 + 1) % k == 0 then 1 else 0;
    GridLinesHead(puzzle, i0, k);
    LinePosStep(i0, i, k);
    LineShift(GridLines(puzzle, i0, k, true), GridLines(puzzle, i0 + 1, k, true), d, LinePos(i0 + 1, i, k) + 1, DashText(puzzle, i, k));
  }

  /** A dash line is as long as its row line, and its bars sit exactly under the row line's bars. */
  lemma {:induction false} DashLineAligned(parts: seq<string>)
    requires |parts| >= 1 && forall m :: 0 <= m < |parts| ==> '|' !in parts[m]
    ensures |DashLine(parts)| == |RowLine(parts)|
    ensures forall p :: 0 <= p < |RowLine(parts)| ==> (DashLine(parts)[p] == '|' <==> RowLine(parts)[p] == '|')
  {
    var dashes := seq(|parts|, m requires 0 <= m < |parts| => Repeat('-', |parts[m]|));
    var x := parts[0];
    assert dashes[0] == Repeat('-', |x|);
    if |parts| == 1 {
      forall p | 0 <= p < |x|
        ensures x[p] != '|'
      {
        assert x[p] in x;
      }
    } else {
      DashLineAligned(parts[1..]);
      assert dashes[1..] == seq(|parts[1..]|, m requires 0 <= m < |parts[1..]| => Repeat('-', |parts[1..][m]|));
      var d := DashLine(parts);
      var l := RowLine(parts);
      var d' := DashLine(parts[1..]);
      var l' := RowLine(parts[1..]);
      assert d == Repeat('-', |x|) + " | " + d';
      assert l == x + " | " + l';
      forall p | 0 <= p < |l|
        ensures d[p] == '|' <==> l[p] == '|'
      {
        if p < |x| {
          assert x[p] in x;
        } else if p >= |x| + 3 {
          assert d[p] == d'[p - |x| - 3] && l[p] == l'[p - |x| - 3];
        }
      }
    }
  }
  lemma {:induction false} ChunksPlain(cells: seq<string>, start: nat, n: nat, k: nat)
    requires k > 0 && AllPlain(cells)
    ensures forall c :: 0 <= c < |Chunks(cells, start, n, k)| ==> AllPlain(Chunks(cells, start, n, k)[c])
    decreases n - start
  {
    if start < n {
      ChunksPlain(cells, start + k, n, k);
    }
  }

  /** No line of the grid text holds a newline when no cell text does. */
  lemma {:induction false} GridLinesSingle(puzzle: Puzzle, i0: nat, k: nat, separator: bool)
    requires k > 0 && PlainCells(puzzle)
    ensures forall m :: 0 <= m < |GridLines(puzzle, i0, k, separator)| ==> '\n' !in GridLines(puzzle, i0, k, separator)[m]
    decreases |puzzle| - i0
  {
    if i0 < |puzzle| {
      var cells := Texts(puzzle[i0]);
      var cs := Chunks(cells, 0, |puzzle|, k);
      var parts := RowParts(puzzle[i0], |puzzle|, k);
      ChunksPlain(cells, 0, |puzzle|, k);
      forall c | 0 <= c < |cs|
        ensures '\n' !in parts[c]
      {
        JoinAvoids(cs[c], " ", '\n');
      }
      JoinAvoids(parts, " | ", '\n');
      JoinAvoids(seq(|parts|, m requires 0 <= m < |parts| => Repeat('-', |parts[m]|)), " | ", '\n');
      GridLinesSingle(puzzle, i0 + 1, k, separator);
    }
  }

  /**
   * The grid text of N >= 1 rows, with k = floor(sqrt N), splits at newlines
   * into: without separators, the N row lines in order; with separators,
   * N + (N - 1) / k lines, row i at line i + i / k and, after each row i that
   * closes a band of k rows and is not the last, its dash line.
   */
  lemma GridLayout(puzzle: Puzzle, separator: bool)
    requires |puzzle| >= 1 && PlainCells(puzzle)
    ensures var n := |puzzle|;
      var k := Isqrt(n);
      var lines := Split(GridWithSeparators(puzzle, separator), '\n');
      && k >= 1
      && (!separator ==> |lines| == n && forall i :: 0 <= i < n ==> LineAt(lines, i, RowText(puzzle, i, k)))
      && (separator ==> |lines| == n + (n - 1) / k)
      && (separator ==> forall i :: 0 <= i < n ==> LineAt(lines, i + i / k, RowText(puzzle, i, k)))
      && (separator ==> forall i :: 0 <= i < n && (i + 1) % k == 0 && i + 1 != n ==>
            LineAt(lines, i + i / k + 1, DashText(puzzle, i, k)))
  {
    if separator {
      GridLayoutBanded(puzzle);
    } else {
      GridLayoutPlain(puzzle);
    }
  }

  /** The lines of the grid text are the lines GridLines lists. */
  lemma GridTextLines(puzzle: Puzzle, separator: bool)
    requires |puzzle| >= 1 && PlainCells(puzzle)
    ensures Isqrt(|puzzle|) >= 1
    ensures Split(GridWithSeparators(puzzle, separator), '\n') == GridLines(puzzle, 0, Isqrt(|puzzle|), separator)
  {
    var k := Isqrt(|puzzle|);
    var all := GridLines(puzzle, 0, k, separator);
    GridLinesSingle(puzzle, 0, k, separator);
    assert |all| >= 1 by {
      assert all[0] == RowText(puzzle, 0, k);
    }
    SplitJoin(all, '\n');
  }

  lemma GridLayoutPlain(puzzle: Puzzle)
    requires |puzzle| >= 1 && PlainCells(puzzle)
    ensures var k := Isqrt(|puzzle|);
      var lines := Split(GridWithSeparators(puzzle, false), '\n');
      && k >= 1 && |lines| == |puzzle|
      && forall i :: 0 <= i < |puzzle| ==> LineAt(lines, i, RowText(puzzle, i, k))
  {
    GridTextLines(puzzle, false);
    GridLinesPlain(puzzle, 0, Isqrt(|puzzle|));
  }

  lemma GridLayoutBanded(puzzle: Puzzle)
    requires |puzzle| >= 1 && PlainCells(puzzle)
    ensures var n := |puzzle|;
      var k := Isqrt(n);
      var lines := Split(GridWithSeparators(puzzle, true), '\n');
      && k >= 1 && |lines| == n + (n - 1) / k
      && (forall i :: 0 <= i < n ==> LineAt(lines, i + i / k, RowText(puzzle, i, k)))
      && (forall i :: 0 <= i < n && (i + 1) % k == 0 && i + 1 != n ==>
            LineAt(lines, i + i / k + 1, DashText(puzzle, i, k)))
  {
    var k := Isqrt(|puzzle|);
    GridTextLines(puzzle, true);
    GridLinesBands(puzzle, 0, k);
    DivUnique(0, k, 0, 0);
    forall i: nat | i < |puzzle|
      ensures LinePos(0, i, k) == i + i / k
    {
    }
  }

  // ---------------------------------------------------------------- sparse coordinates

  /** (i, j) comes before (i2, j2) in row-major order. */
  predicate Before(a: (nat, nat), b: (nat, nat)) {
    a.0 < b.0 || (a.0 == b.0 && a.1 < b.1)
  }

  /** Positions, from column j on, of the cells of row i that are not the number 0. */
  function CellCoords(row: seq<Cell>, i: nat, j: nat): (cs: seq<(nat, nat)>)
    ensures forall m :: 0 <= m < |cs| ==> cs[m].0 == i && j <= cs[m].1 < |row| && row[cs[m].1] != Num(0)
    ensures forall c :: j <= c < |row| && row[c] != Num(0) ==> (i, c) in cs
    ensures forall a, b :: 0 <= a < b < |cs| ==> cs[a].1 < cs[b].1
    decreases |row| - j
  {
    if j >= |row| then []
    else (if row[j] != Num(0) then [(i, j)] else []) + CellCoords(row, i, j + 1)
  }

  /**
   * Positions, from row i on, of the cells that are not the number 0: exactly
   * those cells, each once, in row-major order.
   */
  function RowCoords(puzzle: Puzzle, i: nat): (cs: seq<(nat, nat)>)
    ensures forall m :: 0 <= m < |cs| ==>
      i <= cs[m].0 < |puzzle| && cs[m].1 < |puzzle[cs[m].0]| && puzzle[cs[m].0][cs[m].1] != Num(0)
    ensures forall r, c :: i <= r < |puzzle| && 0 <= c < |puzzle[r]| && puzzle[r][c] != Num(0) ==> (r, c) in cs
    ensures forall a, b :: 0 <= a < b < |cs| ==> Before(cs[a], cs[b])
    decreases |puzzle| - i
  {
    if i >= |puzzle| then []
    else
      var here := CellCoords(puzzle[i], i, 0);
      var rest := RowCoords(puzzle, i + 1);
      assert forall r, c :: i < r < |puzzle| && 0 <= c < |puzzle[r]| && puzzle[r][c] != Num(0) ==> (r, c) in rest;
      here + rest
  }

  /** One entry: the 1-based row and column, then the cell's text. */
  function Entry(i: nat, j: nat, c: Cell): string {
    "(" + NatToString(i + 1) + "," + NatToString(j + 1) + ")=" + Show(c)
  }

  /** The entry of each cell that is not the number 0, in row-major order. */
  function SparseEntries(puzzle: Puzzle): (es: seq<string>)
    ensures |es| == |RowCoords(puzzle, 0)|
  {
    var cs := RowCoords(puzzle, 0);
    seq(|cs|, m requires 0 <= m < |cs| => Entry(cs[m].0, cs[m].1, puzzle[cs[m].0][cs[m].1]))
  }

  /** The entries of the cells that are not the number 0, in row-major order, joined by a comma and a space. */
  function SparseCoordinates(puzzle: Puzzle): string {
    Join(SparseEntries(puzzle), ", ")
  }

  /** An entry splits at its one comma into the row field and the column-and-cell field. */
  lemma EntryFields(i: nat, j: nat, c: Cell)
    requires ',' !in Show(c)
    ensures Split(Entry(i, j, c), ',') == ["(" + NatToString(i + 1), NatToString(j + 1) + ")=" + Show(c)]
    ensures ParseNat(NatToString(i + 1)) == i + 1 && ParseNat(NatToString(j + 1)) == j + 1
  {
    var a := "(" + NatToString(i + 1);
    var b := NatToString(j + 1) + ")=" + Show(c);
    EntryHalves(i, j, c);
    SplitTwo(a, b, ',');
    ParseNatToString(i + 1);
    ParseNatToString(j + 1);
  }

  /** An entry is its row field and its column-and-cell field around its one comma. */
  lemma EntryHalves(i: nat, j: nat, c: Cell)
    requires ',' !in Show(c)
    ensures var a := "(" + NatToString(i + 1);
      var b := NatToString(j + 1) + ")=" + Show(c);
      Entry(i, j, c) == a + [','] + b && ',' !in a && ',' !in b
  {
    DigitsAvoid(i + 1, ',');
    DigitsAvoid(j + 1, ',');
  }

  /** A character that is no digit, no punctuation of the entry and not in the cell text is not in the entry. */
  lemma EntryAvoids(i: nat, j: nat, c: Cell, ch: char)
    requires !IsDigit(ch) && ch !in "(,)=" && ch !in Show(c)
    ensures ch !in Entry(i, j, c)
  {
    DigitsAvoid(i + 1, ch);
    DigitsAvoid(j + 1, ch);
  }

  /** The pieces are the entries, each but the last followed by a comma. */
  predicate CommaPieces(ts: seq<string>, es: seq<string>) {
    && |ts| == |es| >= 1
    && (forall m :: 0 <= m < |es| - 1 ==> ts[m] == es[m] + ",")
    && ts[|es| - 1] == es[|es| - 1]
  }

  /** Splitting pieces joined by ", " at spaces gives each piece with its comma, the last without. */
  lemma {:induction false} SplitCommaSpace(es: seq<string>)
    requires |es| >= 1 && forall m :: 0 <= m < |es| ==> ' ' !in es[m]
    ensures CommaPieces(Split(Join(es, ", "), ' '), es)
  {
    if |es| == 1 {
      SplitNoSep(es[0], ' ');
    } else {
      var rest := Join(es[1..], ", ");
      var ts := Split(Join(es, ", "), ' ');
      var tr := Split(rest, ' ');
      assert CommaPieces(tr, es[1..]) by {
        SplitCommaSpace(es[1..]);
      }
      assert ts == [es[0] + ","] + tr by {
        assert Join(es, ", ") == (es[0] + ",") + [' '] + rest;
        SplitAppend(es[0] + ",", rest, ' ');
        assert ' ' !in es[0] + ",";
        SplitNoSep(es[0] + ",", ' ');
      }
      forall m | 0 <= m < |es| - 1
        ensures ts[m] == es[m] + ","
      {
        if m > 0 {
          assert ts[m] == tr[m - 1] && es[1..][m - 1] == es[m];
        }
      }
      assert ts[|es| - 1] == tr[|es| - 2];
    }
  }


  /** Entry m is the entry of the m-th cell, in row-major order, that is not the number 0. */
  lemma SparseEntryAt(puzzle: Puzzle, m: nat)
    requires m < |RowCoords(puzzle, 0)|
    ensures var cs := RowCoords(puzzle, 0);
      SparseEntries(puzzle)[m] == Entry(cs[m].0, cs[m].1, puzzle[cs[m].0][cs[m].1])
  {
  }

  /** Entries of plain cells hold no space. */
  lemma SparseEntriesUnspaced(puzzle: Puzzle)
    requires PlainCells(puzzle)
    ensures forall m :: 0 <= m < |SparseEntries(puzzle)| ==> ' ' !in SparseEntries(puzzle)[m]
  {
    var es := SparseEntries(puzzle);
    var cs := RowCoords(puzzle, 0);
    forall m | 0 <= m < |es|
      ensures ' ' !in es[m]
    {
      var c := puzzle[cs[m].0][cs[m].1];
      assert Plain(Show(c));
      SparseEntryAt(puzzle, m);
      EntryAvoids(cs[m].0, cs[m].1, c, ' ');
    }
  }

  /**
   * With no space or comma inside a cell text, the sparse text splits at
   * spaces into one piece per cell that is not the number 0, in row-major
   * order: that cell's entry, followed by a comma on every piece but the last.
   */
  lemma SparseLayout(puzzle: Puzzle)
    requires PlainCells(puzzle) && |SparseEntries(puzzle)| >= 1
    ensures CommaPieces(Split(SparseCoordinates(puzzle), ' '), SparseEntries(puzzle))
  {
    SparseEntriesUnspaced(puzzle);
    SplitCommaSpace(SparseEntries(puzzle));
  }

  /**
   * Piece m of the sparse text, split at spaces, is the entry of the m-th cell
   * in row-major order that is not the number 0, "(i+1,j+1)=" and the cell's
   * text, followed by a comma on every piece but the last.
   */
  lemma SparsePiece(puzzle: Puzzle, m: nat)
    requires PlainCells(puzzle) && m < |RowCoords(puzzle, 0)|
    ensures var cs := RowCoords(puzzle, 0);
      var ts := Split(SparseCoordinates(puzzle), ' ');
      && |ts| == |cs|
      && ts[m] == Entry(cs[m].0, cs[m].1, puzzle[cs[m].0][cs[m].1]) + (if m + 1 < |cs| then "," else "")
  {
    var cs := RowCoords(puzzle, 0);
    var e := Entry(cs[m].0, cs[m].1, puzzle[cs[m].0][cs[m].1]);
    SparseLayout(puzzle);
    SparseEntryAt(puzzle, m);
    CommaPiece(Split(SparseCoordinates(puzzle), ' '), SparseEntries(puzzle), m, e);
  }

  /** Piece m of comma pieces is entry m, with a comma unless it is the last. */
  lemma CommaPiece(ts: seq<string>, es: seq<string>, m: nat, e: string)
    requires CommaPieces(ts, es) && m < |es| && es[m] == e
    ensures |ts| == |es| && ts[m] == e + (if m + 1 < |es| then "," else "")
  {
    if m + 1 == |es| {
      assert ts[|es| - 1] == es[|es| - 1];
    }
  }

  /** The sparse text is empty exactly when every cell is the number 0. */
  lemma SparseEmpty(puzzle: Puzzle)
    ensures SparseCoordinates(puzzle) == "" <==>
      forall i, j :: 0 <= i < |puzzle| && 0 <= j < |puzzle[i]| ==> puzzle[i][j] == Num(0)
  {
    var cs := RowCoords(puzzle, 0);
    var es := SparseEntries(puzzle);
    if |cs| > 0 {
      assert puzzle[cs[0].0][cs[0].1] != Num(0);
      assert SparseCoordinates(puzzle) != "" by {
        assert |es[0]| > 0 by {
          SparseEntryAt(puzzle, 0);
        }
        JoinStarts(es, ", ");
      }
    }
  }

  // ---------------------------------------------------------------- markdown table

  /** The letter naming row i: A for the first row, then on through the character table. */
  function Label(i: nat): char
    requires i < 0xD800 - 65
  {
    (65 + i) as char
  }

  /** Each text surrounded by one space on either side. */
  function Pad(xs: seq<string>): (ps: seq<string>)
    ensures |ps| == |xs| && forall m :: 0 <= m < |xs| ==> ps[m] == " " + xs[m] + " "
  {
    seq(|xs|, m requires 0 <= m < |xs| => " " + xs[m] + " ")
  }

  /** A table line: a bar, the lead cell, a bar, then the cells separated by spaced bars, closing with a bar. */
  function TableLine(lead: string, xs: seq<string>): string {
    "| " + lead + " | " + Join(xs, " | ") + " |"
  }

  function ColumnNumbers(n: nat): (ts: seq<string>)
    ensures |ts| == n && forall j :: 0 <= j < n ==> ts[j] == NatToString(j + 1)
  {
    seq(n, j requires 0 <= j < n => NatToString(j + 1))
  }

  function Divider(n: nat): string {
    "|---|" + Concat(seq(n, _ => "---|"))
  }

  function MarkdownLines(puzzle: Puzzle): (lines: seq<string>)
    requires |puzzle| < 0xD800 - 65
  {
    [TableLine(" ", ColumnNumbers(|puzzle|)), Divider(|puzzle|)]
      + seq(|puzzle|, i requires 0 <= i < |puzzle| => TableLine([Label(i)], Texts(puzzle[i])))
  }

  /** A header of column numbers, a divider, then one line per row labelled by its letter. */
  function MarkdownTable(puzzle: Puzzle): string
    requires |puzzle| < 0xD800 - 65
  {
    Join(MarkdownLines(puzzle), "\n")
  }

  lemma {:induction false} PadJoin(xs: seq<string>)
    requires |xs| >= 1
    ensures " " + Join(xs, " | ") + " " == Join(Pad(xs), "|")
  {
    if |xs| > 1 {
      PadJoin(xs[1..]);
      assert Pad(xs)[1..] == Pad(xs[1..]);
      assert " " + Join(xs, " | ") + " " == (" " + xs[0] + " ") + "|" + (" " + Join(xs[1..], " | ") + " ");
    }
  }

  /**
   * A table line with at least one cell and no bar in its texts splits at
   * bars into: an empty piece, the padded lead, each padded cell text in
   * order, and an empty piece.
   */
  lemma TableLineCells(lead: string, xs: seq<string>)
    requires |xs| >= 1 && '|' !in lead && forall m :: 0 <= m < |xs| ==> '|' !in xs[m]
    ensures Split(TableLine(lead, xs), '|') == ["", " " + lead + " "] + Pad(xs) + [""]
  {
    var parts := ["", " " + lead + " "] + Pad(xs) + [""];
    TableLineJoin(lead, xs);
    forall k | 0 <= k < |parts|
      ensures '|' !in parts[k]
    {
      if 2 <= k < |parts| - 1 {
        assert parts[k] == Pad(xs)[k - 2];
      }
    }
    SplitJoin(parts, '|');
  }

  /** A table line is its padded pieces, with an empty piece at either end, joined by bars. */
  lemma TableLineJoin(lead: string, xs: seq<string>)
    requires |xs| >= 1
    ensures TableLine(lead, xs) == Join(["", " " + lead + " "] + Pad(xs) + [""], "|")
  {
    var m := " " + lead + " ";
    var inner := Join(Pad(xs), "|");
    var parts := ["", m] + Pad(xs) + [""];
    assert Join(Pad(xs) + [""], "|") == inner + "|" by {
      JoinAppend(Pad(xs), [""], "|");
    }
    assert Join(parts, "|") == "|" + m + "|" + inner + "|" by {
      assert parts == ["", m] + (Pad(xs) + [""]);
      JoinAppend(["", m], Pad(xs) + [""], "|");
      assert Join(["", m], "|") == "|" + m;
    }
    assert TableLine(lead, xs) == "|" + m + "|" + inner + "|" by {
      PadJoin(xs);
    }
  }

  lemma {:induction false} DividerLength(n: nat)
    ensures |Divider(n)| == 5 + 4 * n && '\n' !in Divider(n)
  {
    if n > 0 {
      DividerLength(n - 1);
      assert seq(n, _ => "---|") == seq(n - 1, _ => "---|") + ["---|"];
      ConcatAppend(seq(n - 1, _ => "---|"), ["---|"]);
    }
  }

  /**
   * The markdown table of N >= 1 rows of plain cells splits at newlines into
   * N + 2 lines: the header, whose piece j + 2 between bars holds column
   * number j + 1; the divider of 5 + 4 N characters; and for row i its line,
   * whose piece 1 holds the row's letter and piece j + 2 the text of cell j.
   */
  lemma MarkdownLayout(puzzle: Puzzle)
    requires 1 <= |puzzle| < 0xD800 - 65 && PlainCells(puzzle)
    requires forall i :: 0 <= i < |puzzle| ==> |puzzle[i]| >= 1
    ensures var n := |puzzle|;
      var lines := Split(MarkdownTable(puzzle), '\n');
      && |lines| == n + 2
      && Split(lines[0], '|') == ["", "   "] + Pad(ColumnNumbers(n)) + [""]
      && lines[1] == Divider(n) && |lines[1]| == 5 + 4 * n
      && (forall i :: 0 <= i < n && Label(i) != '|' ==>
            Split(lines[i + 2], '|') == ["", " " + [Label(i)] + " "] + Pad(Texts(puzzle[i])) + [""])
  {
    var n := |puzzle|;
    var lines := MarkdownLines(puzzle);
    forall j | 0 <= j < n
      ensures '|' !in ColumnNumbers(n)[j] && '\n' !in ColumnNumbers(n)[j]
    {
      DigitsAvoid(j + 1, '|');
      DigitsAvoid(j + 1, '\n');
    }
    JoinAvoids(ColumnNumbers(n), " | ", '\n');
    DividerLength(n);
    forall m | 2 <= m < |lines|
      ensures '\n' !in lines[m]
    {
      JoinAvoids(Texts(puzzle[m - 2]), " | ", '\n');
    }
    SplitJoin(lines, '\n');
    TableLineCells(" ", ColumnNumbers(n));
    assert lines[0] == TableLine(" ", ColumnNumbers(n));
    assert " " + " " + " " == "   ";
    forall i | 0 <= i < n && Label(i) != '|'
      ensures Split(lines[i + 2], '|') == ["", " " + [Label(i)] + " "] + Pad(Texts(puzzle[i])) + [""]
    {
      TableLineCells([Label(i)], Texts(puzzle[i]));
    }
  }

  // ---------------------------------------------------------------- XML

  /** The element of row i: its 1-based index as an attribute and its cells joined by commas. */
  function XmlRow(i: nat, row: seq<Cell>): string {
    "  <row index=\"" + NatToString(i + 1) + "\">" + CsvLine(row) + "</row>"
  }

  /** A row element of plain cells is a single line. */
  lemma XmlRowSingle(i: nat, row: seq<Cell>)
    requires forall j :: 0 <= j < |row| ==> Plain(Show(row[j]))
    ensures '\n' !in XmlRow(i, row)
  {
    JoinAvoids(Texts(row), ",", '\n');
    DigitsAvoid(i + 1, '\n');
  }

  function XmlLines(puzzle: Puzzle): seq<string> {
    ["<sudoku>"] + seq(|puzzle|, i requires 0 <= i < |puzzle| => XmlRow(i, puzzle[i])) + ["</sudoku>"]
  }

  /** An opening root element, one row element per row, and the closing root element. */
  function Xml(puzzle: Puzzle): string {
    Join(XmlLines(puzzle), "\n")
  }

  /**
   * The XML text of a puzzle of plain cells splits at newlines into N + 2
   * lines: the opening root element, the element of row i at line i + 1,
   * the closing root element; the body of a non-empty row's element splits
   * at commas into the row's cell texts.
   */
  lemma XmlLayout(puzzle: Puzzle)
    requires PlainCells(puzzle)
    ensures var lines := Split(Xml(puzzle), '\n');
      && |lines| == |puzzle| + 2
      && lines[0] == "<sudoku>" && lines[|puzzle| + 1] == "</sudoku>"
      && (forall i :: 0 <= i < |puzzle| ==> lines[i + 1] == XmlRow(i, puzzle[i]))
      && (forall i :: 0 <= i < |puzzle| && |puzzle[i]| >= 1 ==> Split(CsvLine(puzzle[i]), ',') == Texts(puzzle[i]))
  {
    var lines := XmlLines(puzzle);
    forall m | 0 <= m < |lines|
      ensures '\n' !in lines[m]
    {
      if 1 <= m < |lines| - 1 {
        assert lines[m] == XmlRow(m - 1, puzzle[m - 1]);
        XmlRowSingle(m - 1, puzzle[m - 1]);
      }
    }
    SplitJoin(lines, '\n');
    forall i | 0 <= i < |puzzle| && |puzzle[i]| >= 1
      ensures Split(CsvLine(puzzle[i]), ',') == Texts(puzzle[i])
    {
      CsvLineRoundTrip(puzzle[i]);
    }
  }
  // ---------------------------------------------------------------- dispatch

  /** The converters a format number selects; two converters serve two formats each. */
  datatype Converter =
    | InlineFormat
    | RowListFormat
    | KeyValueFormat
    | SeparatedGridFormat(separator: bool)
    | CsvFormat
    | CoordinateFormat(sparse: bool)
    | MarkdownFormat
    | KeyedFormat
    | XmlFormat

  /** The converter's own table of format numbers, descriptions and converters. */
  function FormatMethods(): (t: seq<(int, (string, Converter))>)
    ensures |t| == 11 && forall k :: 0 <= k < |t| ==> t[k].0 == k + 1
  {
    [(1, ("Inline String Format", InlineFormat)),
     (2, ("Row-by-Row List Format", RowListFormat)),
     (3, ("Key-Value Row Mapping", KeyValueFormat)),
     (4, ("Grid with Separators", SeparatedGridFormat(true))),
     (5, ("CSV Format", CsvFormat)),
     (6, ("Coordinate List Format", CoordinateFormat(false))),
     (7, ("Box-Oriented Format", SeparatedGridFormat(false))),
     (8, ("Sparse Coordinate Format", CoordinateFormat(true))),
     (9, ("Markdown Table Format", MarkdownFormat)),
     (10, ("Alphanumeric Keyed Format", KeyedFormat)),
     (11, ("XML Format", XmlFormat))]
  }

  /** The description and converter of a format number; an unlisted number selects nothing. */
  function FormatFor(choice: int): (r: Option<(string, Converter)>)
    ensures r.Some? <==> 1 <= choice <= 11
    ensures r.Some? ==> (choice, r.value) == FormatMethods()[choice - 1]
  {
    Config.LookupPositional(FormatMethods(), 1, choice);
    Config.Lookup(FormatMethods(), choice)
  }

  /**
   * Exactly the numbers 1 to 11 select a format, and each number's
   * description is the one the configuration lists for it. Formats 4 and 7
   * are the separated grid with and without dash lines, formats 8 and 6 the
   * coordinate list with and without the sparse layout.
   */
  lemma FormatTableMatchesConfig(choice: int)
    ensures FormatFor(choice).Some? <==> 1 <= choice <= 11
    ensures FormatFor(choice).Some? ==> Config.Lookup(Config.ConversionFormats(), choice) == Some(FormatFor(choice).value.0)
    ensures choice == 4 || choice == 7 ==> FormatFor(choice) == Some((FormatFor(choice).value.0, SeparatedGridFormat(choice == 4)))
    ensures choice == 6 || choice == 8 ==> FormatFor(choice) == Some((FormatFor(choice).value.0, CoordinateFormat(choice == 8)))
  {
    Config.LookupPositional(FormatMethods(), 1, choice);
    Config.LookupPositional(Config.ConversionFormats(), 1, choice);
    DescriptionsAgree();
  }

  /** Both tables give every number the same description. */
  lemma DescriptionsAgree()
    ensures forall k :: 0 <= k < 11 ==> FormatMethods()[k].1.0 == Config.ConversionFormats()[k].1
  {
  }

  /** The format number that selects a converter. */
  function ChoiceOf(c: Converter): int {
    match c
    case InlineFormat => 1
    case RowListFormat => 2
    case KeyValueFormat => 3
    case SeparatedGridFormat(separator) => if separator then 4 else 7
    case CsvFormat => 5
    case CoordinateFormat(sparse) => if sparse then 8 else 6
    case MarkdownFormat => 9
    case KeyedFormat => 10
    case XmlFormat => 11
  }

  /** Each entry of the table is listed under the number of its converter. */
  lemma FormatMethodsNumbered()
    ensures forall k :: 0 <= k < |FormatMethods()| ==> ChoiceOf(FormatMethods()[k].1.1) == k + 1
  {
  }

  /** The converter a format number selects is listed under that number. */
  lemma ChoiceOfFormat(choice: int)
    ensures FormatFor(choice).Some? ==> ChoiceOf(FormatFor(choice).value.1) == choice
  {
    Config.LookupPositional(FormatMethods(), 1, choice);
    FormatMethodsNumbered();
  }

  /**
   * The number a converter is listed under selects it. With ChoiceOfFormat:
   * different numbers select different converters, and every converter is
   * selected by some number.
   */
  lemma FormatOfChoice(c: Converter)
    ensures FormatFor(ChoiceOf(c)).Some? && FormatFor(ChoiceOf(c)).value.1 == c
  {
    Config.LookupPositional(FormatMethods(), 1, ChoiceOf(c));
    var t := FormatMethods();
    match c
    case SeparatedGridFormat(separator) =>
      assert t[3].1.1 == SeparatedGridFormat(true) && t[6].1.1 == SeparatedGridFormat(false);
    case CoordinateFormat(sparse) =>
      assert t[5].1.1 == CoordinateFormat(false) && t[7].1.1 == CoordinateFormat(true);
    case _ =>
  }
}
