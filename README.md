# Sudoku4LLM puzzle engine, serialisers and configuration in Dafny

This project models the core of Sudoku4LLM, a generator of Sudoku puzzles
that are meant as prompts for language models. It has three parts:

- **The puzzle engine** (`Generator.SudokuGenerator`). A generator object owns
  an N×N grid of integers with 0 as the empty marker.
  - `FillGrid` fills the grid by randomized backtracking (place, recurse, undo).
  - `HasUniqueSolution` counts completions with a bounded backtracking search
    that stops once the count passes 1.
  - `RemoveNumbers` overwrites cells with the placeholder and rolls a cell back
    when the uniqueness check fails.
  - `GeneratePuzzle` resets the grid, fills it, then removes cells.

  The engine is imperative: the class holds the grid in a `seq<seq<int>>`
  field that its methods reassign cell by cell. Each method is proved against
  a ghost specification:
  - `Solutions.Count` is the number of leaves of the search tree, with lemmas
    linking it to the number of completions.
  - `Generator.RemoveRun` is the removal loop over a finite sequence of draws.
- **The text serialisers** of the format converter (`Formats`): inline
  string, CSV, grid with separators / box-oriented grid, sparse coordinate
  list, markdown table and XML. There is also the table that maps a format
  number to its converter. Each layout is stated exactly. For the layouts that
  keep every cell, lemmas show how the cell texts are read back.
- **The configuration** (`Config`): the preset table, the placeholder and
  format tables, and the validator of grid and block sizes.

Modules: `Wrappers` (Option, Result), `Arith` (division facts), `Rules`
(grids, placement, legality), `Solutions` (completions and the search-tree
count), `Generator` (the engine), `Removal` (properties of the removal
loop), `Findings` (the two defects below), `Text` (join, split, decimal
text), `Config` and `Formats`.

Modelling choices:

- **Placeholder.** The placeholder is an integer `p` outside 1..N.
  - `p == 0` stands for a placeholder equal to the empty marker.
  - Any other `p` stands for the string placeholders. The shipped driver
    always passes one of the strings "0", ".", "_", "*" or "?", and none of
    them equals the integer 0 (sudoku_generator.py:173-186).
- **Blocks.** A block is always `sub_grid_size × sub_grid_size`, as the legality
  test computes it. For the 6×6 preset that means 2×2 blocks, although the
  preset's rules text speaks of 2×3 sub-grids; the model follows the code.
- **Randomness.** The caller supplies it.
  - `order(k)` is the candidate order of the k-th call of the filler.
  - `picks` is the sequence of cells the removal loop draws.
- **Grid width in the converter.** The width of the separated grid is the
  integer square root of N. It equals the code's `int(N ** 0.5)` for the
  grid sizes in use.

## Model

| member | source | states |
|---|---|---|
| Generator.SudokuGenerator.constructor | sudoku_generator.py:9-15 | the new generator keeps the four settings and its grid is N×N, all 0 |
| Generator.NewGenerator | sudoku_generator.py:9-19 | construction fails with the placeholder error exactly when the placeholder is one of 1..N; otherwise it returns a fresh, valid generator with an all-zero grid and the given settings |
| Generator.SudokuGenerator.IsSafe | sudoku_generator.py:21-34 | true exactly when num occurs nowhere in the row, the column or the S×S block of (row, col); nothing is written |
| Generator.SudokuGenerator.FindEmptyCell | sudoku_generator.py:36-42 | None exactly when no cell holds 0; otherwise the first cell holding 0 in row-major order |
| Generator.SudokuGenerator.FillGrid | sudoku_generator.py:44-59 | succeeds exactly when the entry grid has a completion; on success the grid is a completion of the entry grid (non-zero cells kept, every 0 filled with a value in 1..N that no peer repeats); on failure the grid is exactly the entry grid |
| Generator.CompletingCandidate | sudoku_generator.py:51-59 | when a completion exists, some candidate in any shuffled order is legal and keeps a completion, so trying them all cannot fail |
| Generator.SudokuGenerator.Solve | sudoku_generator.py:84-97 | the shared counter ends at min(counter + leaves of the search tree, 2); the grid is as on entry |
| Generator.SudokuGenerator.TryNumber | sudoku_generator.py:92-97 | one candidate of the inner search adds that candidate's leaves to the counter, capped at 2, and resets the cell it filled |
| Generator.SolveStep | sudoku_generator.py:94-97 | once the capped counter passes 1 it equals the final capped total, so stopping early loses nothing |
| Generator.SudokuGenerator.HasUniqueSolution | sudoku_generator.py:78-100 | true exactly when the grid has exactly one completion; the grid is left as on entry |
| Generator.RemovalTarget | sudoku_generator.py:63-64 | the target is N·N·percent/100 truncated toward zero: bounded by the product, non-negative for non-negative percent, at most N·N for percent up to 100 |
| Generator.SudokuGenerator.RemoveNumbers | sudoku_generator.py:61-76 | the new grid and the counter are those of the removal loop run on the entry grid with the computed target and the supplied draws |
| Generator.SudokuGenerator.GeneratePuzzle | sudoku_generator.py:102-107 | the grid is reset to 0 and filled; the grid handed to removal is solved whenever the empty grid is completable and is all zeros otherwise; the puzzle is the removal loop's result on it |
| Generator.SudokuGenerator.RemoveNumbersIntended | sudoku_generator.py:61-76 | corrected removal: the result equals the removal loop run with 0 as the clearing mark, followed by writing the placeholder into every cleared cell; with the check off the counter ends at the target less the different filled cells drawn, or at 0 |
| Generator.RemoveStep | sudoku_generator.py:66-76 | one draw counts exactly when the drawn cell is filled and, with the check on, the grid with that cell cleared is uniquely completable; a counted draw writes the placeholder there, an uncounted one leaves the grid as it was |
| Generator.RemoveRun | sudoku_generator.py:66-76 | the removal loop keeps the grid N×N; the counter never rises, and from a positive start ends between 0 and its start, dropping by at most the number of draws; a counter left unchanged means an unchanged grid |
| Generator.IntendedRemoval | sudoku_generator.py:61-76 | the corrected removal keeps the grid N×N and the counter in the same bounds, and with a non-zero placeholder leaves no 0 cell that the input did not have; with the check off and a positive target the counter ends at the target less the number of different filled cells drawn, or at 0 |
| Generator.RemoveRunCounts | sudoku_generator.py:66-76 | with the check off and 0 as the clearing mark, the counter ends at its start less the number of different filled cells drawn, or at 0 if that many were drawn |
| Generator.FilledDrawnAll | sudoku_generator.py:66-68 | in a grid without empty cells every drawn cell is a filled one |
| Removal.RemoveStepFrame | sudoku_generator.py:66-76 | one draw changes at most the drawn cell, never a cell holding 0; it counts exactly when the cell was filled and the check, if on, passes; a counted draw writes the placeholder there, an uncounted one leaves the grid unchanged |
| Removal.RemoveRunFrame | sudoku_generator.py:66-76 | the loop only turns non-zero cells into the placeholder; the counter never rises, falls by at most the number of draws and stops at 0; an unchanged counter means an unchanged grid |
| Removal.RemoveRunUncheckedCounts | sudoku_generator.py:66-76 | as written, with the check off and a non-zero placeholder from a grid without empty cells, every draw counts, repeated cells included: the counter ends at its start less the number of draws, or at 0 |
| Removal.RemoveRunPlaceholders | sudoku_generator.py:68-76 | placeholder cells grow by at most the number of counted draws, and exactly by it when the placeholder is 0 |
| Removal.ThinnedConsistent | sudoku_generator.py:68-70 | overwriting cells with a placeholder outside 1..N keeps a grid free of repeated values between peers |
| Removal.RemoveRunConsistent | sudoku_generator.py:66-76 | the removal loop keeps a consistent grid consistent |
| Removal.RemoveRunKeepsUnique | sudoku_generator.py:72-76 | with the check on, the grid the loop ends with has exactly one completion if the start grid had one or at least one draw counted |
| Rules.Place | sudoku_generator.py:55 | writing a cell changes that cell to the value and nothing else |
| Rules.PlaceUndo | sudoku_generator.py:55-58 | writing a cell and then writing back its old value restores the grid |
| Rules.FirstZero | sudoku_generator.py:36-42 | the first 0 in row-major order: None exactly when no cell holds 0 |
| Rules.FirstZeroUnique | sudoku_generator.py:38-41 | the first-zero cell is determined by the grid |
| Rules.PlaceFillsZero | sudoku_generator.py:55 | filling an empty cell with a non-zero value removes exactly one empty cell, which bounds the recursion |
| Rules.OccurrencesPlace | sudoku_generator.py:70 | writing a cell changes the number of cells holding a value by the old and new contents of that cell only |
| Rules.OccurrencesReplace | sudoku_generator.py:70 | replacing every a by b makes the b-count the sum of the old a- and b-counts |
| Rules.Empty | sudoku_generator.py:15 | the N×N grid of zeros |
| Rules.BlockOrigin | sudoku_generator.py:26-29 | the block origin S·(r div S) is at most r and within S of it |
| Rules.BlockBand | sudoku_generator.py:26-33 | an index lies in the block of r exactly when it has the same quotient by S |
| Solutions.LiftCompletion | sudoku_generator.py:54-57 | a completion after a legal placement is a completion of the grid before it |
| Solutions.LowerCompletion | sudoku_generator.py:53-56 | a completion's value at the empty cell is a legal candidate whose placement it still completes |
| Solutions.ZeroFreeCompletion | sudoku_generator.py:46-48 | a grid without empty cells is its own and only completion |
| Solutions.CountPositive | sudoku_generator.py:84-97 | the search finds at least one leaf exactly when a completion exists |
| Solutions.AmbiguousFromCount | sudoku_generator.py:84-97 | two or more leaves imply two different completions |
| Solutions.CountFromAmbiguous | sudoku_generator.py:84-97 | two different completions imply two or more leaves |
| Solutions.CountAtLeastTwo | sudoku_generator.py:96-97 | at least two leaves exactly when two different completions exist |
| Solutions.CountOneIffUnique | sudoku_generator.py:100 | exactly one leaf exactly when exactly one completion exists |
| Solutions.CompletionSolves | sudoku_generator.py:104-105 | completing a consistent grid of numbers gives a solved grid: every cell in 1..N, no value repeated in a row, a column or a block |
| Solutions.SolvedCompletes | sudoku_generator.py:46-59 | a solved grid that agrees with the filled cells of g is a completion of g |
| Findings.ZeroFreeUnique | sudoku_generator.py:86-89 | a grid without a 0 cell counts as uniquely solvable |
| Findings.UniquenessCheckVacuous | sudoku_generator.py:68-76 | with a placeholder other than 0, the removal loop from a full grid gives the same result with the check on as with it off |
| Findings.FullGridSolved | sudoku_generator.py:44-59 | the 4×4 example grid is solved |
| Findings.SwappedGridSolved | sudoku_generator.py:44-59 | the 4×4 example grid with a 2×2 rectangle of values swapped is solved too |
| Findings.RectangleRun | sudoku_generator.py:66-76 | the removal loop with the check on clears the four rectangle cells of the example grid and counts all four |
| Findings.RectangleRunUnchecked | sudoku_generator.py:66-76 | the same draws with the check off give the same puzzle |
| Findings.RectangleReplaced | sudoku_generator.py:70 | blanking the placeholder cells of that puzzle gives the grid with the rectangle empty |
| Findings.RectangleBlankAmbiguous | sudoku_generator.py:78-100 | the grid with the rectangle empty has two different completions |
| Findings.AmbiguousPuzzleAccepted | sudoku_generator.py:61-100 | with a string placeholder and the check on, the 25% removal of the example grid yields a puzzle whose cleared cells admit two solutions |
| Findings.RepeatedDrawCountsTwice | sudoku_generator.py:66-76 | drawing the same filled cell twice with a non-zero placeholder counts two removals while only one cell took the placeholder |
| Findings.IntendedRemovalCorrect | sudoku_generator.py:61-76 | corrected removal from a solved grid: exactly `count - left` placeholder cells, each a cleared cell of the blank grid; other cells unchanged; the puzzle consistent; the solved grid completes the blank one, and is its only completion whenever the check is on |
| Findings.IntendedRemovalReachesTarget | sudoku_generator.py:61-76 | corrected removal with the check off from a solved grid: the counter ends at the target less the number of different cells drawn, or at 0, and the puzzle has the placeholder on the target number of cells once that many different cells were drawn, on all of them otherwise |
| Config.Lookup | format_convertor.py:130-135 | a key finds a value exactly when the table lists it, and the value is listed under it |
| Config.LookupPositional | format_convertor.py:116-130 | in a table numbered from base, a key finds the entry at its offset and nothing outside the range |
| Config.Preset4x4 | config.py:6-31 | the 4x4 preset validates, its levels are graded and its defaults are listed |
| Config.Preset6x6 | config.py:33-59 | the same for the 6x6 preset |
| Config.Preset9x9 | config.py:61-88 | the same for the 9x9 preset |
| Config.Configs | config.py:3-91 | the versions are 4x4, 6x6 and 9x9, in that order, and each is well formed |
| Config.PlaceholderOptions | config.py:94-102 | five placeholder keys, each one character, all different |
| Config.ConversionFormats | config.py:105-120 | eleven formats numbered 1 to 11 in order |
| Config.ConversionFormatNumbers | config.py:107-119 | a format number is listed exactly when it is in 1..11 |
| Config.ValidateConfig | config.py:123-133 | a zero block size fails at the remainder with a division error; otherwise the divisibility error is reported exactly when the remainder is non-zero, and the positivity error exactly when the remainder is zero and a size is not positive; success implies positive sizes with the block size dividing the grid size |
| Config.ValidateConfigExactly | config.py:123-133 | an entry validates exactly when both sizes are positive and the grid size is a multiple of the block size |
| Config.ValidateAllConfigs | config.py:136-142 | success exactly when every entry validates; otherwise the error is that of the first failing entry, tagged with its version unless it is the division error |
| Config.ShippedConfigsValid | config.py:3-91 | the shipped table passes the whole-table validation |
| Text.SplitJoin | format_convertor.py:74 | joining pieces without the separator and splitting again gives the pieces back |
| Text.ParseNatToString | format_convertor.py:79 | the decimal text of a number reads back as that number |
| Formats.Show | format_convertor.py:48 | a number's text has no separator character and, for 0..9, is the one digit; a placeholder string is shown as it is |
| Formats.InlineString | format_convertor.py:46-48 | the cell texts glued row by row; its layout is stated by Formats.InlineLayout and Formats.InlineRows |
| Formats.InlineLayout | format_convertor.py:46-48 | when every cell's text is one character, the inline string has N·n characters and character i·n + j is cell (i, j) |
| Formats.InlineRows | format_convertor.py:48 | row i's cell texts appear, in order, from position RowStart(i) of the inline string |
| Formats.InlineRowsLength | format_convertor.py:48 | the inline string is as long as all rows together |
| Formats.PlaceholdersOneCharacter | config.py:94-102 | every configured placeholder is shown as one character |
| Formats.Csv | format_convertor.py:72-74 | the rows' comma-joined lines joined by newlines; read back by Formats.CsvRoundTrip |
| Formats.CsvLineRoundTrip | format_convertor.py:74 | a CSV line of plain cells has no newline and splits at commas into the row's cell texts |
| Formats.CsvRoundTrip | format_convertor.py:72-74 | the CSV text splits at newlines into N lines, and line i splits at commas into row i's cell texts |
| Formats.Isqrt | format_convertor.py:62 | the integer square root r satisfies r² ≤ N < (r + 1)² |
| Formats.ChunksCover | format_convertor.py:65-66 | a row's chunks, concatenated, give the row back; each chunk has 1 to k cells; chunks of plain cells are plain |
| Formats.BarTokens | format_convertor.py:66-67 | splitting a row line at spaces and dropping the bar tokens gives back the chunks' cells in order |
| Formats.RowLineTokens | format_convertor.py:63-67 | deleting the separators from a row's line recovers the row's cell texts in order |
| Formats.DashLineAligned | format_convertor.py:69 | the dash line is as long as its row line and has its bars exactly where the row line has them |
| Formats.GridLinesPlain | format_convertor.py:63-70 | without separators there is one line per row, in order |
| Formats.GridLinesBands | format_convertor.py:63-70 | with separators, row i sits at line i + i div k, a dash line follows each band-closing row except the last, and there are no other lines |
| Formats.GridLayout | format_convertor.py:58-70 | the grid text splits at newlines into exactly those lines: N lines without separators, N + (N − 1) div k with them |
| Formats.GridWithSeparators | format_convertor.py:58-70 | the grid lines joined by newlines, the empty text for no rows; its lines are stated by Formats.GridLayout, Formats.GridLinesPlain and Formats.GridLinesBands |
| Formats.RowCoords | format_convertor.py:79-81 | the positions of the cells that are not the number 0: exactly those, each once, in row-major order |
| Formats.EntryFields | format_convertor.py:79 | an entry splits at its comma into the two coordinate halves, and each 1-based index reads back |
| Formats.SparseCoordinates | format_convertor.py:76-81 | the entries of the cells that are not the number 0 joined by ", "; its pieces are stated by Formats.SparseLayout and Formats.SparsePiece |
| Formats.SparseLayout | format_convertor.py:78-81 | the sparse list splits at spaces into one piece per entry, in order, each but the last ending with a comma |
| Formats.SparsePiece | format_convertor.py:76-81 | there are as many space-separated pieces as cells that are not the number 0, and piece m is "(i+1,j+1)=" followed by the text of the m-th such cell in row-major order, with a comma after it unless it is the last |
| Formats.SparseEmpty | format_convertor.py:76-81 | the sparse text is empty exactly when every cell is the number 0 |
| Formats.TableLineCells | format_convertor.py:90-93 | a table line splits at bars into the padded lead cell and the padded cells |
| Formats.DividerLength | format_convertor.py:91 | the divider is "\|---\|" followed by N groups "---\|": 5 + 4N characters, no newline |
| Formats.MarkdownTable | format_convertor.py:87-94 | the header, the divider and the row lines joined by newlines; its lines are stated by Formats.MarkdownLayout |
| Formats.MarkdownLayout | format_convertor.py:87-94 | N + 2 lines: a header of column numbers 1..N, the divider, then row i labelled chr(65 + i) with its cell texts |
| Formats.Xml | format_convertor.py:102-108 | the root element's lines joined by newlines; its lines are stated by Formats.XmlLayout |
| Formats.XmlLayout | format_convertor.py:102-108 | N + 2 lines: the opening root element, row i's element at line i + 1, the closing root element; a row element's body splits at commas into the cell texts |
| Formats.FormatMethods | format_convertor.py:116-128 | eleven entries numbered 1 to 11 in order |
| Formats.FormatFor | format_convertor.py:116-135 | a choice selects a format exactly when it is in 1..11, and then it selects the description and converter listed under that number |
| Formats.FormatTableMatchesConfig | format_convertor.py:116-132 | exactly the choices 1..11 select a format, each with the description the configuration lists; 4 and 7 are the separated grid with and without dash lines, 8 and 6 the coordinate list with and without the sparse layout |
| Formats.ChoiceOfFormat | format_convertor.py:116-128 | the converter a choice selects is listed under that choice |
| Formats.FormatOfChoice | format_convertor.py:116-128 | every converter is selected by its own number, so the table is a bijection between 1..11 and the converters |

## Left out

- File and terminal I/O: saving and loading JSON Lines, the prompts that
  pick a grid size, difficulty, uniqueness and placeholder, printing, and
  `exit` on an invalid format choice. An unlisted choice is modelled as
  `FormatFor` returning `None`.
- The JSON-based formats 2, 3 and 10, and the non-sparse coordinate list
  (format 6). Their text is produced by Python's `json.dumps` and list
  `str()`, which are not part of this model. The dispatch table still lists
  their converters.
- `generate_sudoku_puzzles`, the batch driver, and `num_puzzles`: they only
  repeat `GeneratePuzzle` and save the results.
- `random.shuffle` and `random.randint` are replaced by caller-supplied
  candidate orders and draws. Their uniformity is not modelled.
- Generator.SudokuGenerator.RemoveNumbers: the source loop draws until its
  counter reaches 0 and need not terminate. The model stops when the counter
  reaches 0 or the supplied draws run out, whichever comes first.
- Generator.SudokuGenerator.HasUniqueSolution: the source takes the grid as a
  parameter but always passes the generator's own grid; the model checks the
  generator's grid.
- Generator.NewGenerator: it requires a block size that divides the grid
  size. The source does not check this; every preset satisfies it, and the
  legality test indexes outside the grid otherwise.
- Generator.SudokuGenerator.FillGrid: whether it always succeeds from an
  empty grid is not proved, since the source does not establish it.
  GeneratePuzzle states its result for both outcomes.
- Generator.RemovalTarget: Python computes `int(N*N*percent/100)` in floating
  point. The model uses exact integer division truncated toward zero, which
  agrees for the preset sizes and percentages.
- Formats.Isqrt: the grid width is the integer square root, not the
  floating-point `N ** 0.5`. The two agree for every grid size in use.
- Formats.MarkdownTable: it requires fewer than 0xD800 − 65 rows, so that
  every row label `chr(65 + i)` is a character Dafny can represent.
- Formats.MarkdownLayout: it states the split of each row line only for rows
  whose label is not a bar character (the label for row 59 is '|').
- Integer cells other than 0..9 render as their decimal text through
  `IntToString`; only the layouts that require plain cells state their
  round trips.
- Config: the rules texts, output paths and `instructions()` are
  documentation only. The 6x6 rules text describes 2×3 boxes while the code
  checks 2×2 blocks; the model follows the code.
- Config.ValidateConfig: the remainder test is exact for Python's floored
  remainder as well, since only whether it is 0 matters.

## Findings

| source | as written | input that shows it | evidently intended | confidence | as-written member | corrected member |
|---|---|---|---|---|---|---|
| sudoku_generator.py:68-100 | cleared cells receive the placeholder, which for every configured placeholder is a string and not the empty marker 0, so the uniqueness check finds no empty cell and accepts every puzzle | 4×4 solved grid, placeholder ".", check on, 25% removal, draws (0,0),(0,1),(2,0),(2,1): the resulting puzzle's cleared cells admit two solutions | the check examines the puzzle with its cleared cells empty and keeps only puzzles with one solution | not executed | Findings.AmbiguousPuzzleAccepted | Findings.IntendedRemovalCorrect |
| sudoku_generator.py:66-76 | a draw only skips cells holding 0, so with a string placeholder a cell already cleared can be drawn again and counted again | drawing (0,0) twice with target 2 and placeholder "." clears one cell and counts two | each counted draw clears a different cell, so the target number of cells ends up cleared | not executed | Findings.RepeatedDrawCountsTwice | Findings.IntendedRemovalReachesTarget |
