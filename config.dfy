/**
 * The configuration tables of the generator and their validator. Each table
 * is an ordered dictionary, modelled as a sequence of key/value pairs in the
 * order the table lists them.
 */
module Config {
  import opened Wrappers
  import opened Arith

  /**
   * The value of the first entry with the given key. A Python dictionary
   * display keeps the last of repeated keys instead; the two agree because
   * every table of the program lists each key once.
   */
  function Lookup<K(==), V>(table: seq<(K, V)>, key: K): (r: Option<V>)
    ensures r.Some? <==> exists k :: 0 <= k < |table| && table[k].0 == key
    ensures r.Some? ==> exists k :: 0 <= k < |table| && table[k] == (key, r.value)
  {
    if |table| == 0 then None
    else if table[0].0 == key then Some(table[0].1)
    else
      var r := Lookup(table[1..], key);
      assert forall k :: 1 <= k < |table| ==> table[k] == table[1..][k - 1];
      r
  }

  /** In a table numbered consecutively from base, a key finds the entry at its offset from base. */
  lemma {:induction false} LookupPositional<V>(table: seq<(int, V)>, base: int, key: int)
    requires forall k :: 0 <= k < |table| ==> table[k].0 == base + k
    ensures Lookup(table, key) == if base <= key < base + |table| then Some(table[key - base].1) else None
    decreases |table|
  {
    if |table| > 0 {
      assert forall k :: 0 <= k < |table| - 1 ==> table[1..][k] == table[k + 1];
      LookupPositional(table[1..], base + 1, key);
    }
  }

  function Keys<K, V>(table: seq<(K, V)>): (ks: seq<K>)
    ensures |ks| == |table| && forall k :: 0 <= k < |table| ==> ks[k] == table[k].0
  {
    seq(|table|, k requires 0 <= k < |table| => table[k].0)
  }

  /** One version's settings (output paths and the rules text are documentation only). */
  datatype Preset = Preset(
    gridSize: int,
    subGridSize: int,
    numPuzzles: int,
    difficultyLevels: seq<(string, int)>,
    enforceUniqueOptions: seq<(string, bool)>,
    defaultDifficulty: string,
    defaultEnforceUnique: string,
    defaultPlaceholder: string)

  /** Percentages all in 0..100, strictly increasing in the listed order. */
  predicate GradedLevels(levels: seq<(string, int)>) {
    && (forall k :: 0 <= k < |levels| ==> 0 <= levels[k].1 <= 100)
    && (forall a, b :: 0 <= a < b < |levels| ==> levels[a].1 < levels[b].1)
  }

  /** The defaults of a preset name entries of its own tables and of the placeholder table. */
  predicate DefaultsListed(p: Preset) {
    && p.defaultDifficulty in Keys(p.difficultyLevels)
    && p.defaultEnforceUnique in Keys(p.enforceUniqueOptions)
    && p.defaultPlaceholder in Keys(PlaceholderOptions())
  }

  /** The placeholder choices and their descriptions. */
  function PlaceholderOptions(): (t: seq<(string, string)>)
    ensures |t| == 5
    ensures forall k :: 0 <= k < |t| ==> |t[k].0| == 1
    ensures forall a, b :: 0 <= a < b < |t| ==> t[a].0 != t[b].0
  {
    [("0", "0 (Machine-readable formats)"),
     (".", ". (Human-readable text-based grids)"),
     ("_", "_ (Visual emphasis in puzzles)"),
     ("*", "* (Visually striking representations)"),
     ("?", "? (Expressing uncertainty/unknowns)")]
  }

  /** A preset validates, grades its levels and lists its defaults. */
  predicate WellFormed(p: Preset) {
    && ValidateConfig(p.gridSize, p.subGridSize).Success?
    && GradedLevels(p.difficultyLevels)
    && DefaultsListed(p)
    && p.enforceUniqueOptions == [("unique", true), ("non_unique", false)]
  }

  function Preset4x4(): (p: Preset)
    ensures WellFormed(p)
  {
    var p := Preset(4, 2, 100, [("beginner", 10), ("easy", 25), ("hard", 40)],
                    [("unique", true), ("non_unique", false)], "easy", "unique", "0");
    assert Keys(p.difficultyLevels)[1] == "easy";
    assert Keys(p.enforceUniqueOptions)[0] == "unique";
    assert Keys(PlaceholderOptions())[0] == "0";
    p
  }

  function Preset6x6(): (p: Preset)
    ensures WellFormed(p)
  {
    var p := Preset(6, 2, 100, [("beginner", 20), ("easy", 33), ("medium", 45), ("hard", 55)],
                    [("unique", true), ("non_unique", false)], "medium", "unique", ".");
    assert Keys(p.difficultyLevels)[2] == "medium";
    assert Keys(p.enforceUniqueOptions)[0] == "unique";
    assert Keys(PlaceholderOptions())[1] == ".";
    p
  }

  function Preset9x9(): (p: Preset)
    ensures WellFormed(p)
  {
    var p := Preset(9, 3, 100, [("beginner", 30), ("easy", 40), ("medium", 50), ("hard", 60), ("expert", 70)],
                    [("unique", true), ("non_unique", false)], "hard", "non_unique", "?");
    assert Keys(p.difficultyLevels)[3] == "hard";
    assert Keys(p.enforceUniqueOptions)[1] == "non_unique";
    assert Keys(PlaceholderOptions())[4] == "?";
    p
  }

  /** The three versions, each well formed: valid sizes, graded levels, listed defaults. */
  function Configs(): (t: seq<(string, Preset)>)
    ensures Keys(t) == ["4x4", "6x6", "9x9"]
    ensures forall k :: 0 <= k < |t| ==> WellFormed(t[k].1)
  {
    [("4x4", Preset4x4()), ("6x6", Preset6x6()), ("9x9", Preset9x9())]
  }

  /** The eleven conversion formats, numbered 1 to 11 in order. */
  function ConversionFormats(): (t: seq<(int, string)>)
    ensures |t| == 11
    ensures forall k :: 0 <= k < |t| ==> t[k].0 == k + 1
  {
    [(1, "Inline String Format"),
     (2, "Row-by-Row List Format"),
     (3, "Key-Value Row Mapping"),
     (4, "Grid with Separators"),
     (5, "CSV Format"),
     (6, "Coordinate List Format"),
     (7, "Box-Oriented Format"),
     (8, "Sparse Coordinate Format"),
     (9, "Markdown Table Format"),
     (10, "Alphanumeric Keyed Format"),
     (11, "XML Format")]
  }

  /** A format number is listed exactly when it is one of 1..11. */
  lemma ConversionFormatNumbers(choice: int)
    ensures Lookup(ConversionFormats(), choice).Some? <==> 1 <= choice <= 11
  {
    LookupPositional(ConversionFormats(), 1, choice);
  }

  /**
   * The reasons one entry is refused. The divisibility test comes first, so
   * a zero block size fails at the remainder itself, with a division error
   * rather than the validator's own.
   */
  datatype ConfigError = DivisionByZero | NotDivisible(gridSize: int, subGridSize: int) | NotPositive

  /**
   * Validation of one entry. Only whether the remainder is zero matters, and
   * that is the same for Python's floored and Dafny's Euclidean remainder.
   */
  function ValidateConfig(gridSize: int, subGridSize: int): (r: Result<(), ConfigError>)
    ensures subGridSize == 0 ==> r == Failure(DivisionByZero)
    ensures r.Success? ==> 0 < subGridSize && 0 < gridSize && gridSize == (gridSize / subGridSize) * subGridSize
    ensures subGridSize != 0 ==> (r.Failure? && r.error.NotDivisible? <==> gridSize % subGridSize != 0)
    ensures r == Failure(NotPositive) <==> subGridSize != 0 && gridSize % subGridSize == 0 && (gridSize <= 0 || subGridSize <= 0)
  {
    if subGridSize == 0 then Failure(DivisionByZero)
    else if gridSize % subGridSize != 0 then Failure(NotDivisible(gridSize, subGridSize))
    else if gridSize <= 0 || subGridSize <= 0 then Failure(NotPositive)
    else Success(())
  }

  /** An entry validates exactly when both sizes are positive and the block size divides the grid size. */
  lemma ValidateConfigExactly(gridSize: int, subGridSize: int)
    ensures ValidateConfig(gridSize, subGridSize).Success?
        <==> 0 < subGridSize && 0 < gridSize && exists m :: m * subGridSize == gridSize
  {
    if 0 < subGridSize && 0 < gridSize && exists m :: m * subGridSize == gridSize {
      var m :| m * subGridSize == gridSize;
      MultipleMod(m, subGridSize);
    }
  }

  /** What the whole-table validation raises: a version-tagged error, or the division error unchanged. */
  datatype AllError = InVersion(version: string, cause: ConfigError) | Unwrapped(cause: ConfigError)

  /** The error one failing entry raises out of the whole-table validation. */
  function Reported(version: string, e: ConfigError): AllError {
    if e == DivisionByZero then Unwrapped(e) else InVersion(version, e)
  }

  /** Validation of every entry in table order; the first failing entry decides the error. */
  function ValidateAllConfigs(configs: seq<(string, Preset)>): (r: Result<(), AllError>)
    ensures r.Success? <==> forall k :: 0 <= k < |configs| ==> ValidateConfig(configs[k].1.gridSize, configs[k].1.subGridSize).Success?
    ensures r.Failure? ==> exists k :: 0 <= k < |configs| && FirstFailure(configs, k)
                                  && r.error == Reported(configs[k].0, ValidateConfig(configs[k].1.gridSize, configs[k].1.subGridSize).error)
  {
    if |configs| == 0 then Success(())
    else
      var (version, c) := configs[0];
      match ValidateConfig(c.gridSize, c.subGridSize)
      case Failure(e) =>
        assert FirstFailure(configs, 0);
        Failure(Reported(version, e))
      case Success(_) =>
        var r := ValidateAllConfigs(configs[1..]);
        assert forall k :: 1 <= k < |configs| ==> configs[k] == configs[1..][k - 1];
        if r.Failure? then
          var k :| 0 <= k < |configs[1..]| && FirstFailure(configs[1..], k)
                   && r.error == Reported(configs[1..][k].0, ValidateConfig(configs[1..][k].1.gridSize, configs[1..][k].1.subGridSize).error);
          assert FirstFailure(configs, k + 1);
          r
        else r
  }

  /** Entry k fails and every entry before it validates. */
  predicate FirstFailure(configs: seq<(string, Preset)>, k: nat)
    requires k < |configs|
  {
    && ValidateConfig(configs[k].1.gridSize, configs[k].1.subGridSize).Failure?
    && forall m :: 0 <= m < k ==> ValidateConfig(configs[m].1.gridSize, configs[m].1.subGridSize).Success?
  }

  /** The shipped table passes validation. */
  lemma ShippedConfigsValid()
    ensures ValidateAllConfigs(Configs()).Success?
  {
  }
}
