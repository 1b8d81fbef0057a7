/**
 * Step 6 of the main block: each header column is looked up in the results
 * dictionary under its internal key and written as "NA", a fixed-point
 * number with two or three decimals, or `str` of the value; the cells are
 * joined with ','.
 */
module OutputRow {
  import opened Wrappers
  import opened Text
  import opened Decimal
  import opened Columns
  import ResultRow

  /** The float columns written with three decimals. */
  const THREE_PLACES: seq<string> := ["Affinity_kcal_mol", "LE", "SILE_N"]

  /** The float columns written with two decimals, besides MW. */
  const TWO_PLACES: seq<string> := ["pKi", "LogP", "TPSA", "SASA_A2", "QED", "LLE", "SILE_SASA"]

  /** The number of decimals a float in `column` is written with. */
  function Precision(column: string): (p: nat)
    ensures p == 2 || p == 3
    ensures p == 2 <==> column in TWO_PLACES || column == "MW"
  {
    if column in THREE_PLACES then 3
    else if column in TWO_PLACES then 2
    else if column == "MW" then 2
    else 3
  }

  /**
   * The text of one cell. It is "NA" exactly for a missing value and for the
   * string "NA" itself.
   */
  function FormatValue(column: string, v: Value): (cell: string)
    ensures cell == "NA" <==> v == Null || v == Str("NA")
  {
    match v
    case Null => "NA"
    case Float(x) => NumberNotNA(FormatFixed(x, Precision(column))); FormatFixed(x, Precision(column))
    case Str(s) => s
    case Whole(i) => NumberNotNA(IntToString(i)); IntToString(i)
  }

  /** What `results.get(key)` gives: the entry under the key the text spells, or None. */
  function Lookup(results: ResultRow.Results, key: string): Value {
    match KeyNamed(key)
    case None => Null
    case Some(k) => if k in results then results[k] else Null
  }

  /** The entry under a key, None when it is absent. */
  function ValueAt(results: ResultRow.Results, k: Key): Value {
    if k in results then results[k] else Null
  }

  /** The cell under one column. */
  function Cell(results: ResultRow.Results, column: string): string {
    FormatValue(column, Lookup(results, InternalKey(column)))
  }

  /** The cells of the row, in header order. */
  function Row(results: ResultRow.Results): seq<string> {
    seq(|HEADER|, i requires 0 <= i < |HEADER| => Cell(results, HEADER[i]))
  }

  /** The line the script prints. */
  function CsvLine(results: ResultRow.Results): string {
    Join(Row(results), ",")
  }

  /** The loop over the header, appending one formatted cell per column. */
  method FormatRow(results: ResultRow.Results) returns (cells: seq<string>)
    ensures cells == Row(results)
  {
    cells := [];
    for i := 0 to |HEADER|
      invariant CellsUpTo(results, cells, i)
    {
      var key := HEADER[i];
      var internalKey := InternalKey(key);
      var value := Lookup(results, internalKey);
      var cell: string;
      if value.Null? {
        cell := "NA";
      } else if value.Float? {
        cell := FormatFixed(value.x, Precision(key));
      } else if value.Str? {
        cell := value.s;
      } else {
        cell := IntToString(value.i);
      }
      assert cell == Cell(results, key);
      ExtendCells(results, cells, i, cell);
      cells := cells + [cell];
    }
    RowOfCells(results, cells);
  }

  /** `cells` holds the cells of the first `i` columns. */
  predicate CellsUpTo(results: ResultRow.Results, cells: seq<string>, i: nat) {
    i <= |HEADER| && |cells| == i && forall j :: 0 <= j < i ==> cells[j] == Cell(results, HEADER[j])
  }

  lemma ExtendCells(results: ResultRow.Results, cells: seq<string>, i: nat, cell: string)
    requires CellsUpTo(results, cells, i) && i < |HEADER| && cell == Cell(results, HEADER[i])
    ensures CellsUpTo(results, cells + [cell], i + 1)
  {
  }

  /** Cells that agree with every column make up the row. */
  lemma RowOfCells(results: ResultRow.Results, cells: seq<string>)
    requires CellsUpTo(results, cells, |HEADER|)
    ensures cells == Row(results)
  {
  }

  /** A number's text starts with '-' or a digit, so it is never "NA". */
  lemma NumberNotNA(t: string)
    requires t != [] && (t[0] == '-' || IsDigit(t[0]))
    ensures t != "NA"
  {
  }

  /** Column `i` shows the entry under the dictionary key at position `i`. */
  lemma CellsInKeyOrder(results: ResultRow.Results)
    ensures |Row(results)| == |KEYS| == 17
    ensures forall i :: 0 <= i < |KEYS| ==> Row(results)[i] == FormatValue(HEADER[i], ValueAt(results, KEYS[i]))
  {
    HeaderKeys();
    forall i | 0 <= i < |KEYS| ensures Row(results)[i] == FormatValue(HEADER[i], ValueAt(results, KEYS[i])) {
      KeyNamedName(KEYS[i]);
    }
  }

  /** The column of a key shows the entry under that key. */
  lemma CellOf(results: ResultRow.Results, k: Key)
    ensures Row(results)[Position(k)] == FormatValue(Column(k), ValueAt(results, k))
  {
    CellsInKeyOrder(results);
  }

  /** A float entry's column shows it with that column's decimals. */
  lemma FloatCellOf(results: ResultRow.Results, k: Key, x: real)
    requires k in results && results[k] == Float(x)
    ensures Row(results)[Position(k)] == FormatFixed(x, Precision(Column(k)))
  {
    CellOf(results, k);
  }

  /** The affinity, LE and SILE_N are written with three decimals, every other float with two. */
  lemma ColumnPrecision(k: Key)
    ensures k in {Affinity, Le, SileN} ==> Precision(Column(k)) == 3
    ensures k in {PKi, Mw, LogP, Tpsa, Sasa, Qed, Lle, SileSasa} ==> Precision(Column(k)) == 2
  {
  }

  /** A float is written within half a unit of its last decimal. */
  lemma FloatCellIsClose(column: string, x: real)
    ensures WithinHalfUnit(DecimalValue(FormatValue(column, Float(x))), x, Precision(column))
  {
    FixedIsClose(x, Precision(column));
  }

  /** A float with no more decimals than its column shows is written exactly. */
  lemma FloatCellIsExact(column: string, x: real, n: nat)
    requires Scaled(x, Precision(column)) == n as real
    ensures DecimalValue(FormatValue(column, Float(x))) == x
  {
    FixedIsExact(x, Precision(column), n);
  }

  /**
   * A string is written as it is, and an integer as `str` writes it: a '-'
   * exactly when it is negative, then digits without a leading zero that
   * read back as its magnitude.
   */
  lemma OtherCellsReadBack(column: string, s: string, n: int)
    ensures FormatValue(column, Str(s)) == s
    ensures FormatValue(column, Whole(n)) == IntToString(n)
    ensures var cell := FormatValue(column, Whole(n));
            var digits := if n < 0 then cell[1..] else cell;
            cell != [] && (cell[0] == '-' <==> n < 0) &&
            digits != [] && (digits[0] == '0' ==> |digits| == 1) &&
            DigitsValue(digits) == if n < 0 then -n else n
  {
  }

  /** When no cell holds a ',', the printed line splits back into the 17 cells. */
  lemma LineSplitsIntoCells(results: ResultRow.Results)
    requires forall i :: 0 <= i < |HEADER| ==> ',' !in Row(results)[i]
    ensures Split(CsvLine(results), ',') == Row(results)
  {
    SplitJoin(Row(results), ',');
  }
}
