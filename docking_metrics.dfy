/**
 * The script end to end: parse the Vina log, fill the results dictionary,
 * and format the one CSV line it prints.
 */
module DockingMetrics {
  import opened Wrappers
  import opened Text
  import opened Columns
  import VinaLog
  import Efficiency
  import ResultRow
  import OutputRow
  import Decimal

  /** The line printed for the log at `logPath`, searching `dirs` for the ligand file. */
  function MetricsLine(logPath: string, file: VinaLog.LogFile, dirs: seq<string>, env: ResultRow.Environment): string {
    OutputRow.CsvLine(ResultRow.ResultsOf(VinaLog.ParsedLog(logPath, file), dirs, env))
  }

  /** The cells of that line. */
  function MetricsRow(logPath: string, file: VinaLog.LogFile, dirs: seq<string>, env: ResultRow.Environment): seq<string> {
    OutputRow.Row(ResultRow.ResultsOf(VinaLog.ParsedLog(logPath, file), dirs, env))
  }

  /** The main block: steps 1 to 6 in order. */
  method CalculateDockingMetrics(logPath: string, file: VinaLog.LogFile, dirs: seq<string>, env: ResultRow.Environment)
    returns (line: string)
    ensures line == MetricsLine(logPath, file, dirs, env)
    ensures line == Join(MetricsRow(logPath, file, dirs, env), ",")
  {
    var fields := VinaLog.ParseVinaLog(logPath, file);
    var results := ResultRow.BuildResults(fields, dirs, env);
    var cells := OutputRow.FormatRow(results);
    line := Join(cells, ",");
  }

  /** A missing log prints a row of 17 "NA". */
  lemma MissingLogRow(logPath: string, dirs: seq<string>, env: ResultRow.Environment)
    ensures |MetricsRow(logPath, VinaLog.Missing, dirs, env)| == 17
    ensures forall i :: 0 <= i < 17 ==> MetricsRow(logPath, VinaLog.Missing, dirs, env)[i] == "NA"
  {
    var fields := VinaLog.ParsedLog(logPath, VinaLog.Missing);
    var results := ResultRow.ResultsOf(fields, dirs, env);
    OutputRow.CellsInKeyOrder(results);
    ResultRow.LogFieldsReported(fields, dirs, env);
    ResultRow.NamesGateMetrics(fields, dirs, env);
  }

  /** Without both names, every column after the affinity is "NA". */
  lemma UnnamedRow(logPath: string, file: VinaLog.LogFile, dirs: seq<string>, env: ResultRow.Environment)
    requires var fields := VinaLog.ParsedLog(logPath, file);
             !(ResultRow.Truthy(fields.receptor) && ResultRow.Truthy(fields.ligand))
    ensures forall i :: 3 <= i < 17 ==> MetricsRow(logPath, file, dirs, env)[i] == "NA"
  {
    var fields := VinaLog.ParsedLog(logPath, file);
    var results := ResultRow.ResultsOf(fields, dirs, env);
    OutputRow.CellsInKeyOrder(results);
    ResultRow.NamesGateMetrics(fields, dirs, env);
  }

  /** The first two columns are the names the log gives, as they are. */
  lemma NameCells(fields: VinaLog.LogFields, dirs: seq<string>, env: ResultRow.Environment)
    ensures var row := OutputRow.Row(ResultRow.ResultsOf(fields, dirs, env));
            && row[0] == (if fields.receptor.Some? then fields.receptor.value else "NA")
            && row[1] == (if fields.ligand.Some? then fields.ligand.value else "NA")
  {
    var results := ResultRow.ResultsOf(fields, dirs, env);
    ResultRow.ResultsKeys(fields, dirs, env);
    ResultRow.LogFieldsReported(fields, dirs, env);
    OutputRow.CellOf(results, Receptor);
    OutputRow.CellOf(results, Ligand);
  }

  /** The third column is the mode-1 affinity with three decimals. */
  lemma AffinityCell(fields: VinaLog.LogFields, dirs: seq<string>, env: ResultRow.Environment)
    ensures OutputRow.Row(ResultRow.ResultsOf(fields, dirs, env))[2] ==
            if fields.affinity.Some? then Decimal.FormatFixed(fields.affinity.value, 3) else "NA"
  {
    var results := ResultRow.ResultsOf(fields, dirs, env);
    ResultRow.ResultsKeys(fields, dirs, env);
    ResultRow.LogFieldsReported(fields, dirs, env);
    OutputRow.CellOf(results, Affinity);
    OutputRow.ColumnPrecision(Affinity);
  }

  /** The LE column shows `-affinity / NHA` with three decimals whenever it can be computed. */
  lemma EfficiencyCell(fields: VinaLog.LogFields, dirs: seq<string>, env: ResultRow.Environment)
    requires ResultRow.Truthy(fields.receptor) && ResultRow.Truthy(fields.ligand) && fields.affinity.Some?
    requires Efficiency.HasHeavyAtoms(ResultRow.LigandMetricsFor(env, dirs, fields.ligand.value))
    ensures var n := ResultRow.LigandMetricsFor(env, dirs, fields.ligand.value).nha.value;
            OutputRow.Row(ResultRow.ResultsOf(fields, dirs, env))[13] == Decimal.FormatFixed(-fields.affinity.value / n as real, 3)
  {
    var results := ResultRow.ResultsOf(fields, dirs, env);
    var n := ResultRow.LigandMetricsFor(env, dirs, fields.ligand.value).nha.value;
    ResultRow.ResultsKeys(fields, dirs, env);
    ResultRow.LigandEfficiencyReported(fields, dirs, env);
    OutputRow.FloatCellOf(results, Le, -fields.affinity.value / n as real);
    OutputRow.ColumnPrecision(Le);
  }
}
