/**
 * `parse_vina_log`: one pass over the lines of an AutoDock Vina log that
 * keeps the first receptor name, the first ligand name and the first mode-1
 * affinity, then fills a missing name from the directory the log sits in
 * (`<receptor>_<ligand>/...`).
 */
module VinaLog {
  import opened Wrappers
  import opened Text
  import Paths
  import LogNames
  import ModeTable

  /**
   * What opening and reading the log gives: no file at all, every line, or
   * the lines delivered before reading failed.
   */
  datatype LogFile = Missing | Readable(lines: seq<string>) | Unreadable(lines: seq<string>)

  datatype LogFields = LogFields(receptor: Option<string>, ligand: Option<string>, affinity: Option<real>)

  /** The value of the first line on which `f` gives one. */
  function First<T>(lines: seq<string>, f: string -> Option<T>): (r: Option<T>)
    ensures r.None? <==> forall q :: 0 <= q < |lines| ==> f(lines[q]).None?
  {
    if lines == [] then None
    else if f(lines[0]).Some? then f(lines[0])
    else First(lines[1..], f)
  }

  /** One more line changes the first value only when there was none yet. */
  lemma {:induction false} FirstSnoc<T>(lines: seq<string>, line: string, f: string -> Option<T>)
    ensures First(lines + [line], f) == if First(lines, f).Some? then First(lines, f) else f(line)
  {
    if lines != [] {
      assert (lines + [line])[1..] == lines[1..] + [line];
      FirstSnoc(lines[1..], line, f);
    }
  }

  /** Lines after the first value cannot change it: stopping there early is harmless. */
  lemma {:induction false} FirstOfPrefix<T>(lines: seq<string>, more: seq<string>, f: string -> Option<T>)
    requires First(lines, f).Some?
    ensures First(lines + more, f) == First(lines, f)
  {
    if f(lines[0]).None? {
      assert (lines + more)[1..] == lines[1..] + more;
      FirstOfPrefix(lines[1..], more, f);
    }
  }

  /** One more line of the scan: the value found so far, or else the new line's. */
  lemma FirstNext<T>(lines: seq<string>, n: nat, f: string -> Option<T>)
    requires n < |lines|
    ensures First(lines[..n + 1], f) == if First(lines[..n], f).Some? then First(lines[..n], f) else f(lines[n])
  {
    assert lines[..n + 1] == lines[..n] + [lines[n]];
    FirstSnoc(lines[..n], lines[n], f);
  }

  /** A value found in the first lines is the value for all of them. */
  lemma FirstStopsAt<T>(lines: seq<string>, n: nat, f: string -> Option<T>)
    requires n < |lines| && First(lines[..n + 1], f).Some?
    ensures First(lines, f) == First(lines[..n + 1], f)
  {
    assert lines == lines[..n + 1] + lines[n + 1..];
    FirstOfPrefix(lines[..n + 1], lines[n + 1..], f);
  }

  /** The first line that gives a value gives the result, whatever lines follow it. */
  lemma FirstHitWins<T>(before: seq<string>, line: string, after: seq<string>, f: string -> Option<T>)
    requires forall q :: 0 <= q < |before| ==> f(before[q]).None?
    requires f(line).Some?
    ensures First(before + [line] + after, f) == f(line)
  {
    FirstSnoc(before, line, f);
    FirstOfPrefix(before + [line], after, f);
  }

  /** The three fields the log content alone gives. */
  function Scanned(lines: seq<string>): LogFields {
    LogFields(First(lines, LogNames.ReceptorOnLine), First(lines, LogNames.LigandOnLine),
              First(lines, ModeTable.AffinityOnLine))
  }

  /**
   * The loop of `parse_vina_log`: each name is looked for until it is found,
   * the affinity until the mode-1 row is met, and the loop stops at that row
   * once both names are known.
   */
  method ScanLines(lines: seq<string>) returns (receptor: Option<string>, ligand: Option<string>, affinity: Option<real>)
    ensures LogFields(receptor, ligand, affinity) == Scanned(lines)
  {
    receptor, ligand, affinity := ScanWith(lines, LogNames.ReceptorOnLine, LogNames.LigandOnLine, ModeTable.AffinityOnLine);
  }
  method ScanWith(lines: seq<string>, receptorOf: string -> Option<string>, ligandOf: string -> Option<string>, affinityOf: string -> Option<real>) returns (receptor: Option<string>, ligand: Option<string>, affinity: Option<real>)
    ensures receptor == First(lines, receptorOf) && ligand == First(lines, ligandOf) && affinity == First(lines, affinityOf)
  {
    receptor, ligand, affinity := None, None, None;
    var receptorParsed, ligandParsed := false, false;
    var n := 0;
    while n < |lines|
      invariant n <= |lines|
      invariant receptorParsed <==> receptor.Some?
      invariant ligandParsed <==> ligand.Some?
      invariant receptor == First(lines[..n], receptorOf)
      invariant ligand == First(lines[..n], ligandOf)
      invariant affinity == First(lines[..n], affinityOf)
    {
      var line := lines[n];
      FirstNext(lines, n, receptorOf);
      FirstNext(lines, n, ligandOf);
      FirstNext(lines, n, affinityOf);
      if !receptorParsed {
        var m := receptorOf(line);
        if m.Some? {
          receptor := m;
          receptorParsed := true;
        }
      }
      if !ligandParsed {
        var m := ligandOf(line);
        if m.Some? {
          ligand := m;
          ligandParsed := true;
        }
      }
      if affinity.None? {
        var m := affinityOf(line);
        if m.Some? {
          affinity := m;
          if receptorParsed && ligandParsed {
            FirstStopsAt(lines, n, receptorOf);
            FirstStopsAt(lines, n, ligandOf);
            FirstStopsAt(lines, n, affinityOf);
            break;
          }
        }
      }
      n := n + 1;
    }
    if n == |lines| {
      assert lines[..n] == lines;
    }
  }

  /**
   * The receptor and ligand names a directory name gives: split at the first
   * '_', the rest (underscores included) being the ligand.
   */
  function SplitDirectoryName(base: string): (r: Option<(string, string)>)
    ensures r.Some? <==> '_' in base
    ensures r.Some? ==> '_' !in r.value.0 && r.value.0 + "_" + r.value.1 == base
  {
    var parts := Split(base, '_');
    if |parts| >= 2 then Some((parts[0], Join(parts[1..], "_"))) else None
  }

  /** The names the directory holding the log gives. */
  function DirectoryNames(logPath: string): Option<(string, string)> {
    SplitDirectoryName(Paths.Basename(Paths.Dirname(logPath)))
  }

  /** The names from the directory fill in only what the log content did not give. */
  function FillNames(names: Option<(string, string)>, fields: LogFields): LogFields {
    if names.None? then fields
    else
      LogFields(if fields.receptor.Some? then fields.receptor else Some(names.value.0),
                if fields.ligand.Some? then fields.ligand else Some(names.value.1),
                fields.affinity)
  }

  /** The directory is looked at only when a name is still missing. */
  function WithFallback(logPath: string, fields: LogFields): LogFields {
    if fields.receptor.Some? && fields.ligand.Some? then fields
    else FillNames(DirectoryNames(logPath), fields)
  }

  /** What `parse_vina_log` returns for the log at `logPath`. */
  function ParsedLog(logPath: string, file: LogFile): LogFields {
    match file
    case Missing => LogFields(None, None, None)
    case Readable(lines) => WithFallback(logPath, Scanned(lines))
    case Unreadable(lines) => WithFallback(logPath, Scanned(lines))
  }

  method ParseVinaLog(logPath: string, file: LogFile) returns (fields: LogFields)
    ensures fields == ParsedLog(logPath, file)
  {
    if file.Missing? {
      return LogFields(None, None, None);
    }
    var receptor, ligand, affinity := ScanLines(file.lines);
    fields := LogFields(receptor, ligand, affinity);
    assert ParsedLog(logPath, file) == WithFallback(logPath, fields);
    if receptor.None? || ligand.None? {
      fields := FillMissingNames(DirectoryNames(logPath), fields);
    }
  }

  /** The names from the directory overwrite only the names the content did not give. */
  method FillMissingNames(names: Option<(string, string)>, scanned: LogFields) returns (fields: LogFields)
    ensures fields == FillNames(names, scanned)
  {
    var receptor, ligand := scanned.receptor, scanned.ligand;
    if names.Some? {
      if receptor.None? {
        receptor := Some(names.value.0);
      }
      if ligand.None? {
        ligand := Some(names.value.1);
      }
    }
    fields := LogFields(receptor, ligand, scanned.affinity);
  }

  /** A missing log gives nothing, not even the names its directory would give. */
  lemma MissingLogGivesNothing(logPath: string)
    ensures ParsedLog(logPath, Missing) == LogFields(None, None, None)
  {
  }

  /** The affinity never comes from the directory: it is the first mode-1 row's, or none. */
  lemma AffinityFromLogOnly(logPath: string, file: LogFile)
    ensures ParsedLog(logPath, file).affinity ==
            if file.Missing? then None else First(file.lines, ModeTable.AffinityOnLine)
  {
  }

  /** A name the log content gives is kept whatever the directory is called. */
  lemma LogNamesWin(logPath: string, file: LogFile)
    requires !file.Missing?
    ensures First(file.lines, LogNames.ReceptorOnLine).Some? ==>
              ParsedLog(logPath, file).receptor == First(file.lines, LogNames.ReceptorOnLine)
    ensures First(file.lines, LogNames.LigandOnLine).Some? ==>
              ParsedLog(logPath, file).ligand == First(file.lines, LogNames.LigandOnLine)
  {
    var scanned := Scanned(file.lines);
    assert ParsedLog(logPath, file) == WithFallback(logPath, scanned);
    FallbackKeepsNames(logPath, scanned);
  }

  /** The fallback keeps every name it is given. */
  lemma FallbackKeepsNames(logPath: string, fields: LogFields)
    ensures fields.receptor.Some? ==> WithFallback(logPath, fields).receptor == fields.receptor
    ensures fields.ligand.Some? ==> WithFallback(logPath, fields).ligand == fields.ligand
    ensures WithFallback(logPath, fields).affinity == fields.affinity
  {
  }

  /**
   * The first mode-1 row decides the affinity, whatever rows follow it, even
   * rows with a lower (better) score.
   */
  lemma FirstModeOneRowWins(logPath: string, before: seq<string>, row: string, after: seq<string>)
    requires forall q :: 0 <= q < |before| ==> ModeTable.AffinityOnLine(before[q]).None?
    requires ModeTable.AffinityOnLine(row).Some?
    ensures ParsedLog(logPath, Readable(before + [row] + after)).affinity == ModeTable.AffinityOnLine(row)
  {
    AffinityFromLogOnly(logPath, Readable(before + [row] + after));
    FirstHitWins(before, row, after, ModeTable.AffinityOnLine);
  }

  /**
   * With no name in the content, both names are the directory's, or both
   * missing when its name has no '_'.
   */
  lemma FallbackGivesBoth(logPath: string, file: LogFile)
    requires !file.Missing?
    requires First(file.lines, LogNames.ReceptorOnLine).None? && First(file.lines, LogNames.LigandOnLine).None?
    ensures ParsedLog(logPath, file) ==
            match DirectoryNames(logPath)
            case Some((receptor, ligand)) =>
              LogFields(Some(receptor), Some(ligand), First(file.lines, ModeTable.AffinityOnLine))
            case None => LogFields(None, None, First(file.lines, ModeTable.AffinityOnLine))
  {
    var scanned := Scanned(file.lines);
    assert ParsedLog(logPath, file) == WithFallback(logPath, scanned);
    assert scanned == LogFields(None, None, First(file.lines, ModeTable.AffinityOnLine));
  }

  /** The directory `<receptor>_<ligand>` of a log names the two; the ligand part may hold underscores. */
  lemma DirectoryNamesOf(parent: string, receptor: string, ligand: string, file: string)
    requires '_' !in receptor && '/' !in receptor + "_" + ligand
    requires '/' !in file
    requires parent == [] || parent[|parent| - 1] == '/'
    ensures DirectoryNames(parent + receptor + "_" + ligand + "/" + file) == Some((receptor, ligand))
  {
    var dir := receptor + "_" + ligand;
    var path := parent + receptor + "_" + ligand + "/" + file;
    assert path == parent + dir + "/" + file;
    Paths.DirectoryOfFile(parent, dir, file);
    assert dir[|receptor|] == '_';
    var names := DirectoryNames(path);
    SplitAtFirst(names.value.0, names.value.1, receptor, ligand, '_');
  }
}
