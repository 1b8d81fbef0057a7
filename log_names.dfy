/**
 * The receptor and ligand names in an AutoDock Vina log: the patterns
 * `Rigid receptor:\s*(.*\.pdbqt)` and `Ligand:\s*(.*\.pdbqt)`, searched
 * for on one line, and the clean-up of the path they capture.
 */
module LogNames {
  import opened Wrappers
  import opened Text
  import Paths

  const RECEPTOR_MARKER: string := "Rigid receptor:"
  const LIGAND_MARKER: string := "Ligand:"
  const PDBQT: string := ".pdbqt"

  // What `.` can cover: text without a line break.

  /** No line break between `lo` and `hi`: the text `.*` can cover. */
  ghost predicate NoNewline(line: string, lo: nat, hi: nat) {
    forall q :: lo <= q < hi && q < |line| ==> line[q] != '\n'
  }

  /** The first line break at or after `j`, or the end of the text. */
  function LineEnd(line: string, j: nat): (r: nat)
    requires j <= |line|
    ensures j <= r <= |line|
    ensures NoNewline(line, j, r)
    ensures r < |line| ==> line[r] == '\n'
    decreases |line| - j
  {
    if j < |line| && line[j] != '\n' then LineEnd(line, j + 1) else j
  }

  lemma NoNewlineWithin(line: string, j: nat, k: nat)
    requires j <= k <= |line|
    ensures NoNewline(line, j, k) <==> k <= LineEnd(line, j)
  {
    var e := LineEnd(line, j);
    if k > e {
      assert line[e] == '\n';
    }
  }

  // The name patterns, searched for anywhere on the line.

  /** `\.pdbqt` matches at `p`. */
  predicate PdbqtAt(line: string, p: nat) {
    && p + 6 <= |line|
    && line[p] == '.' && line[p + 1] == 'p' && line[p + 2] == 'd'
    && line[p + 3] == 'b' && line[p + 4] == 'q' && line[p + 5] == 't'
  }

  lemma PdbqtAtIsAt(line: string, p: nat)
    ensures PdbqtAt(line, p) <==> At(line, p, PDBQT)
  {
    if p + 6 <= |line| {
      var w := line[p..p + 6];
      assert w == PDBQT <==> w[0] == '.' && w[1] == 'p' && w[2] == 'd' && w[3] == 'b' && w[4] == 'q' && w[5] == 't';
    }
  }

  /** The group `(.*\.pdbqt)` that starts at `start` can end with the `.pdbqt` found at `p`. */
  ghost predicate GroupEndsAt(line: string, start: nat, p: nat) {
    start <= p && PdbqtAt(line, p) && NoNewline(line, start, p + |PDBQT|)
  }

  /**
   * `marker\s*(.*\.pdbqt)` matches with the marker at `i`. The `\s*` takes
   * the whole run of whitespace: a shorter run never lets the group match
   * where the whole run does not (lemma ShorterSpaceRunGainsNothing).
   */
  ghost predicate NameMatchAt(line: string, marker: string, i: nat) {
    At(line, i, marker) && GroupFrom(line, SkipSpaces(line, i + |marker|))
  }

  ghost predicate GroupFrom(line: string, start: nat) {
    exists p: nat :: GroupEndsAt(line, start, p)
  }

  /** Where a search for `marker\s*(.*\.pdbqt)` matched: the marker and the group. */
  datatype NameMatch = NameMatch(at: nat, start: nat, end: nat)

  /** The match `re.search` reports: the leftmost marker, the longest group. */
  ghost predicate IsSearchResult(line: string, marker: string, m: NameMatch) {
    && NameMatchAt(line, marker, m.at)
    && m.start == SkipSpaces(line, m.at + |marker|)
    && m.start + |PDBQT| <= m.end
    && GroupEndsAt(line, m.start, m.end - |PDBQT|)
    && (forall p: nat :: GroupEndsAt(line, m.start, p) ==> p + |PDBQT| <= m.end)
    && (forall q :: 0 <= q < m.at ==> !NameMatchAt(line, marker, q))
  }

  /** The last `.pdbqt` that starts at or after `start` and ends by `e`. */
  function LastPdbqt(line: string, start: nat, e: nat): (r: Option<nat>)
    requires start <= e <= |line|
    ensures r.Some? ==> start <= r.value && r.value + |PDBQT| <= e && PdbqtAt(line, r.value)
    ensures forall p: nat :: start <= p && p + |PDBQT| <= e && PdbqtAt(line, p) ==> r.Some? && p <= r.value
    decreases e
  {
    if e < start + |PDBQT| then None
    else if PdbqtAt(line, e - |PDBQT|) then Some(e - |PDBQT|)
    else LastPdbqt(line, start, e - 1)
  }

  /** The longest group starting at `start`, as the end of its last `.pdbqt`. */
  function GroupAt(line: string, start: nat): (r: Option<nat>)
    requires start <= |line|
    ensures r.Some? ==> start + |PDBQT| <= r.value && GroupEndsAt(line, start, r.value - |PDBQT|)
    ensures forall p: nat :: GroupEndsAt(line, start, p) ==> r.Some? && p + |PDBQT| <= r.value
  {
    var e := LineEnd(line, start);
    var last := LastPdbqt(line, start, e);
    if last.Some? then
      NoNewlineWithin(line, start, last.value + |PDBQT|);
      Some(last.value + |PDBQT|)
    else
      NoGroupWithoutPdbqt(line, start);
      None
  }

  /** Without a `.pdbqt` before the end of the line, the group cannot match. */
  lemma NoGroupWithoutPdbqt(line: string, start: nat)
    requires start <= |line| && LastPdbqt(line, start, LineEnd(line, start)).None?
    ensures forall p: nat :: !GroupEndsAt(line, start, p)
  {
    forall p: nat ensures !GroupEndsAt(line, start, p) {
      if start <= p && p + |PDBQT| <= |line| {
        NoNewlineWithin(line, start, p + |PDBQT|);
      }
    }
  }

  /** Whether the pattern matches with the marker at `i` is decided by GroupAt. */
  lemma MatchAtIffGroup(line: string, marker: string, i: nat)
    requires i <= |line| && At(line, i, marker)
    ensures NameMatchAt(line, marker, i) <==> GroupAt(line, SkipSpaces(line, i + |marker|)).Some?
  {
    var start := SkipSpaces(line, i + |marker|);
    var g := GroupAt(line, start);
    if g.Some? {
      assert GroupEndsAt(line, start, g.value - |PDBQT|);
    }
  }

  lemma FirstGroupIsSearchResult(line: string, marker: string, i: nat)
    requires i <= |line| && At(line, i, marker)
    requires GroupAt(line, SkipSpaces(line, i + |marker|)).Some?
    requires forall q :: 0 <= q < i ==> !NameMatchAt(line, marker, q)
    ensures IsSearchResult(line, marker,
      NameMatch(i, SkipSpaces(line, i + |marker|), GroupAt(line, SkipSpaces(line, i + |marker|)).value))
  {
    var start := SkipSpaces(line, i + |marker|);
    var e := GroupAt(line, start).value;
    assert GroupEndsAt(line, start, e - |PDBQT|);
    assert GroupFrom(line, start);
    assert NameMatchAt(line, marker, i);
  }

  /** `re.search` of `marker\s*(.*\.pdbqt)`, trying the marker positions from `i` on. */
  function SearchNameFrom(line: string, marker: string, i: nat): (r: Option<NameMatch>)
    requires marker != [] && i <= |line|
    requires forall q :: 0 <= q < i ==> !NameMatchAt(line, marker, q)
    ensures r.Some? ==> IsSearchResult(line, marker, r.value)
    ensures r.None? ==> forall q :: 0 <= q <= |line| ==> !NameMatchAt(line, marker, q)
    decreases |line| - i
  {
    if At(line, i, marker) && GroupAt(line, SkipSpaces(line, i + |marker|)).Some? then
      var start := SkipSpaces(line, i + |marker|);
      FirstGroupIsSearchResult(line, marker, i);
      Some(NameMatch(i, start, GroupAt(line, start).value))
    else
      assert !NameMatchAt(line, marker, i) by {
        if At(line, i, marker) { MatchAtIffGroup(line, marker, i); }
      }
      if i == |line| then None
      else SearchNameFrom(line, marker, i + 1)
  }

  function SearchName(line: string, marker: string): (r: Option<NameMatch>)
    requires marker != []
    ensures r.Some? ==> IsSearchResult(line, marker, r.value)
    ensures r.None? ==> forall q :: 0 <= q <= |line| ==> !NameMatchAt(line, marker, q)
  {
    SearchNameFrom(line, marker, 0)
  }

  /** Backtracking into `\s*` cannot produce a match that the whole run of whitespace misses. */
  lemma ShorterSpaceRunGainsNothing(line: string, marker: string, i: nat, s: nat, p: nat)
    requires At(line, i, marker) && i + |marker| <= s <= SkipSpaces(line, i + |marker|)
    requires GroupEndsAt(line, s, p)
    ensures GroupEndsAt(line, SkipSpaces(line, i + |marker|), p)
  {
  }

  /**
   * A name read from the log: `os.path.basename(group.strip())` with every
   * ".pdbqt" replaced by nothing.
   */
  function CleanName(group: string): (name: string)
    ensures '/' !in name
  {
    var name := ReplaceAll(Paths.Basename(Strip(group)), PDBQT, "");
    assert '/' !in name by {
      ReplaceAllDeletes(Paths.Basename(Strip(group)), PDBQT, '/');
    }
    name
  }

  /** The name that a line gives for `marker`, if the pattern matches on it. */
  function NameOnLine(line: string, marker: string): (r: Option<string>)
    requires marker != []
    ensures r.Some? <==> exists q :: 0 <= q <= |line| && NameMatchAt(line, marker, q)
  {
    match SearchName(line, marker)
    case Some(m) => Some(CleanName(line[m.start..m.end]))
    case None => None
  }

  function ReceptorOnLine(line: string): Option<string> {
    NameOnLine(line, RECEPTOR_MARKER)
  }

  function LigandOnLine(line: string): Option<string> {
    NameOnLine(line, LIGAND_MARKER)
  }

  /** The group always ends in ".pdbqt", holds no line break and does not start with whitespace, so `strip` leaves it alone. */
  lemma CapturedGroupIsStripped(line: string, marker: string, m: NameMatch)
    requires IsSearchResult(line, marker, m)
    ensures Strip(line[m.start..m.end]) == line[m.start..m.end]
  {
    var g := line[m.start..m.end];
    assert g[|g| - 1] == line[m.end - 1] == 't';
    assert g[0] == line[m.start];
    StripUntouched(g);
  }

  /** A line on which ".pdbqt" does not appear names nothing. */
  lemma NoPdbqtNoName(line: string, marker: string)
    requires marker != [] && !Contains(line, PDBQT)
    ensures NameOnLine(line, marker).None?
  {
    forall p: nat ensures !PdbqtAt(line, p) {
      PdbqtAtIsAt(line, p);
    }
  }

  /** A path `dir + stem + ".pdbqt"` is cleaned to its bare stem. */
  lemma CleanNameOfPath(dir: string, stem: string)
    requires dir == [] || dir[|dir| - 1] == '/'
    requires '/' !in stem && !Contains(stem, PDBQT)
    requires !IsSpace((dir + stem + PDBQT)[0])
    ensures CleanName(dir + stem + PDBQT) == stem
  {
    var file := stem + PDBQT;
    assert dir + stem + PDBQT == dir + file;
    PdbqtFile(stem);
    StrippedPath(dir, file);
    BasenameOfPath(dir, file);
    PdbqtDeleted(stem);
  }

  /** A file name `stem + ".pdbqt"` ends in a letter and adds no '/' to its stem. */
  lemma PdbqtFile(stem: string)
    requires '/' !in stem
    ensures '/' !in stem + PDBQT
    ensures (stem + PDBQT)[|stem + PDBQT| - 1] == 't'
  {
    assert forall k :: 0 <= k < |PDBQT| ==> PDBQT[k] != '/';
  }

  lemma StrippedPath(dir: string, file: string)
    requires file != [] && file[|file| - 1] == 't'
    requires !IsSpace((dir + file)[0])
    ensures Strip(dir + file) == dir + file
  {
    var path := dir + file;
    assert path[|path| - 1] == 't';
    StripUntouched(path);
  }

  lemma BasenameOfPath(dir: string, file: string)
    requires dir == [] || dir[|dir| - 1] == '/'
    requires '/' !in file
    ensures Paths.Basename(dir + file) == file
  {
    if dir == [] {
      assert dir + file == file;
      Paths.BasenameWithoutSlash(file);
    } else {
      assert dir + file == dir[..|dir| - 1] + "/" + file;
      Paths.BasenameAfterSlash(dir[..|dir| - 1], file);
    }
  }

  /** Deleting ".pdbqt" from `stem + ".pdbqt"` leaves the stem when the stem does not hold it. */
  lemma PdbqtDeleted(stem: string)
    requires !Contains(stem, PDBQT)
    ensures ReplaceAll(stem + PDBQT, PDBQT, "") == stem
  {
    assert forall t :: 0 < t < |PDBQT| ==> PDBQT[t] != PDBQT[0];
    ReplaceAllTrailing(stem, PDBQT, "");
    assert stem + "" == stem;
  }

  /** `e` is where the line that `j` is on ends: at a line break or at the end of the text. */
  lemma LineEndAt(line: string, j: nat, e: nat)
    requires j <= e <= |line| && NoNewline(line, j, e)
    requires e == |line| || line[e] == '\n'
    ensures LineEnd(line, j) == e
  {
    NoNewlineWithin(line, j, e);
    if e < |line| {
      NoNewlineWithin(line, j, e + 1);
    }
  }

  /** A group that can run to the end of its line ends there. */
  lemma GroupToLineEnd(line: string, start: nat, e: nat)
    requires start + |PDBQT| <= e <= |line| && PdbqtAt(line, e - |PDBQT|)
    requires NoNewline(line, start, e) && (e == |line| || line[e] == '\n')
    ensures GroupAt(line, start) == Some(e)
  {
    LineEndAt(line, start, e);
    assert LastPdbqt(line, start, e) == Some(e - |PDBQT|);
  }

  /**
   * On the line `marker + " " + path` read with its line break, if any,
   * in `rest`, and with `path` ending in ".pdbqt", the group is the whole path.
   */
  lemma SearchWholeLine(marker: string, path: string, rest: string)
    requires marker != [] && |PDBQT| <= |path| && At(path, |path| - |PDBQT|, PDBQT)
    requires '\n' !in path && !IsSpace(path[0])
    requires rest == [] || rest[0] == '\n'
    ensures NameOnLine(marker + " " + path + rest, marker) == Some(CleanName(path))
  {
    var line := marker + " " + path + rest;
    WholeLineMatch(marker, path, rest);
    assert line[|marker| + 1..|marker| + 1 + |path|] == path;
  }

  lemma WholeLineMatch(marker: string, path: string, rest: string)
    requires marker != [] && |PDBQT| <= |path| && At(path, |path| - |PDBQT|, PDBQT)
    requires '\n' !in path && !IsSpace(path[0])
    requires rest == [] || rest[0] == '\n'
    ensures SearchName(marker + " " + path + rest, marker) == Some(NameMatch(0, |marker| + 1, |marker| + 1 + |path|))
  {
    var line := marker + " " + path + rest;
    var start := |marker| + 1;
    var e := start + |path|;
    assert line[|marker|] == ' ' && line[start] == path[0];
    assert At(line, 0, marker) by { assert line[..|marker|] == marker; }
    assert SkipSpaces(line, |marker|) == start;
    assert PdbqtAt(line, e - |PDBQT|) by {
      var p := e - |PDBQT|;
      assert line[p..p + |PDBQT|] == path[|path| - |PDBQT|..];
      PdbqtAtIsAt(line, p);
    }
    assert NoNewline(line, start, e) by {
      forall q | start <= q < e ensures line[q] != '\n' {
        assert line[q] == path[q - start];
      }
    }
    assert e == |line| || line[e] == '\n' by {
      if e < |line| { assert line[e] == rest[0]; }
    }
    GroupToLineEnd(line, start, e);
  }

  /**
   * The line that Vina writes, `marker + " " + path` and its line break,
   * with `path` the structure file `dir + stem + ".pdbqt"`, gives the bare
   * file stem: the directory and the extension are dropped.
   */
  lemma NameLineGivesStem(marker: string, path: string, rest: string, dir: string, stem: string)
    requires marker != [] && path == dir + stem + PDBQT
    requires dir == [] || dir[|dir| - 1] == '/'
    requires '/' !in stem && !Contains(stem, PDBQT)
    requires '\n' !in dir && '\n' !in stem
    requires !IsSpace(path[0])
    requires rest == [] || rest[0] == '\n'
    ensures NameOnLine(marker + " " + path + rest, marker) == Some(stem)
  {
    assert At(path, |path| - |PDBQT|, PDBQT) by {
      assert path[|path| - |PDBQT|..] == PDBQT;
    }
    assert '\n' !in PDBQT;
    SearchWholeLine(marker, path, rest);
    CleanNameOfPath(dir, stem);
  }
}
