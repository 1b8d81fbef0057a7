/**
 * `find_ligand_file`: where the original ligand file is looked for. The
 * file system is the set of paths that exist.
 */
module LigandFiles {
  import opened Wrappers
  import Paths

  datatype FileKind = Sdf | Pdbqt

  datatype LigandFile = LigandFile(path: string, kind: FileKind)

  /** The directories searched when none are given on the command line. */
  const DEFAULT_SEARCH_DIRS: seq<string> := ["ligands", "ligands_pdbqt"]

  function Extension(kind: FileKind): string {
    match kind
    case Sdf => ".sdf"
    case Pdbqt => ".pdbqt"
  }

  /** The path tried for a ligand of one kind in one directory. */
  function Candidate(dir: string, ligand: string, kind: FileKind): string {
    Paths.PathJoin(dir, ligand + Extension(kind))
  }

  /** Index of the first directory holding the ligand's file of this kind, or `|dirs|`. */
  function FirstDirWith(existing: set<string>, dirs: seq<string>, ligand: string, kind: FileKind): (k: nat)
    ensures k <= |dirs|
    ensures forall q :: 0 <= q < k ==> Candidate(dirs[q], ligand, kind) !in existing
    ensures k < |dirs| ==> Candidate(dirs[k], ligand, kind) in existing
  {
    if dirs == [] then 0
    else if Candidate(dirs[0], ligand, kind) in existing then 0
    else 1 + FirstDirWith(existing, dirs[1..], ligand, kind)
  }

  /** The file of one kind from the first directory that has it. */
  function FileOfKind(existing: set<string>, dirs: seq<string>, ligand: string, kind: FileKind): Option<LigandFile> {
    var k := FirstDirWith(existing, dirs, ligand, kind);
    if k < |dirs| then Some(LigandFile(Candidate(dirs[k], ligand, kind), kind)) else None
  }

  /** What `find_ligand_file` finds: an SDF file anywhere beats a PDBQT file anywhere. */
  function LigandFileIn(existing: set<string>, dirs: seq<string>, ligand: string): Option<LigandFile> {
    var sdf := FileOfKind(existing, dirs, ligand, Sdf);
    if sdf.Some? then sdf else FileOfKind(existing, dirs, ligand, Pdbqt)
  }

  /** The two loops of `find_ligand_file`, each returning at the first path that exists. */
  method FindLigandFile(existing: set<string>, dirs: seq<string>, ligand: string) returns (found: Option<LigandFile>)
    ensures found == LigandFileIn(existing, dirs, ligand)
  {
    for k := 0 to |dirs|
      invariant forall q :: 0 <= q < k ==> Candidate(dirs[q], ligand, Sdf) !in existing
    {
      var path := Candidate(dirs[k], ligand, Sdf);
      if path in existing {
        FirstDirIs(existing, dirs, ligand, Sdf, k);
        return Some(LigandFile(path, Sdf));
      }
    }
    FirstDirIs(existing, dirs, ligand, Sdf, |dirs|);
    for k := 0 to |dirs|
      invariant forall q :: 0 <= q < k ==> Candidate(dirs[q], ligand, Pdbqt) !in existing
    {
      var path := Candidate(dirs[k], ligand, Pdbqt);
      if path in existing {
        FirstDirIs(existing, dirs, ligand, Pdbqt, k);
        return Some(LigandFile(path, Pdbqt));
      }
    }
    FirstDirIs(existing, dirs, ligand, Pdbqt, |dirs|);
    return None;
  }

  /** The first directory is the only index with nothing before it and a hit at it. */
  lemma FirstDirIs(existing: set<string>, dirs: seq<string>, ligand: string, kind: FileKind, k: nat)
    requires k <= |dirs|
    requires forall q :: 0 <= q < k ==> Candidate(dirs[q], ligand, kind) !in existing
    requires k < |dirs| ==> Candidate(dirs[k], ligand, kind) in existing
    ensures FirstDirWith(existing, dirs, ligand, kind) == k
  {
  }

  /** An SDF file in any directory is chosen even when an earlier directory has a PDBQT file. */
  lemma SdfPreferred(existing: set<string>, dirs: seq<string>, ligand: string, k: nat)
    requires k < |dirs| && Candidate(dirs[k], ligand, Sdf) in existing
    ensures LigandFileIn(existing, dirs, ligand).Some?
    ensures LigandFileIn(existing, dirs, ligand).value.kind == Sdf
  {
    var f := FirstDirWith(existing, dirs, ligand, Sdf);
    assert f <= k;
  }

  /** The SDF file comes from the first directory that has one. */
  lemma SdfFromFirstDirectory(existing: set<string>, dirs: seq<string>, ligand: string, k: nat)
    requires k < |dirs| && Candidate(dirs[k], ligand, Sdf) in existing
    requires forall q :: 0 <= q < k ==> Candidate(dirs[q], ligand, Sdf) !in existing
    ensures LigandFileIn(existing, dirs, ligand) == Some(LigandFile(Candidate(dirs[k], ligand, Sdf), Sdf))
  {
    FirstDirIs(existing, dirs, ligand, Sdf, k);
  }

  /** With no SDF file anywhere, the PDBQT file comes from the first directory that has one. */
  lemma PdbqtFromFirstDirectory(existing: set<string>, dirs: seq<string>, ligand: string, k: nat)
    requires forall q :: 0 <= q < |dirs| ==> Candidate(dirs[q], ligand, Sdf) !in existing
    requires k < |dirs| && Candidate(dirs[k], ligand, Pdbqt) in existing
    requires forall q :: 0 <= q < k ==> Candidate(dirs[q], ligand, Pdbqt) !in existing
    ensures LigandFileIn(existing, dirs, ligand) == Some(LigandFile(Candidate(dirs[k], ligand, Pdbqt), Pdbqt))
  {
    FirstDirIs(existing, dirs, ligand, Sdf, |dirs|);
    FirstDirIs(existing, dirs, ligand, Pdbqt, k);
  }

  /** Nothing is found exactly when no directory has either file. */
  lemma NothingFound(existing: set<string>, dirs: seq<string>, ligand: string)
    ensures LigandFileIn(existing, dirs, ligand).None? <==>
            forall q :: 0 <= q < |dirs| ==>
              Candidate(dirs[q], ligand, Sdf) !in existing && Candidate(dirs[q], ligand, Pdbqt) !in existing
  {
    var s := FirstDirWith(existing, dirs, ligand, Sdf);
    var p := FirstDirWith(existing, dirs, ligand, Pdbqt);
    if s == |dirs| && p == |dirs| {
      assert forall q :: 0 <= q < |dirs| ==>
        Candidate(dirs[q], ligand, Sdf) !in existing && Candidate(dirs[q], ligand, Pdbqt) !in existing;
    }
  }

  /** A found file exists and is `<dir>/<ligand>.<ext>` for one of the search directories. */
  lemma FoundFileExists(existing: set<string>, dirs: seq<string>, ligand: string)
    ensures var found := LigandFileIn(existing, dirs, ligand);
            found.Some? ==>
              && found.value.path in existing
              && exists q :: 0 <= q < |dirs| && found.value.path == Candidate(dirs[q], ligand, found.value.kind)
  {
  }
}
