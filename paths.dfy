/** The POSIX flavour of Python's `os.path.basename`, `os.path.dirname` and `os.path.join`. */
module Paths {

  /** `os.path.basename(p)`: everything after the last '/'. */
  function Basename(p: string): (r: string)
    ensures '/' !in r
    ensures |r| <= |p| && r == p[|p| - |r|..]
    ensures |r| < |p| ==> p[|p| - |r| - 1] == '/'
    decreases |p|
  {
    if p == [] || p[|p| - 1] == '/' then []
    else
      assert p[..|p| - 1] + [p[|p| - 1]] == p;
      Basename(p[..|p| - 1]) + [p[|p| - 1]]
  }

  lemma BasenameWithoutSlash(p: string)
    requires '/' !in p
    ensures Basename(p) == p
  {
    var r := Basename(p);
  }

  lemma BasenameAfterSlash(dir: string, name: string)
    requires '/' !in name
    ensures Basename(dir + "/" + name) == name
  {
    var p := dir + "/" + name;
    var r := Basename(p);
    assert p[|dir|] == '/';
    assert p[|p| - |name|..] == name;
  }

  predicate AllSlashes(s: string) {
    forall k :: 0 <= k < |s| ==> s[k] == '/'
  }

  /** Every character of `p` from `lo` up to `hi` is '/'. */
  predicate SlashesBetween(p: string, lo: nat, hi: nat) {
    forall k :: lo <= k < hi && k < |p| ==> p[k] == '/'
  }

  /** `s.rstrip('/')` */
  function TrimTrailingSlashes(s: string): (r: string)
    ensures |r| <= |s| && r == s[..|r|]
    ensures r == [] || r[|r| - 1] != '/'
    ensures forall k :: |r| <= k < |s| ==> s[k] == '/'
    decreases |s|
  {
    if s != [] && s[|s| - 1] == '/' then TrimTrailingSlashes(s[..|s| - 1]) else s
  }

  /**
   * `os.path.dirname(p)`: the text up to and including the last '/', with
   * the trailing slashes removed unless it consists of slashes only.
   */
  function Dirname(p: string): (r: string)
    ensures |r| <= |p| && r == p[..|r|]
    ensures r == [] <==> '/' !in p
    ensures var h := |p| - |Basename(p)|; |r| <= h && SlashesBetween(p, |r|, h)
    ensures var h := |p| - |Basename(p)|; SlashesBetween(p, 0, h) ==> r == p[..h]
    ensures r == [] || r[|r| - 1] != '/' || AllSlashes(r)
  {
    var head := p[..|p| - |Basename(p)|];
    assert '/' in p <==> head != [] by {
      if head != [] {
        assert p[|head| - 1] == '/';
      }
      forall k | 0 <= k < |p| && p[k] == '/' ensures head != [] {
        assert k < |p| - |Basename(p)|;
      }
    }
    if head != [] && !AllSlashes(head) then TrimTrailingSlashes(head) else head
  }

  /**
   * `os.path.join(dir, name)`: an absolute `name` replaces `dir`; otherwise
   * `name` follows `dir` with one '/' between them, unless `dir` is empty
   * or already ends in '/'. The ensures are that definition itself;
   * `PathJoinSplits` is the property proved about it.
   */
  function PathJoin(dir: string, name: string): (r: string)
    ensures name != [] && name[0] == '/' ==> r == name
    ensures !(name != [] && name[0] == '/') ==>
              (r == dir + name && (dir == [] || dir[|dir| - 1] == '/')) ||
              (r == dir + "/" + name && dir != [] && dir[|dir| - 1] != '/')
  {
    if name != [] && name[0] == '/' then name
    else if dir == [] || dir[|dir| - 1] == '/' then dir + name
    else dir + "/" + name
  }

  /** Joining a directory and a bare file name, `basename` gives the name back and `dirname` the directory. */
  lemma PathJoinSplits(dir: string, name: string)
    requires '/' !in name
    ensures Basename(PathJoin(dir, name)) == name
    ensures dir != [] && dir[|dir| - 1] != '/' ==> Dirname(PathJoin(dir, name)) == dir
  {
    if dir == [] || dir[|dir| - 1] == '/' {
      BasenameOfChild(dir, name);
    } else {
      BasenameAfterSlash(dir, name);
      DirnameOfFile(dir, name);
    }
  }

  /** `dirname(d + "/" + file)` is `d` when `d` does not end in '/'. */
  lemma DirnameOfFile(d: string, file: string)
    requires d != [] && d[|d| - 1] != '/' && '/' !in file
    ensures Dirname(d + "/" + file) == d
  {
    var p := d + "/" + file;
    BasenameAfterSlash(d, file);
    var head := d + "/";
    assert p[..|p| - |file|] == head;
    assert head[|head| - 2] == d[|d| - 1];
    assert !AllSlashes(head);
    assert head[..|head| - 1] == d;
    assert TrimTrailingSlashes(d) == d;
    assert TrimTrailingSlashes(head) == d;
  }

  /**
   * The name of the directory that holds a file: for `parent + dir + "/" + file`,
   * with `parent` empty or ending in '/', it is `dir`.
   */
  lemma DirectoryOfFile(parent: string, dir: string, file: string)
    requires parent == [] || parent[|parent| - 1] == '/'
    requires dir != [] && '/' !in dir && '/' !in file
    ensures Basename(Dirname(parent + dir + "/" + file)) == dir
  {
    DirnameOfFile(parent + dir, file);
    BasenameOfChild(parent, dir);
  }

  /** The last component of `parent + name`, with `parent` empty or ending in '/', is `name`. */
  lemma BasenameOfChild(parent: string, name: string)
    requires parent == [] || parent[|parent| - 1] == '/'
    requires '/' !in name
    ensures Basename(parent + name) == name
  {
    if parent == [] {
      assert parent + name == name;
      BasenameWithoutSlash(name);
    } else {
      var up := parent[..|parent| - 1];
      assert parent + name == up + "/" + name;
      BasenameAfterSlash(up, name);
    }
  }

}
