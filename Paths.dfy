/**
  POSIX path joining and base names (`os.path.join`, `os.path.basename`),
  with `/` as the only separator.
*/
module Paths {

  type Path = string

  const Sep := '/'

  /** `os.path.join(a, b)`: an absolute `b` replaces `a`; a separator is added only when `a` needs one. */
  function Join(a: Path, b: Path): Path {
    if |b| > 0 && b[0] == Sep then b
    else if a == [] || a[|a| - 1] == Sep then a + b
    else a + [Sep] + b
  }

  /**
    A joined path ends with its second part; a relative second part follows
    the first part, with a separator between them unless the first part is
    empty or already ends in one.
  */
  lemma JoinShape(a: Path, b: Path)
    ensures var r := Join(a, b);
      && |r| >= |b| && r[|r| - |b|..] == b
      && (|b| > 0 && b[0] == Sep ==> r == b)
      && ((|b| == 0 || b[0] != Sep) ==> r[..|r| - |b|] == (if a == [] || a[|a| - 1] == Sep then a else a + [Sep]))
  {
  }

  /** `os.path.basename(p)`: what follows the last separator. */
  function Basename(p: Path): (r: Path)
    ensures Sep !in r
    ensures |r| <= |p| && r == p[|p| - |r|..]
    ensures |r| < |p| ==> p[|p| - |r| - 1] == Sep
    decreases |p|
  {
    if p == [] || p[|p| - 1] == Sep then []
    else Basename(p[..|p| - 1]) + [p[|p| - 1]]
  }

  /** A name without separators that follows a separator (or starts the path) is the base name. */
  lemma {:induction false} BasenameAfterSep(head: Path, name: Path)
    requires head == [] || head[|head| - 1] == Sep
    requires Sep !in name
    ensures Basename(head + name) == name
    decreases |name|
  {
    var p := head + name;
    if name != [] {
      assert p[..|p| - 1] == head + name[..|name| - 1];
      BasenameAfterSep(head, name[..|name| - 1]);
    }
  }

  /** A plain file name joined onto any folder is that path's base name. */
  lemma BasenameOfJoin(folder: Path, name: Path)
    requires name != [] && Sep !in name
    ensures Basename(Join(folder, name)) == name
  {
    var p := Join(folder, name);
    JoinShape(folder, name);
    var head := p[..|p| - |name|];
    assert p == head + name;
    BasenameAfterSep(head, name);
  }
}
