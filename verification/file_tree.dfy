/** An abstract local filesystem: a finite map from absolute path to node, with
    the handful of `pathlib` operations the snapshot tools use. */
module FileTree {
  import opened Base
  import opened PathOrder

  /** A directory, or a regular file with its bytes. `accessible` is false when
      opening the file, for reading or for writing, raises PermissionError;
      `stat` still works on it. Directories carry no permissions: every one
      can be listed and accepts new entries. */
  datatype Node = Dir | File(data: Bytes, accessible: bool)

  type Tree = map<Path, Node>

  /** What an operation of several filesystem steps leaves behind: the tree as
      it stands afterwards, and what the operation returned or raised. A step
      that raises does not undo the steps before it. */
  datatype Outcome<T> = Outcome(tree: Tree, result: Result<T>)

  /** `p` lies strictly below `dir`, so `dir.rglob("*")` enumerates it. */
  predicate Within(dir: Path, p: Path) {
    |dir| < |p| && p[..|dir|] == dir
  }

  lemma WithinSplit(dir: Path, p: Path)
    requires Within(dir, p)
    ensures dir + p[|dir|..] == p
  {
  }

  lemma WithinJoin(dir: Path, rel: Path)
    requires 0 < |rel|
    ensures Within(dir, dir + rel) && (dir + rel)[|dir|..] == rel
  {
    assert (dir + rel)[..|dir|] == dir;
  }

  lemma JoinInjective(dir: Path, a: Path, b: Path)
    requires dir + a == dir + b
    ensures a == b
  {
    assert a == (dir + a)[|dir|..];
  }

  /** The entries of `dir.rglob("*")`, files and directories alike. */
  function Descendants(tree: Tree, dir: Path): (r: set<Path>)
    ensures forall p :: p in r <==> p in tree && Within(dir, p)
  {
    set p | p in tree && Within(dir, p)
  }

  predicate Readable(tree: Tree, p: Path) {
    p in tree && tree[p].File? && tree[p].accessible
  }

  /** `open(p, "rb")` followed by reading to the end: the bytes, or the
      exception `open` raises. */
  function ReadFile(tree: Tree, p: Path): (r: Result<Bytes>)
    ensures r.Success? <==> Readable(tree, p)
    ensures r.Success? ==> r.value == tree[p].data
    ensures p !in tree ==> r == Failure(NotFound(p))
    ensures p in tree && tree[p].Dir? ==> r == Failure(IsADirectory(p))
    ensures p in tree && tree[p].File? && !tree[p].accessible ==> r == Failure(PermissionDenied(p))
  {
    if p !in tree then Failure(NotFound(p))
    else match tree[p]
      case Dir => Failure(IsADirectory(p))
      case File(data, ok) => if ok then Success(data) else Failure(PermissionDenied(p))
  }

  /** Opening `p` for writing (`write_text`, `tarfile.open(p, "w:gz")`)
      succeeds on a new path or an accessible regular file. */
  predicate Writable(tree: Tree, p: Path) {
    p !in tree || (tree[p].File? && tree[p].accessible)
  }

  /** Creating or truncating `p` and writing `data` to it; the parent
      directory is assumed to exist. */
  function WriteFile(tree: Tree, p: Path, data: Bytes): (r: Result<Tree>)
    ensures r.Success? <==> Writable(tree, p)
    ensures r.Failure? ==> r.error.path == p
    ensures r.Success? ==> p in r.value && r.value[p] == File(data, true)
    ensures r.Success? ==> forall q :: q != p ==> (q in r.value <==> q in tree)
    ensures r.Success? ==> forall q :: q != p && q in tree ==> r.value[q] == tree[q]
  {
    if p !in tree then Success(tree[p := File(data, true)])
    else match tree[p]
      case Dir => Failure(IsADirectory(p))
      case File(_, ok) => if ok then Success(tree[p := File(data, true)]) else Failure(PermissionDenied(p))
  }

  /** Some leading part of `dir`, or `dir` itself, is a regular file, so no
      directory can be created there. */
  predicate Blocked(tree: Tree, dir: Path) {
    exists k :: 0 < k <= |dir| && dir[..k] in tree && tree[dir[..k]].File?
  }

  /** Adds a directory node for every leading part of `dir` that is absent. */
  function AddDirs(tree: Tree, dir: Path): (r: Tree)
    ensures forall k :: 0 < k <= |dir| ==> dir[..k] in r
    ensures forall k :: 0 < k <= |dir| && dir[..k] !in tree ==> r[dir[..k]] == Dir
    ensures forall p :: p in tree ==> p in r && r[p] == tree[p]
    ensures forall p :: p in r && p !in tree ==> r[p] == Dir && exists k :: 0 < k <= |dir| && p == dir[..k]
    decreases |dir|
  {
    if |dir| == 0 then tree
    else
      var up := dir[..|dir| - 1];
      var t := AddDirs(tree, up);
      assert forall k :: 0 < k < |dir| ==> up[..k] == dir[..k];
      assert dir[..|dir|] == dir;
      if dir in t then t else t[dir := Dir]
  }

  /** `dir.mkdir(parents=True, exist_ok=True)`: creates the missing
      directories, or fails (naming `dir`) when a regular file is in the way. */
  function MakeDirs(tree: Tree, dir: Path): (r: Result<Tree>)
    ensures r.Success? <==> !Blocked(tree, dir)
    ensures r.Failure? ==> r.error == NotADirectory(dir)
    ensures r.Success? ==> forall k :: 0 < k <= |dir| ==> dir[..k] in r.value && r.value[dir[..k]] == Dir
    ensures r.Success? ==> forall p :: p in tree ==> p in r.value && r.value[p] == tree[p]
    ensures r.Success? ==> forall p :: p in r.value && p !in tree ==> r.value[p] == Dir
  {
    if Blocked(tree, dir) then Failure(NotADirectory(dir)) else Success(AddDirs(tree, dir))
  }

  /** `path.name`: the last component, or "" for the root. */
  function Name(p: Path): string {
    if |p| == 0 then "" else p[|p| - 1]
  }

  /** `s.rfind(c)`: the last index holding `c`, or -1. */
  function RFind(s: string, c: char): (r: int)
    ensures -1 <= r < |s|
    ensures 0 <= r ==> s[r] == c
    ensures forall j :: r < j < |s| ==> s[j] != c
    decreases |s|
  {
    if |s| == 0 then -1
    else if s[|s| - 1] == c then |s| - 1
    else RFind(s[..|s| - 1], c)
  }

  /** `PurePath(name).stem`: the name without its last suffix, where a suffix
      needs a dot that is neither the first nor the last character. */
  function Stem(name: string): (r: string)
    ensures |r| <= |name| && r == name[..|r|]
  {
    var i := RFind(name, '.');
    if 0 < i < |name| - 1 then name[..i] else name
  }
}
