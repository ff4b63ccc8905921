/** Where the repository snapshot tool (snapshot.py) keeps its manifests:
    `save_snapshot` writes one JSON file per manifest into the archive
    directory under the user's home, and `list_snapshots` lists those files
    in reverse name order. The label precedes the timestamp in the name, so
    that order is by label first; only among manifests with one label does a
    later timestamp of the same length come first. */
module ManifestStore {
  import opened Base
  import opened PathOrder
  import opened FileTree
  import opened DirSnapshot

  /** `Path.home() / ".blackroad" / "archive"`. */
  function ArchiveDir(home: Path): Path {
    home + [".blackroad", "archive"]
  }

  /** `s.replace(from, to)` for single characters. */
  function ReplaceChar(s: string, from: char, to: char): (r: string)
    ensures |r| == |s|
    ensures forall i :: 0 <= i < |s| ==> r[i] == (if s[i] == from then to else s[i])
  {
    seq(|s|, i requires 0 <= i < |s| => if s[i] == from then to else s[i])
  }

  /** The timestamp as it appears in the file name: every `:` and `.` becomes
      `-`, everything else is kept in place. */
  function SafeStamp(ts: string): (r: string)
    ensures |r| == |ts|
    ensures ':' !in r && '.' !in r
    ensures forall i :: 0 <= i < |ts| && ts[i] != ':' && ts[i] != '.' ==> r[i] == ts[i]
    ensures forall i :: 0 <= i < |ts| && (ts[i] == ':' || ts[i] == '.') ==> r[i] == '-'
  {
    ReplaceChar(ReplaceChar(ts, ':', '-'), '.', '-')
  }

  /** A name matched by the glob `snapshot-*.json`: the fixed prefix and suffix
      with any text, possibly empty, between them. */
  predicate SavedPattern(name: string) {
    14 <= |name| && StartsWith(name, "snapshot-") && EndsWith(name, ".json")
  }

  /** The file name `save_snapshot` chooses for `m`: it matches the listing
      glob, carries the label right after the prefix, and carries the
      timestamp, free of `:` and `.`, right before the suffix. */
  function SaveName(m: Manifest): (r: string)
    ensures SavedPattern(r) && |r| == 15 + |m.title| + |m.timestamp|
    ensures r[9..9 + |m.title|] == m.title
    ensures var s := |r| - 5 - |m.timestamp|; 0 <= s && r[s..|r| - 5] == SafeStamp(m.timestamp)
  {
    var n := "snapshot-" + m.title + "-" + SafeStamp(m.timestamp) + ".json";
    assert n == "snapshot-" + (m.title + "-" + SafeStamp(m.timestamp) + ".json");
    assert n == ("snapshot-" + m.title + "-") + SafeStamp(m.timestamp) + ".json";
    n
  }

  /** `save_snapshot` (snapshot.py:59-65): creates the archive directory and
      writes the encoded manifest under `SaveName`, returning the path
      written. When the write raises, the directory it created stays. `encode`
      stands for `json.dumps(..., indent=2)`. */
  function SaveSnapshot(tree: Tree, home: Path, m: Manifest, encode: Manifest -> Bytes): (r: Outcome<Path>)
    ensures Blocked(tree, ArchiveDir(home)) ==> r == Outcome(tree, Failure(NotADirectory(ArchiveDir(home))))
    ensures !Blocked(tree, ArchiveDir(home)) ==>
      (r.result.Success? <==> Writable(tree, ArchiveDir(home) + [SaveName(m)]))
    ensures r.result.Success? ==> r.result.value == ArchiveDir(home) + [SaveName(m)]
    ensures r.result.Success? ==> r.result.value in r.tree && r.tree[r.result.value] == File(encode(m), true)
    ensures !Blocked(tree, ArchiveDir(home)) ==> ArchiveDir(home) in r.tree && r.tree[ArchiveDir(home)] == Dir
    ensures forall p :: p in tree && (r.result.Failure? || p != ArchiveDir(home) + [SaveName(m)]) ==>
      p in r.tree && r.tree[p] == tree[p]
    ensures forall p :: p in r.tree && p !in tree && p != ArchiveDir(home) + [SaveName(m)] ==> r.tree[p] == Dir
  {
    var dir := ArchiveDir(home);
    var out := dir + [SaveName(m)];
    match MakeDirs(tree, dir)
    case Failure(e) => Outcome(tree, Failure(e))
    case Success(t) =>
      assert forall k :: 0 < k <= |dir| ==> dir[..k] != out;
      assert dir[..|dir|] == dir;
      match WriteFile(t, out, encode(m))
      case Failure(e) => Outcome(t, Failure(e))
      case Success(t') => Outcome(t', Success(out))
  }

  /** A direct child of `dir` whose name matches `snapshot-*.json`. */
  predicate SavedEntry(tree: Tree, dir: Path, p: Path) {
    p in tree && |p| == |dir| + 1 && p[..|dir|] == dir && SavedPattern(Name(p))
  }

  /** `list_snapshots` (snapshot.py:96-99): nothing when the archive directory
      does not exist, otherwise every matching entry in it, largest path
      first. */
  function ListSaved(tree: Tree, home: Path): (r: seq<Path>)
    ensures StrictlyDecreasing(r)
    ensures forall p :: p in r <==> ArchiveDir(home) in tree && SavedEntry(tree, ArchiveDir(home), p)
  {
    var dir := ArchiveDir(home);
    if dir !in tree then []
    else
      var sorted := SortedSeq(set p | p in tree && |p| == |dir| + 1 && p[..|dir|] == dir && SavedPattern(Name(p)));
      ReversedDecreasing(sorted);
      Reversed(sorted)
  }

  /** A saved manifest is listed afterwards. */
  lemma SavedIsListed(tree: Tree, home: Path, m: Manifest, encode: Manifest -> Bytes)
    requires SaveSnapshot(tree, home, m, encode).result.Success?
    ensures var r := SaveSnapshot(tree, home, m, encode);
      r.result.value in ListSaved(r.tree, home)
  {
    var r := SaveSnapshot(tree, home, m, encode);
    var dir := ArchiveDir(home);
    assert r.result.value[..|dir|] == dir;
    assert Name(r.result.value) == SaveName(m);
  }

  lemma {:induction false} StrLtUnderPrefix(pre: string, a: string, b: string)
    ensures StrLt(pre + a, pre + b) <==> StrLt(a, b)
    decreases |pre|
  {
    if 0 < |pre| {
      assert (pre + a)[1..] == pre[1..] + a && (pre + b)[1..] == pre[1..] + b;
      StrLtUnderPrefix(pre[1..], a, b);
    } else {
      assert pre + a == a && pre + b == b;
    }
  }

  lemma {:induction false} StrLtEqualLength(a: string, b: string, suf: string, suf': string)
    requires |a| == |b| && StrLt(a, b)
    ensures StrLt(a + suf, b + suf')
    decreases |a|
  {
    if a[0] == b[0] {
      assert (a + suf)[1..] == a[1..] + suf && (b + suf')[1..] == b[1..] + suf';
      StrLtEqualLength(a[1..], b[1..], suf, suf');
    }
  }

  /** Of two manifests saved with the same label and timestamps of the same
      length, the one with the later timestamp is listed first. */
  lemma LaterListedFirst(tree: Tree, home: Path, m1: Manifest, m2: Manifest)
    requires m1.title == m2.title && |m1.timestamp| == |m2.timestamp|
    requires StrLt(SafeStamp(m1.timestamp), SafeStamp(m2.timestamp))
    ensures var l := ListSaved(tree, home);
      forall i, j ::
        (0 <= i < |l| && 0 <= j < |l| && l[i] == ArchiveDir(home) + [SaveName(m2)] && l[j] == ArchiveDir(home) + [SaveName(m1)])
        ==> i < j
  {
    var pre := "snapshot-" + m1.title + "-";
    var n1 := SaveName(m1);
    var n2 := SaveName(m2);
    assert n1 == pre + (SafeStamp(m1.timestamp) + ".json");
    assert n2 == pre + (SafeStamp(m2.timestamp) + ".json");
    StrLtEqualLength(SafeStamp(m1.timestamp), SafeStamp(m2.timestamp), ".json", ".json");
    StrLtUnderPrefix(pre, SafeStamp(m1.timestamp) + ".json", SafeStamp(m2.timestamp) + ".json");
    var dir := ArchiveDir(home);
    assert PathLt([n1], [n2]);
    PathLtUnderPrefix(dir, [n1], [n2]);
    var p1 := dir + [n1];
    var p2 := dir + [n2];
    PathLtIrreflexive(p1);
    PathLtAsymmetric(p1, p2);
  }
}
