/** The repository snapshot tool (snapshot.py): a per-file hash manifest of a
    directory tree, a check of a live tree against a manifest, and the names
    under which manifests are saved and listed. */
module DirSnapshot {
  import opened Base
  import opened PathOrder
  import opened FileTree
  import opened StreamHash

  datatype FileRecord = FileRecord(sha256: Digest, size: nat)

  /** One item of the manifest's `files` dict: relative path -> record. */
  datatype FileEntry = FileEntry(rel: Path, record: FileRecord)

  datatype Manifest = Manifest(
    title: string,  // the "label" field
    source: Path,
    timestamp: string,
    files: seq<FileEntry>,
    totalSize: nat,
    fileCount: nat)

  /** The walk's filter: a regular file strictly below `target` with no `.git`
      component anywhere in its full path (not only in the part below
      `target`). */
  predicate Tracked(tree: Tree, target: Path, p: Path) {
    p in tree && Within(target, p) && tree[p].File? && ".git" !in p
  }

  function RecordOf(node: Node, hash: Hasher): FileRecord
    requires node.File?
  {
    FileRecord(hash(node.data), |node.data|)
  }

  function Rels(files: seq<FileEntry>): (r: seq<Path>)
    ensures |r| == |files|
    ensures forall i :: 0 <= i < |files| ==> r[i] == files[i].rel
  {
    seq(|files|, i requires 0 <= i < |files| => files[i].rel)
  }

  function SumSizes(files: seq<FileEntry>): nat {
    if files == [] then 0 else SumSizes(files[..|files| - 1]) + files[|files| - 1].record.size
  }

  /** What the manifest `m` promises about `tree` below `target`: one entry per
      tracked file, keyed by its relative path in sorted order, each with the
      file's digest and size, and totals that agree with the entries. */
  ghost predicate Describes(m: Manifest, tree: Tree, target: Path, hash: Hasher) {
    && StrictlyIncreasing(Rels(m.files))
    && (forall rel :: rel in Rels(m.files) <==> Tracked(tree, target, target + rel))
    && (forall i :: 0 <= i < |m.files| ==>
          && Tracked(tree, target, target + m.files[i].rel)
          && m.files[i].record == RecordOf(tree[target + m.files[i].rel], hash))
    && m.totalSize == SumSizes(m.files)
    && m.fileCount == |m.files|
  }

  /** The manifest fields being filled in: the `files` dict so far,
      `total_size` and `file_count`. */
  datatype Tally = Tally(files: seq<FileEntry>, totalSize: nat, fileCount: nat)

  predicate Balanced(t: Tally) {
    t.totalSize == SumSizes(t.files) && t.fileCount == |t.files|
  }

  /** Reference definition of the entries a walk over `paths` adds: one per
      tracked path, in walk order. */
  function Contributed(tree: Tree, target: Path, paths: seq<Path>, hash: Hasher): seq<FileEntry>
    requires forall q :: q in paths ==> Within(target, q)
    decreases |paths|
  {
    if paths == [] then []
    else
      var p := paths[0];
      assert Within(target, p);
      (if Tracked(tree, target, p) then [FileEntry(p[|target|..], RecordOf(tree[p], hash))] else [])
      + Contributed(tree, target, paths[1..], hash)
  }

  /** Every contributed entry stands for a tracked path of the walk and carries
      that file's digest and size. */
  lemma {:induction false} ContributedSound(tree: Tree, target: Path, paths: seq<Path>, hash: Hasher)
    requires forall q :: q in paths ==> Within(target, q)
    ensures forall e :: e in Contributed(tree, target, paths, hash) ==>
      && target + e.rel in paths
      && Tracked(tree, target, target + e.rel)
      && e.record == RecordOf(tree[target + e.rel], hash)
    decreases |paths|
  {
    if paths != [] {
      var p := paths[0];
      assert Within(target, p);
      WithinSplit(target, p);
      ContributedSound(tree, target, paths[1..], hash);
      var c := Contributed(tree, target, paths, hash);
      var rest := Contributed(tree, target, paths[1..], hash);
      if Tracked(tree, target, p) {
        assert c == [FileEntry(p[|target|..], RecordOf(tree[p], hash))] + rest;
      } else {
        assert c == rest;
      }
    }
  }

  /** Every tracked path of the walk is contributed, under its relative path. */
  lemma {:induction false} ContributedComplete(tree: Tree, target: Path, paths: seq<Path>, hash: Hasher, i: nat)
    requires forall q :: q in paths ==> Within(target, q)
    requires i < |paths| && Tracked(tree, target, paths[i])
    ensures paths[i][|target|..] in Rels(Contributed(tree, target, paths, hash))
    decreases i
  {
    var p := paths[0];
    assert Within(target, p);
    var c := Contributed(tree, target, paths, hash);
    var rest := Contributed(tree, target, paths[1..], hash);
    var head := if Tracked(tree, target, p) then [FileEntry(p[|target|..], RecordOf(tree[p], hash))] else [];
    assert c == head + rest;
    if i == 0 {
      assert Rels(c)[0] == p[|target|..];
    } else {
      ContributedComplete(tree, target, paths[1..], hash, i - 1);
      assert paths[1..][i - 1] == paths[i];
      var k :| 0 <= k < |rest| && Rels(rest)[k] == paths[i][|target|..];
      assert Rels(c)[|head| + k] == rest[k].rel;
    }
  }

  /** A walk in increasing path order contributes entries in increasing
      relative-path order. */
  lemma {:induction false} ContributedSorted(tree: Tree, target: Path, paths: seq<Path>, hash: Hasher)
    requires forall q :: q in paths ==> Within(target, q)
    requires StrictlyIncreasing(paths)
    ensures StrictlyIncreasing(Rels(Contributed(tree, target, paths, hash)))
    decreases |paths|
  {
    if paths != [] {
      ContributedSorted(tree, target, paths[1..], hash);
      ContributedCons(tree, target, paths, hash);
      if Tracked(tree, target, paths[0]) {
        ContributedHeadBelow(tree, target, paths, hash);
        ConsIncreasing(paths[0][|target|..], Rels(Contributed(tree, target, paths[1..], hash)));
      }
    }
  }

  /** One step of the walk in terms of relative paths. */
  lemma {:induction false} ContributedCons(tree: Tree, target: Path, paths: seq<Path>, hash: Hasher)
    requires forall q :: q in paths ==> Within(target, q)
    requires paths != []
    ensures |target| < |paths[0]|
    ensures Tracked(tree, target, paths[0]) ==>
      Rels(Contributed(tree, target, paths, hash)) ==
        [paths[0][|target|..]] + Rels(Contributed(tree, target, paths[1..], hash))
    ensures !Tracked(tree, target, paths[0]) ==>
      Contributed(tree, target, paths, hash) == Contributed(tree, target, paths[1..], hash)
  {
    assert paths[0] in paths;
  }

  /** The first path of the walk, made relative, comes before every entry the
      rest of the walk contributes. */
  lemma {:induction false} ContributedHeadBelow(tree: Tree, target: Path, paths: seq<Path>, hash: Hasher)
    requires forall q :: q in paths ==> Within(target, q)
    requires StrictlyIncreasing(paths) && paths != []
    ensures var rs := Rels(Contributed(tree, target, paths[1..], hash));
      |target| < |paths[0]| && forall j :: 0 <= j < |rs| ==> PathLt(paths[0][|target|..], rs[j])
  {
    var p := paths[0];
    assert p in paths;
    WithinSplit(target, p);
    ContributedSound(tree, target, paths[1..], hash);
    var rest := Contributed(tree, target, paths[1..], hash);
    forall j | 0 <= j < |rest|
      ensures PathLt(p[|target|..], Rels(rest)[j])
    {
      assert rest[j] in rest;
      var k :| 0 <= k < |paths[1..]| && paths[1..][k] == target + rest[j].rel;
      assert PathLt(paths[0], paths[k + 1]);
      PathLtUnderPrefix(target, p[|target|..], rest[j].rel);
    }
  }

  /** The loop of snapshot.py:45-54 over the sorted walk, accumulating the
      manifest fields; it stops at the first tracked file it cannot read. */
  function Walk(tree: Tree, target: Path, paths: seq<Path>, acc: Tally, hash: Hasher): (r: Result<Tally>)
    requires forall q :: q in paths ==> Within(target, q)
    requires Balanced(acc)
    ensures r.Success? <==> forall q :: q in paths && Tracked(tree, target, q) ==> tree[q].accessible
    ensures r.Success? ==> Balanced(r.value)
    ensures r.Success? ==> r.value.files == acc.files + Contributed(tree, target, paths, hash)
    ensures r.Failure? ==> r.error.PermissionDenied? && Tracked(tree, target, r.error.path) && !tree[r.error.path].accessible
    decreases |paths|
  {
    if paths == [] then Success(acc)
    else
      var p := paths[0];
      assert Within(target, p);
      assert forall q :: q in paths <==> q == p || q in paths[1..] by {
        assert paths == [p] + paths[1..];
      }
      if p in tree && tree[p].File? && ".git" !in p then
        var size := |tree[p].data|;
        var digest :- FileDigest(tree, p, hash);
        var files' := acc.files + [FileEntry(p[|target|..], FileRecord(digest, size))];
        assert files'[..|files'| - 1] == acc.files;
        WalkStep(tree, target, paths, acc.files, files', hash);
        Walk(tree, target, paths[1..], Tally(files', acc.totalSize + size, acc.fileCount + 1), hash)
      else
        Walk(tree, target, paths[1..], acc, hash)
  }

  lemma WalkStep(tree: Tree, target: Path, paths: seq<Path>, done: seq<FileEntry>, files': seq<FileEntry>, hash: Hasher)
    requires forall q :: q in paths ==> Within(target, q)
    requires 0 < |paths| && Tracked(tree, target, paths[0])
    requires files' == done + [FileEntry(paths[0][|target|..], RecordOf(tree[paths[0]], hash))]
    ensures done + Contributed(tree, target, paths, hash) == files' + Contributed(tree, target, paths[1..], hash)
  {
    var p := paths[0];
    assert p in paths;
    var e := FileEntry(p[|target|..], RecordOf(tree[p], hash));
    var rest := Contributed(tree, target, paths[1..], hash);
    assert Contributed(tree, target, paths, hash) == [e] + rest;
    assert done + ([e] + rest) == (done + [e]) + rest;
  }

  /** `snapshot_directory` (snapshot.py:27-56). */
  function SnapshotDirectory(tree: Tree, target: Path, title: string, timestamp: string, hash: Hasher): (r: Result<Manifest>)
    ensures target !in tree ==> r == Failure(NotFound(target))
    ensures target in tree ==> (r.Success? <==> forall p :: Tracked(tree, target, p) ==> tree[p].accessible)
    ensures r.Failure? && target in tree ==>
      r.error.PermissionDenied? && Tracked(tree, target, r.error.path) && !tree[r.error.path].accessible
    ensures r.Success? ==> r.value.title == (if title == "" then Name(target) else title)
    ensures r.Success? ==> r.value.source == target && r.value.timestamp == timestamp
    ensures r.Success? ==> Describes(r.value, tree, target, hash)
  {
    if target !in tree then Failure(NotFound(target))
    else
      var paths := SortedSeq(Descendants(tree, target));
      var t :- Walk(tree, target, paths, Tally([], 0, 0), hash);
      var m := Manifest(if title == "" then Name(target) else title, target, timestamp, t.files, t.totalSize, t.fileCount);
      assert t.files == [] + Contributed(tree, target, paths, hash);
      assert [] + Contributed(tree, target, paths, hash) == Contributed(tree, target, paths, hash);
      SnapshotDescribes(tree, target, paths, t.files, hash);
      Success(m)
  }

  lemma SnapshotDescribes(tree: Tree, target: Path, paths: seq<Path>, files: seq<FileEntry>, hash: Hasher)
    requires paths == SortedSeq(Descendants(tree, target))
    requires forall q :: q in paths ==> Within(target, q)
    requires files == Contributed(tree, target, paths, hash)
    ensures StrictlyIncreasing(Rels(files))
    ensures forall rel :: rel in Rels(files) <==> Tracked(tree, target, target + rel)
    ensures forall i :: 0 <= i < |files| ==>
      && Tracked(tree, target, target + files[i].rel)
      && files[i].record == RecordOf(tree[target + files[i].rel], hash)
  {
    ContributedSound(tree, target, paths, hash);
    ContributedSorted(tree, target, paths, hash);
    forall rel | Tracked(tree, target, target + rel)
      ensures rel in Rels(files)
    {
      var p := target + rel;
      assert p in paths;
      var i :| 0 <= i < |paths| && paths[i] == p;
      WithinJoin(target, rel);
      ContributedComplete(tree, target, paths, hash, i);
    }
  }

  /** A classified difference: the three tags of `verify_snapshot`. */
  datatype Diff = Missing(rel: Path) | Changed(rel: Path) | Added(rel: Path)

  function DiffRels(ds: seq<Diff>): (r: seq<Path>)
    ensures |r| == |ds|
    ensures forall i :: 0 <= i < |ds| ==> r[i] == ds[i].rel
  {
    seq(|ds|, i requires 0 <= i < |ds| => ds[i].rel)
  }

  /** The recorded file still exists as a regular file but its contents hash to
      something other than the recorded digest. */
  predicate Drifted(tree: Tree, target: Path, e: FileEntry, hash: Hasher) {
    var p := target + e.rel;
    p in tree && tree[p].File? && hash(tree[p].data) != e.record.sha256
  }

  /** `a` is `b` with some elements left out and the rest in the same order. */
  predicate IsSubsequence(a: seq<Path>, b: seq<Path>)
    decreases |b|
  {
    a == [] || (0 < |b| && ((a[0] == b[0] && IsSubsequence(a[1..], b[1..])) || IsSubsequence(a, b[1..])))
  }

  /** One iteration of the first loop of `verify_snapshot`
      (snapshot.py:78-84): a missing path is reported without hashing; a
      present one is hashed, which raises when it is a directory or
      unreadable, and is reported when its digest differs. */
  function CheckEntry(tree: Tree, target: Path, e: FileEntry, hash: Hasher): (r: Result<seq<Diff>>)
    ensures r.Success? <==> (target + e.rel in tree ==> Readable(tree, target + e.rel))
    ensures r.Success? && target + e.rel !in tree ==> r.value == [Missing(e.rel)]
    ensures r.Success? && target + e.rel in tree ==>
      r.value == (if Drifted(tree, target, e, hash) then [Changed(e.rel)] else [])
  {
    var p := target + e.rel;
    if p !in tree then Success([Missing(e.rel)])
    else
      var digest :- FileDigest(tree, p, hash);
      if digest != e.record.sha256 then Success([Changed(e.rel)]) else Success([])
  }

  /** The first loop of `verify_snapshot` (snapshot.py:77-84), over the
      manifest entries in order. */
  function CheckRecorded(tree: Tree, target: Path, files: seq<FileEntry>, hash: Hasher): (r: Result<seq<Diff>>)
    ensures r.Success? ==> |r.value| <= |files|
    ensures r.Success? ==> forall d :: d in r.value ==> !d.Added?
    decreases |files|
  {
    if files == [] then Success([])
    else
      var head :- CheckEntry(tree, target, files[0], hash);
      var rest :- CheckRecorded(tree, target, files[1..], hash);
      Success(head + rest)
  }

  lemma FilesSplit(files: seq<FileEntry>)
    requires 0 < |files|
    ensures forall x :: x in files <==> x == files[0] || x in files[1..]
    ensures Rels(files) == [files[0].rel] + Rels(files[1..])
  {
    assert files == [files[0]] + files[1..];
  }

  /** The first loop raises exactly when some recorded path that still exists
      cannot be hashed. */
  lemma {:induction false} CheckRecordedSucceeds(tree: Tree, target: Path, files: seq<FileEntry>, hash: Hasher)
    ensures CheckRecorded(tree, target, files, hash).Success? <==>
      forall e :: e in files && target + e.rel in tree ==> Readable(tree, target + e.rel)
    decreases |files|
  {
    if files != [] {
      FilesSplit(files);
      CheckRecordedSucceeds(tree, target, files[1..], hash);
    }
  }

  /** The first loop tags a path MISSING exactly when it is recorded and
      absent, CHANGED exactly when it is recorded with a digest the present
      file no longer has, and never ADDED. */
  lemma {:induction false} CheckRecordedTags(tree: Tree, target: Path, files: seq<FileEntry>, hash: Hasher)
    requires CheckRecorded(tree, target, files, hash).Success?
    ensures forall d :: d in CheckRecorded(tree, target, files, hash).value ==> !d.Added?
    ensures forall rel :: Missing(rel) in CheckRecorded(tree, target, files, hash).value <==>
      rel in Rels(files) && target + rel !in tree
    ensures forall rel :: Changed(rel) in CheckRecorded(tree, target, files, hash).value <==>
      exists e :: e in files && e.rel == rel && Drifted(tree, target, e, hash)
    decreases |files|
  {
    if files != [] {
      FilesSplit(files);
      CheckRecordedTags(tree, target, files[1..], hash);
      var head := CheckEntry(tree, target, files[0], hash).value;
      var rest := CheckRecorded(tree, target, files[1..], hash).value;
      assert CheckRecorded(tree, target, files, hash).value == head + rest;
      assert forall d :: d in head + rest <==> d in head || d in rest;
    }
  }

  /** The first loop reports in manifest order. */
  lemma {:induction false} CheckRecordedInOrder(tree: Tree, target: Path, files: seq<FileEntry>, hash: Hasher)
    requires CheckRecorded(tree, target, files, hash).Success?
    ensures IsSubsequence(DiffRels(CheckRecorded(tree, target, files, hash).value), Rels(files))
    decreases |files|
  {
    if files != [] {
      FilesSplit(files);
      CheckRecordedInOrder(tree, target, files[1..], hash);
      var head := CheckEntry(tree, target, files[0], hash).value;
      var rest := CheckRecorded(tree, target, files[1..], hash).value;
      var ds := head + rest;
      assert CheckRecorded(tree, target, files, hash).value == ds;
      assert Rels(files)[1..] == Rels(files[1..]);
      if head == [] {
        assert ds == rest;
      } else {
        assert DiffRels(ds) == [files[0].rel] + DiffRels(rest);
        assert DiffRels(ds)[1..] == DiffRels(rest);
        assert DiffRels(ds)[0] == Rels(files)[0];
      }
    }
  }

  /** The second loop of `verify_snapshot` (snapshot.py:87-91): tracked live
      files whose relative path the manifest lacks, in walk order. */
  function FindAdded(tree: Tree, target: Path, paths: seq<Path>, files: seq<FileEntry>): (r: seq<Diff>)
    requires forall q :: q in paths ==> Within(target, q)
    ensures forall d :: d in r ==> d.Added?
    ensures forall rel :: Added(rel) in r <==>
      target + rel in paths && Tracked(tree, target, target + rel) && rel !in Rels(files)
    ensures forall d :: d in r ==> target + d.rel in paths
    decreases |paths|
  {
    if paths == [] then []
    else
      var p := paths[0];
      assert forall x :: x in paths <==> x == p || x in paths[1..] by {
        assert paths == [p] + paths[1..];
      }
      WithinSplit(target, p);
      var rest := FindAdded(tree, target, paths[1..], files);
      var head := if p in tree && tree[p].File? && ".git" !in p && p[|target|..] !in Rels(files)
        then [Added(p[|target|..])] else [];
      assert forall rel :: 0 < |rel| && target + rel == p ==> rel == p[|target|..] by {
        forall rel | 0 < |rel| && target + rel == p
          ensures rel == p[|target|..]
        {
          WithinJoin(target, rel);
        }
      }
      assert forall d :: d in head + rest <==> d in head || d in rest;
      head + rest
  }

  /** A walk in increasing path order reports additions in increasing
      relative-path order. */
  lemma {:induction false} FindAddedSorted(tree: Tree, target: Path, paths: seq<Path>, files: seq<FileEntry>)
    requires forall q :: q in paths ==> Within(target, q)
    requires StrictlyIncreasing(paths)
    ensures StrictlyIncreasing(DiffRels(FindAdded(tree, target, paths, files)))
    decreases |paths|
  {
    if paths != [] {
      FindAddedSorted(tree, target, paths[1..], files);
      FindAddedCons(tree, target, paths, files);
      var p := paths[0];
      if p in tree && tree[p].File? && ".git" !in p && p[|target|..] !in Rels(files) {
        FindAddedHeadBelow(tree, target, paths, files);
        ConsIncreasing(p[|target|..], DiffRels(FindAdded(tree, target, paths[1..], files)));
      }
    }
  }

  /** One step of the walk in terms of relative paths. */
  lemma {:induction false} FindAddedCons(tree: Tree, target: Path, paths: seq<Path>, files: seq<FileEntry>)
    requires forall q :: q in paths ==> Within(target, q)
    requires paths != []
    ensures |target| < |paths[0]|
    ensures var p := paths[0];
      p in tree && tree[p].File? && ".git" !in p && p[|target|..] !in Rels(files) ==>
        DiffRels(FindAdded(tree, target, paths, files)) ==
          [p[|target|..]] + DiffRels(FindAdded(tree, target, paths[1..], files))
    ensures var p := paths[0];
      !(p in tree && tree[p].File? && ".git" !in p && p[|target|..] !in Rels(files)) ==>
        FindAdded(tree, target, paths, files) == FindAdded(tree, target, paths[1..], files)
  {
    assert paths[0] in paths;
  }

  /** The first path of the walk, made relative, comes before every addition
      the rest of the walk reports. */
  lemma {:induction false} FindAddedHeadBelow(tree: Tree, target: Path, paths: seq<Path>, files: seq<FileEntry>)
    requires forall q :: q in paths ==> Within(target, q)
    requires StrictlyIncreasing(paths) && paths != []
    ensures var rs := DiffRels(FindAdded(tree, target, paths[1..], files));
      |target| < |paths[0]| && forall j :: 0 <= j < |rs| ==> PathLt(paths[0][|target|..], rs[j])
  {
    var p := paths[0];
    assert p in paths;
    WithinSplit(target, p);
    var rest := FindAdded(tree, target, paths[1..], files);
    forall j | 0 <= j < |rest|
      ensures PathLt(p[|target|..], DiffRels(rest)[j])
    {
      assert rest[j] in rest;
      var k :| 0 <= k < |paths[1..]| && paths[1..][k] == target + rest[j].rel;
      assert PathLt(paths[0], paths[k + 1]);
      PathLtUnderPrefix(target, p[|target|..], rest[j].rel);
    }
  }

  /** `verify_snapshot` (snapshot.py:68-93) on a manifest already loaded: the
      match flag and the differences, manifest order first, then additions
      in sorted order. */
  function VerifySnapshot(m: Manifest, tree: Tree, target: Path, hash: Hasher): (r: Result<(bool, seq<Diff>)>)
    ensures r.Success? <==> forall e :: e in m.files && target + e.rel in tree ==> Readable(tree, target + e.rel)
    ensures r.Success? ==> (r.value.0 <==> r.value.1 == [])
    ensures r.Success? ==> forall rel :: Missing(rel) in r.value.1 <==> rel in Rels(m.files) && target + rel !in tree
    ensures r.Success? ==> forall rel :: Changed(rel) in r.value.1 <==>
      exists e :: e in m.files && e.rel == rel && Drifted(tree, target, e, hash)
    ensures r.Success? ==> forall rel :: Added(rel) in r.value.1 <==>
      Tracked(tree, target, target + rel) && rel !in Rels(m.files)
    ensures r.Success? ==> InVerifyOrder(r.value.1, m.files)
  {
    CheckRecordedSucceeds(tree, target, m.files, hash);
    var first :- CheckRecorded(tree, target, m.files, hash);
    CheckRecordedTags(tree, target, m.files, hash);
    CheckRecordedInOrder(tree, target, m.files, hash);
    var paths := SortedSeq(Descendants(tree, target));
    var added := FindAdded(tree, target, paths, m.files);
    FindAddedSorted(tree, target, paths, m.files);
    var diffs := first + added;
    assert forall d :: d in diffs <==> d in first || d in added;
    assert forall rel :: Tracked(tree, target, target + rel) ==> target + rel in paths;
    VerifyOrder(first, added, m.files);
    Success((|diffs| == 0, diffs))
  }

  /** The order `verify_snapshot` reports in: a prefix of MISSING/CHANGED
      entries in manifest order, then the ADDED entries in increasing path
      order. */
  ghost predicate InVerifyOrder(diffs: seq<Diff>, files: seq<FileEntry>) {
    exists k :: 0 <= k <= |diffs|
      && (forall i :: 0 <= i < k ==> !diffs[i].Added?)
      && IsSubsequence(DiffRels(diffs[..k]), Rels(files))
      && (forall i :: k <= i < |diffs| ==> diffs[i].Added?)
      && StrictlyIncreasing(DiffRels(diffs[k..]))
  }

  lemma VerifyOrder(first: seq<Diff>, added: seq<Diff>, files: seq<FileEntry>)
    requires forall d :: d in first ==> !d.Added?
    requires IsSubsequence(DiffRels(first), Rels(files))
    requires forall d :: d in added ==> d.Added?
    requires StrictlyIncreasing(DiffRels(added))
    ensures InVerifyOrder(first + added, files)
  {
    var diffs := first + added;
    assert diffs[..|first|] == first && diffs[|first|..] == added;
    assert forall i :: 0 <= i < |first| ==> diffs[i] in first;
    assert forall i :: |first| <= i < |diffs| ==> diffs[i] in added;
  }

  /** Verifying a tree against the manifest just built from it reports a
      match and no differences. */
  lemma VerifyFreshManifest(tree: Tree, target: Path, title: string, timestamp: string, hash: Hasher)
    requires SnapshotDirectory(tree, target, title, timestamp, hash).Success?
    ensures VerifySnapshot(SnapshotDirectory(tree, target, title, timestamp, hash).value, tree, target, hash)
      == Success((true, []))
  {
    var m := SnapshotDirectory(tree, target, title, timestamp, hash).value;
    DescribedEntries(m, tree, target, hash);
    var diffs := VerifySnapshot(m, tree, target, hash).value.1;
    forall rel
      ensures Missing(rel) !in diffs && Changed(rel) !in diffs && Added(rel) !in diffs
    {
    }
    UntaggedEmpty(diffs);
  }

  lemma UntaggedEmpty(diffs: seq<Diff>)
    requires forall rel :: Missing(rel) !in diffs && Changed(rel) !in diffs && Added(rel) !in diffs
    ensures diffs == []
  {
    if diffs != [] {
      assert diffs[0] in diffs;
      match diffs[0]
      case Missing(rel) => assert false;
      case Changed(rel) => assert false;
      case Added(rel) => assert false;
    }
  }

  /** No path is given two different tags. */
  lemma NoTwoTags(m: Manifest, tree: Tree, target: Path, hash: Hasher, rel: Path)
    requires VerifySnapshot(m, tree, target, hash).Success?
    ensures var diffs := VerifySnapshot(m, tree, target, hash).value.1;
      && !(Missing(rel) in diffs && Changed(rel) in diffs)
      && !(Missing(rel) in diffs && Added(rel) in diffs)
      && !(Changed(rel) in diffs && Added(rel) in diffs)
  {
    var diffs := VerifySnapshot(m, tree, target, hash).value.1;
    if Changed(rel) in diffs {
      var e :| e in m.files && e.rel == rel && Drifted(tree, target, e, hash);
      var i :| 0 <= i < |m.files| && m.files[i] == e;
      assert Rels(m.files)[i] == rel;
    }
  }

  /** The per-entry facts of `Describes`, by membership. */
  lemma DescribedEntries(m: Manifest, tree: Tree, target: Path, hash: Hasher)
    requires Describes(m, tree, target, hash)
    ensures forall e :: e in m.files ==>
      && e.rel in Rels(m.files)
      && Tracked(tree, target, target + e.rel)
      && e.record == RecordOf(tree[target + e.rel], hash)
  {
    forall e | e in m.files
      ensures e.rel in Rels(m.files)
      ensures Tracked(tree, target, target + e.rel) && e.record == RecordOf(tree[target + e.rel], hash)
    {
      var i :| 0 <= i < |m.files| && m.files[i] == e;
      assert Rels(m.files)[i] == e.rel;
    }
  }

  /** Rewriting one tracked file with contents of a different digest, then
      verifying against the earlier manifest, reports that path CHANGED and
      nothing else. */
  lemma ModifiedFileReported(tree: Tree, target: Path, title: string, timestamp: string, hash: Hasher, rel: Path, data: Bytes)
    requires SnapshotDirectory(tree, target, title, timestamp, hash).Success?
    requires Tracked(tree, target, target + rel)
    requires hash(data) != hash(tree[target + rel].data)
    ensures var r := VerifySnapshot(SnapshotDirectory(tree, target, title, timestamp, hash).value,
                                    tree[target + rel := File(data, true)], target, hash);
      && r.Success? && !r.value.0
      && forall x :: Missing(x) !in r.value.1 && Added(x) !in r.value.1 && (Changed(x) in r.value.1 <==> x == rel)
  {
    var m := SnapshotDirectory(tree, target, title, timestamp, hash).value;
    var tree' := tree[target + rel := File(data, true)];
    DescribedEntries(m, tree, target, hash);
    RewriteEffects(m, tree, target, hash, rel, data);
    var r := VerifySnapshot(m, tree', target, hash);
    assert Changed(rel) in r.value.1;
  }

  /** What rewriting the tracked file at `rel` does to each clause of the
      verification of `m`, a manifest describing `tree`. */
  lemma RewriteEffects(m: Manifest, tree: Tree, target: Path, hash: Hasher, rel: Path, data: Bytes)
    requires Describes(m, tree, target, hash)
    requires forall p :: Tracked(tree, target, p) ==> tree[p].accessible
    requires Tracked(tree, target, target + rel)
    requires hash(data) != hash(tree[target + rel].data)
    ensures var tree' := tree[target + rel := File(data, true)];
      && (forall e :: e in m.files && target + e.rel in tree' ==> Readable(tree', target + e.rel))
      && (forall x :: !(x in Rels(m.files) && target + x !in tree'))
      && (forall e :: e in m.files ==> (Drifted(tree', target, e, hash) <==> e.rel == rel))
      && (exists e :: e in m.files && e.rel == rel)
      && (forall x :: Tracked(tree', target, target + x) ==> x in Rels(m.files))
  {
    var p := target + rel;
    var tree' := tree[p := File(data, true)];
    DescribedEntries(m, tree, target, hash);
    forall e | e in m.files && e.rel != rel
      ensures target + e.rel != p
      ensures !Drifted(tree', target, e, hash)
    {
      if target + e.rel == p {
        JoinInjective(target, e.rel, rel);
      }
    }
    var k :| 0 <= k < |m.files| && m.files[k].rel == rel;
    assert m.files[k] in m.files;
    assert Drifted(tree', target, m.files[k], hash);
    forall x | Tracked(tree', target, target + x)
      ensures x in Rels(m.files)
    {
      assert Tracked(tree, target, target + x);
    }
  }

  /** Deleting one tracked file, then verifying against the earlier manifest,
      reports that path MISSING and nothing else. */
  lemma DeletedFileReported(tree: Tree, target: Path, title: string, timestamp: string, hash: Hasher, rel: Path)
    requires SnapshotDirectory(tree, target, title, timestamp, hash).Success?
    requires Tracked(tree, target, target + rel)
    ensures var r := VerifySnapshot(SnapshotDirectory(tree, target, title, timestamp, hash).value,
                                    tree - {target + rel}, target, hash);
      && r.Success? && !r.value.0
      && forall x :: Changed(x) !in r.value.1 && Added(x) !in r.value.1 && (Missing(x) in r.value.1 <==> x == rel)
  {
    var m := SnapshotDirectory(tree, target, title, timestamp, hash).value;
    DeleteEffects(m, tree, target, hash, rel);
  }

  /** What deleting the tracked file at `rel` does to each clause of the
      verification of `m`, a manifest describing `tree`. */
  lemma DeleteEffects(m: Manifest, tree: Tree, target: Path, hash: Hasher, rel: Path)
    requires Describes(m, tree, target, hash)
    requires forall p :: Tracked(tree, target, p) ==> tree[p].accessible
    requires Tracked(tree, target, target + rel)
    ensures var tree' := tree - {target + rel};
      && (forall e :: e in m.files && target + e.rel in tree' ==> Readable(tree', target + e.rel))
      && (forall x :: x in Rels(m.files) && target + x !in tree' <==> x == rel)
      && (forall e :: e in m.files ==> !Drifted(tree', target, e, hash))
      && (forall x :: Tracked(tree', target, target + x) ==> x in Rels(m.files))
  {
    var p := target + rel;
    var tree' := tree - {p};
    DescribedEntries(m, tree, target, hash);
    forall x | x in Rels(m.files) && target + x !in tree'
      ensures x == rel
    {
      JoinInjective(target, x, rel);
    }
    forall x | Tracked(tree', target, target + x)
      ensures x in Rels(m.files)
    {
      assert Tracked(tree, target, target + x);
    }
  }

  /** Creating one new file below the target, then verifying against the
      earlier manifest, reports that path ADDED and nothing else. */
  lemma CreatedFileReported(tree: Tree, target: Path, title: string, timestamp: string, hash: Hasher, rel: Path, data: Bytes)
    requires SnapshotDirectory(tree, target, title, timestamp, hash).Success?
    requires 0 < |rel| && target + rel !in tree && ".git" !in target + rel
    ensures var r := VerifySnapshot(SnapshotDirectory(tree, target, title, timestamp, hash).value,
                                    tree[target + rel := File(data, true)], target, hash);
      && r.Success? && !r.value.0
      && forall x :: Missing(x) !in r.value.1 && Changed(x) !in r.value.1 && (Added(x) in r.value.1 <==> x == rel)
  {
    var m := SnapshotDirectory(tree, target, title, timestamp, hash).value;
    CreateEffects(m, tree, target, hash, rel, data);
  }

  /** What creating a new file at `rel` does to each clause of the
      verification of `m`, a manifest describing `tree`. */
  lemma CreateEffects(m: Manifest, tree: Tree, target: Path, hash: Hasher, rel: Path, data: Bytes)
    requires Describes(m, tree, target, hash)
    requires forall p :: Tracked(tree, target, p) ==> tree[p].accessible
    requires 0 < |rel| && target + rel !in tree && ".git" !in target + rel
    ensures var tree' := tree[target + rel := File(data, true)];
      && (forall e :: e in m.files && target + e.rel in tree' ==> Readable(tree', target + e.rel))
      && (forall x :: !(x in Rels(m.files) && target + x !in tree'))
      && (forall e :: e in m.files ==> !Drifted(tree', target, e, hash))
      && (forall x :: Tracked(tree', target, target + x) && x !in Rels(m.files) <==> x == rel)
  {
    var p := target + rel;
    var tree' := tree[p := File(data, true)];
    DescribedEntries(m, tree, target, hash);
    WithinJoin(target, rel);
    assert Tracked(tree', target, p);
    assert rel !in Rels(m.files);
    forall x | Tracked(tree', target, target + x) && x != rel
      ensures x in Rels(m.files)
    {
      if target + x == p {
        JoinInjective(target, x, rel);
      }
      assert Tracked(tree, target, target + x);
    }
  }

  /** The `.git` test looks at every component of the full path, so a target
      that itself lies inside a `.git` directory yields an empty manifest. */
  lemma GitAncestorExcludesAll(tree: Tree, target: Path, title: string, timestamp: string, hash: Hasher)
    requires target in tree && ".git" in target
    ensures var r := SnapshotDirectory(tree, target, title, timestamp, hash);
      r.Success? && r.value.files == [] && r.value.fileCount == 0 && r.value.totalSize == 0
  {
    forall p | p in tree && Within(target, p)
      ensures ".git" in p
    {
      var k :| 0 <= k < |target| && target[k] == ".git";
      assert p[k] == target[k];
    }
  }

  /** A strictly increasing sequence holding exactly `x` and `y`, with `x`
      before `y` in path order, is `[x, y]`. */
  lemma SortedPair(rs: seq<Path>, x: Path, y: Path)
    requires StrictlyIncreasing(rs) && PathLt(x, y)
    requires forall r :: r in rs <==> r == x || r == y
    ensures rs == [x, y]
  {
    PathLtIrreflexive(x);
    PathLtAsymmetric(x, y);
    assert x in rs && y in rs;
    assert forall i :: 0 <= i < |rs| ==> rs[i] in rs;
    if 2 < |rs| {
      IncreasingDistinct(rs, 0, 1);
      IncreasingDistinct(rs, 0, 2);
      IncreasingDistinct(rs, 1, 2);
      assert false;
    }
  }

  /** The tree of the worked example: `r/a.txt`, the directory `r/b` and
      `r/b/c.txt`. */
  function ExampleTree(a: Bytes, c: Bytes): Tree {
    map[["r"] := Dir, ["r", "a.txt"] := File(a, true), ["r", "b"] := Dir, ["r", "b", "c.txt"] := File(c, true)]
  }

  lemma ExampleTracked(a: Bytes, c: Bytes)
    ensures forall rel :: Tracked(ExampleTree(a, c), ["r"], ["r"] + rel) <==> rel == ["a.txt"] || rel == ["b", "c.txt"]
  {
    var tree := ExampleTree(a, c);
    var target: Path := ["r"];
    assert target + ["a.txt"] == ["r", "a.txt"] && target + ["b", "c.txt"] == ["r", "b", "c.txt"];
    forall rel | Tracked(tree, target, target + rel)
      ensures rel == ["a.txt"] || rel == ["b", "c.txt"]
    {
      var p := target + rel;
      if p == ["r", "a.txt"] {
        JoinInjective(target, rel, ["a.txt"]);
      } else {
        JoinInjective(target, rel, ["b", "c.txt"]);
      }
    }
  }

  lemma ExampleSucceeds(hash: Hasher, a: Bytes, c: Bytes)
    ensures SnapshotDirectory(ExampleTree(a, c), ["r"], "", "t", hash).Success?
  {
    var tree := ExampleTree(a, c);
    var target: Path := ["r"];
    ExampleTracked(a, c);
    forall p | Tracked(tree, target, p)
      ensures tree[p].accessible
    {
      WithinSplit(target, p);
    }
  }

  /** A manifest of a tree with exactly two tracked files, `x` before `y`
      in path order, lists them in that order with their sizes summed. */
  lemma DescribesTwo(m: Manifest, tree: Tree, target: Path, hash: Hasher, x: Path, y: Path)
    requires Describes(m, tree, target, hash)
    requires forall rel :: Tracked(tree, target, target + rel) <==> rel == x || rel == y
    requires PathLt(x, y)
    ensures Rels(m.files) == [x, y]
    ensures m.fileCount == 2
    ensures m.totalSize == |tree[target + x].data| + |tree[target + y].data|
  {
    SortedPair(Rels(m.files), x, y);
    var fs := m.files;
    assert fs[..1][..0] == [];
    assert SumSizes(fs[..1]) == fs[0].record.size;
    assert fs[..2] == fs;
  }

  /** The worked example: `a.txt` of 5 bytes and `b/c.txt` of 10 bytes give
      two entries, `a.txt` first, and 15 bytes in total. */
  lemma TwoFileExample(hash: Hasher, a: Bytes, c: Bytes)
    requires |a| == 5 && |c| == 10
    ensures var r := SnapshotDirectory(ExampleTree(a, c), ["r"], "", "t", hash);
      && r.Success?
      && r.value.title == "r"
      && Rels(r.value.files) == [["a.txt"], ["b", "c.txt"]]
      && r.value.fileCount == 2
      && r.value.totalSize == 15
  {
    var tree := ExampleTree(a, c);
    var target: Path := ["r"];
    ExampleSucceeds(hash, a, c);
    ExampleTracked(a, c);
    var m := SnapshotDirectory(tree, target, "", "t", hash).value;
    assert PathLt(["a.txt"], ["b", "c.txt"]);
    DescribesTwo(m, tree, target, hash, ["a.txt"], ["b", "c.txt"]);
    assert target + ["a.txt"] == ["r", "a.txt"] && target + ["b", "c.txt"] == ["r", "b", "c.txt"];
  }
}
