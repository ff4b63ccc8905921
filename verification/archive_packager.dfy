/** The system snapshot packager (src/snapshot.py): collects the files under
    `~/.blackroad` that match a set of glob patterns, packs the readable ones
    into a gzipped tar archive under `~/.blackroad/snapshots`, writes a JSON
    sidecar manifest next to it, and lists the archives with their sidecars.

    Glob matching, the tar writer and JSON encoding and decoding are
    parameters: `glob` gives the matches of one pattern, `tar` the archive
    bytes for a list of members, `encode`/`decode` the sidecar text. */
module ArchivePackager {
  import opened Base
  import opened PathOrder
  import opened FileTree
  import opened StreamHash

  /** `Path.home() / ".blackroad" / "snapshots"`. */
  function SnapshotsDir(home: Path): Path {
    home + [".blackroad", "snapshots"]
  }

  const DefaultPatterns: seq<string> := ["**/*.db", "**/*.json", "**/*.yaml", "**/*.toml"]

  /** `include_patterns or [...]`: an absent or empty list means the defaults. */
  function EffectivePatterns(patterns: Option<seq<string>>): (r: seq<string>)
    ensures r != []
    ensures patterns.Some? && patterns.value != [] ==> r == patterns.value
    ensures patterns.None? || patterns.value == [] ==> r == DefaultPatterns
  {
    match patterns
    case Some(ps) => if ps != [] then ps else DefaultPatterns
    case None => DefaultPatterns
  }

  /** Everything some pattern of `pats` matches. */
  function Union(pats: seq<string>, glob: string -> set<Path>): (r: set<Path>)
    ensures forall p :: p in r <==> exists pat :: pat in pats && p in glob(pat)
    decreases |pats|
  {
    if pats == [] then {}
    else
      assert forall x :: x in pats <==> x == pats[0] || x in pats[1..] by {
        assert pats == [pats[0]] + pats[1..];
      }
      glob(pats[0]) + Union(pats[1..], glob)
  }

  /** `collect_files` (src/snapshot.py:27-32): the union of the matches of
      every effective pattern, each path once, in increasing order. */
  function CollectFiles(patterns: Option<seq<string>>, glob: string -> set<Path>): (r: seq<Path>)
    ensures StrictlyIncreasing(r)
    ensures forall p :: p in r <==> exists pat :: pat in EffectivePatterns(patterns) && p in glob(pat)
  {
    SortedSeq(Union(EffectivePatterns(patterns), glob))
  }

  /** One item of the manifest's `files` list. */
  datatype PackEntry = PackEntry(path: Path, sha256: Digest, size: nat)

  /** One member added to the tar archive, under its name in the archive. */
  datatype Member = Member(name: Path, data: Bytes)

  /** What the packing loop accumulates: the `files` list, the tar members and
      `total_bytes`. */
  datatype Packed = Packed(entries: seq<PackEntry>, members: seq<Member>, totalBytes: nat)

  function SumBytes(entries: seq<PackEntry>): nat {
    if entries == [] then 0 else entries[0].size + SumBytes(entries[1..])
  }

  function EntryPaths(entries: seq<PackEntry>): (r: seq<Path>)
    ensures |r| == |entries|
    ensures forall i :: 0 <= i < |entries| ==> r[i] == entries[i].path
  {
    seq(|entries|, i requires 0 <= i < |entries| => entries[i].path)
  }

  /** The entries that get a tar member: all but the one of the archive being
      written, which `TarFile.add` skips without raising. */
  function Kept(entries: seq<PackEntry>, home: Path, archive: Path): (r: seq<PackEntry>)
    ensures |r| <= |entries|
    ensures forall e :: e in r <==> e in entries && home + e.path != archive
    decreases |entries|
  {
    if entries == [] then []
    else
      assert forall x :: x in entries <==> x == entries[0] || x in entries[1..] by {
        assert entries == [entries[0]] + entries[1..];
      }
      (if home + entries[0].path == archive then [] else [entries[0]]) + Kept(entries[1..], home, archive)
  }

  /** The loop of src/snapshot.py:51-61 over the collected files. A file whose
      hashing raises an `OSError` (it is missing, a directory, or unreadable)
      is skipped; every other file contributes an entry keyed by its path
      relative to the home directory, with its digest and size, and its size
      to the total. Every such file but the archive being written also
      becomes a tar member with its bytes: `TarFile.add` returns without
      adding anything when asked to add the archive itself, and the entry is
      appended all the same. */
  function Pack(tree: Tree, home: Path, files: seq<Path>, archive: Path, hash: Hasher): (r: Packed)
    requires forall f :: f in files ==> Within(home, f)
    ensures r.totalBytes == SumBytes(r.entries)
    ensures forall i :: 0 <= i < |r.entries| ==>
      && Readable(tree, home + r.entries[i].path)
      && r.entries[i].sha256 == hash(tree[home + r.entries[i].path].data)
      && r.entries[i].size == |tree[home + r.entries[i].path].data|
    ensures MembersMatch(r, tree, home, archive)
    decreases |files|
  {
    if files == [] then Packed([], [], 0)
    else
      var f := files[0];
      assert f in files;
      var rest := Pack(tree, home, files[1..], archive, hash);
      match FileDigest(tree, f, hash)
      case Failure(_) => rest
      case Success(checksum) =>
        assert Within(home, f);
        var rel := f[|home|..];
        WithinSplit(home, f);
        var data := tree[f].data;
        var e := PackEntry(rel, checksum, |data|);
        var es := [e] + rest.entries;
        assert es[1..] == rest.entries;
        assert forall i :: 0 < i < |es| ==> es[i] == rest.entries[i - 1];
        var ms := if f == archive then rest.members else [Member(rel, data)] + rest.members;
        MembersMatchCons(rest, tree, home, archive, e, data, |data| + rest.totalBytes);
        Packed(es, ms, |data| + rest.totalBytes)
  }

  lemma KeptCons(e: PackEntry, es: seq<PackEntry>, home: Path, archive: Path)
    ensures Kept([e] + es, home, archive) == (if home + e.path == archive then [] else [e]) + Kept(es, home, archive)
  {
    assert ([e] + es)[0] == e && ([e] + es)[1..] == es;
  }

  /** One step of the loop keeps `MembersMatch`: the new entry gets a member
      in front unless it is the archive itself. */
  lemma MembersMatchCons(k: Packed, tree: Tree, home: Path, archive: Path, e: PackEntry, data: Bytes, total: nat)
    requires MembersMatch(k, tree, home, archive)
    requires home + e.path in tree && tree[home + e.path] == File(data, true)
    ensures var ms := if home + e.path == archive then k.members else [Member(e.path, data)] + k.members;
      MembersMatch(Packed([e] + k.entries, ms, total), tree, home, archive)
  {
    var kept := Kept(k.entries, home, archive);
    KeptCons(e, k.entries, home, archive);
    if home + e.path == archive {
      assert Kept([e] + k.entries, home, archive) == kept;
    } else {
      assert Kept([e] + k.entries, home, archive) == [e] + kept;
      MembersHoldCons(k.members, kept, tree, home, e, data);
    }
  }

  lemma MembersHoldCons(ms: seq<Member>, kept: seq<PackEntry>, tree: Tree, home: Path, e: PackEntry, data: Bytes)
    requires MembersHold(ms, kept, tree, home)
    requires home + e.path in tree && tree[home + e.path] == File(data, true)
    ensures MembersHold([Member(e.path, data)] + ms, [e] + kept, tree, home)
  {
    var ms' := [Member(e.path, data)] + ms;
    var kept' := [e] + kept;
    forall i | 0 < i < |kept'|
      ensures ms'[i] == ms[i - 1] && kept'[i] == kept[i - 1]
    {
    }
  }

  /** The recorded entries, the collected files they come from, and the tree
      the files were read in: every entry is a readable collected file with
      its digest and size, every readable collected file has an entry, and the
      entries are in increasing path order. */
  ghost predicate Records(entries: seq<PackEntry>, tree: Tree, home: Path, files: seq<Path>, hash: Hasher) {
    && (forall e :: e in entries ==>
          && home + e.path in files
          && Readable(tree, home + e.path)
          && e.sha256 == hash(tree[home + e.path].data)
          && e.size == |tree[home + e.path].data|)
    && (forall f :: f in files && Readable(tree, f) ==> Within(home, f) && f[|home|..] in EntryPaths(entries))
    && StrictlyIncreasing(EntryPaths(entries))
  }

  lemma {:induction false} PackSound(tree: Tree, home: Path, files: seq<Path>, archive: Path, hash: Hasher)
    requires forall f :: f in files ==> Within(home, f)
    ensures forall e :: e in Pack(tree, home, files, archive, hash).entries ==> home + e.path in files
    decreases |files|
  {
    if files != [] {
      var f := files[0];
      assert f in files;
      WithinSplit(home, f);
      PackSound(tree, home, files[1..], archive, hash);
      var r := Pack(tree, home, files, archive, hash);
      var rest := Pack(tree, home, files[1..], archive, hash);
      if Readable(tree, f) {
        assert r.entries == [r.entries[0]] + rest.entries;
      } else {
        assert r == rest;
      }
    }
  }

  lemma {:induction false} PackComplete(tree: Tree, home: Path, files: seq<Path>, archive: Path, hash: Hasher)
    requires forall f :: f in files ==> Within(home, f)
    ensures forall f :: f in files && Readable(tree, f) ==> Within(home, f) && f[|home|..] in EntryPaths(Pack(tree, home, files, archive, hash).entries)
    decreases |files|
  {
    if files != [] {
      var f := files[0];
      assert forall x :: x in files <==> x == f || x in files[1..] by {
        assert files == [f] + files[1..];
      }
      PackComplete(tree, home, files[1..], archive, hash);
      var r := Pack(tree, home, files, archive, hash);
      var rest := Pack(tree, home, files[1..], archive, hash);
      if Readable(tree, f) {
        assert r.entries == [r.entries[0]] + rest.entries;
        assert EntryPaths(r.entries) == [f[|home|..]] + EntryPaths(rest.entries);
      } else {
        assert r == rest;
      }
    }
  }

  lemma {:induction false} PackSorted(tree: Tree, home: Path, files: seq<Path>, archive: Path, hash: Hasher)
    requires forall f :: f in files ==> Within(home, f)
    requires StrictlyIncreasing(files)
    ensures StrictlyIncreasing(EntryPaths(Pack(tree, home, files, archive, hash).entries))
    decreases |files|
  {
    if files != [] {
      PackSorted(tree, home, files[1..], archive, hash);
      PackCons(tree, home, files, archive, hash);
      if Readable(tree, files[0]) {
        PackHeadBelow(tree, home, files, archive, hash);
        ConsIncreasing(files[0][|home|..], EntryPaths(Pack(tree, home, files[1..], archive, hash).entries));
      }
    }
  }

  /** One step of the loop: a readable first file puts its relative path in
      front of the rest's entries, any other first file is skipped. */
  lemma {:induction false} PackCons(tree: Tree, home: Path, files: seq<Path>, archive: Path, hash: Hasher)
    requires forall f :: f in files ==> Within(home, f)
    requires files != []
    ensures |home| < |files[0]|
    ensures Readable(tree, files[0]) ==>
      EntryPaths(Pack(tree, home, files, archive, hash).entries) ==
        [files[0][|home|..]] + EntryPaths(Pack(tree, home, files[1..], archive, hash).entries)
    ensures !Readable(tree, files[0]) ==> Pack(tree, home, files, archive, hash) == Pack(tree, home, files[1..], archive, hash)
  {
    assert files[0] in files;
    if Readable(tree, files[0]) {
      var es := Pack(tree, home, files, archive, hash).entries;
      var rest := Pack(tree, home, files[1..], archive, hash).entries;
      assert es == [PackEntry(files[0][|home|..], hash(tree[files[0]].data), |tree[files[0]].data|)] + rest;
      EntryPathsCons(es[0], rest);
    }
  }

  lemma EntryPathsCons(e: PackEntry, es: seq<PackEntry>)
    ensures EntryPaths([e] + es) == [e.path] + EntryPaths(es)
  {
    assert forall i :: 0 < i < |es| + 1 ==> ([e] + es)[i] == es[i - 1];
  }

  /** The first collected file, relative to home, comes before every entry the
      rest of the loop records. */
  lemma {:induction false} PackHeadBelow(tree: Tree, home: Path, files: seq<Path>, archive: Path, hash: Hasher)
    requires forall f :: f in files ==> Within(home, f)
    requires StrictlyIncreasing(files) && files != []
    ensures var rs := EntryPaths(Pack(tree, home, files[1..], archive, hash).entries);
      |home| < |files[0]| && forall j :: 0 <= j < |rs| ==> PathLt(files[0][|home|..], rs[j])
  {
    var f := files[0];
    assert f in files;
    WithinSplit(home, f);
    var rest := Pack(tree, home, files[1..], archive, hash);
    PackSound(tree, home, files[1..], archive, hash);
    var rs := EntryPaths(rest.entries);
    forall j | 0 <= j < |rs|
      ensures PathLt(f[|home|..], rs[j])
    {
      assert rest.entries[j] in rest.entries;
      var k :| 0 <= k < |files[1..]| && files[1..][k] == home + rs[j];
      assert PathLt(files[0], files[k + 1]);
      PathLtUnderPrefix(home, f[|home|..], rs[j]);
    }
  }

  /** The loop's result meets `Records`. */
  lemma PackRecords(tree: Tree, home: Path, files: seq<Path>, archive: Path, hash: Hasher)
    requires forall f :: f in files ==> Within(home, f)
    requires StrictlyIncreasing(files)
    ensures Records(Pack(tree, home, files, archive, hash).entries, tree, home, files, hash)
  {
    var r := Pack(tree, home, files, archive, hash);
    PackSound(tree, home, files, archive, hash);
    PackComplete(tree, home, files, archive, hash);
    PackSorted(tree, home, files, archive, hash);
    forall e | e in r.entries
      ensures Readable(tree, home + e.path)
      ensures e.sha256 == hash(tree[home + e.path].data) && e.size == |tree[home + e.path].data|
    {
      var i :| 0 <= i < |r.entries| && r.entries[i] == e;
    }
  }

  /** The loop only looks at whether each collected file is readable and at its
      bytes, so two trees that agree on those give the same result. */
  lemma {:induction false} PackFrame(t: Tree, u: Tree, home: Path, files: seq<Path>, archive: Path, hash: Hasher)
    requires forall f :: f in files ==> Within(home, f)
    requires forall f :: f in files ==> (Readable(t, f) <==> Readable(u, f)) && (Readable(t, f) ==> t[f] == u[f])
    ensures Pack(t, home, files, archive, hash) == Pack(u, home, files, archive, hash)
    decreases |files|
  {
    if files != [] {
      assert files[0] in files;
      assert forall f :: f in files[1..] ==> f in files;
      PackFrame(t, u, home, files[1..], archive, hash);
    }
  }

  /** `blackroad-snap-{ts}-{label}`. */
  function SnapName(ts: string, title: string): string {
    "blackroad-snap-" + ts + "-" + title
  }

  function ArchiveName(ts: string, title: string): string {
    SnapName(ts, title) + ".tar.gz"
  }

  function SidecarName(ts: string, title: string): string {
    SnapName(ts, title) + "-manifest.json"
  }

  /** The sidecar manifest: `label`, `created_at`, `files`, `total_bytes`.
      `created_at` is absent in the placeholder `list_snapshots` makes up. */
  datatype PackManifest = PackManifest(title: string, createdAt: Option<string>, files: seq<PackEntry>, totalBytes: nat)

  /** The tree the packing loop reads: `tarfile.open(snap_path, "w:gz")` has
      just created or truncated the archive, which holds `pending` while the
      loop runs (the gzip header and whatever output has been flushed; the
      loop only reads it when a pattern collects the archive itself). */
  function AsRead(tree: Tree, archive: Path, pending: Bytes): Tree {
    tree[archive := File(pending, true)]
  }

  /** `create_snapshot` (src/snapshot.py:35-67). `ts` and `createdAt` are the
      two clock readings. On success it returns the archive path and what the
      loop accumulated, so that the contract can say what the archive and the
      sidecar hold. A write that raises leaves the steps before it in place:
      the snapshots directory, and the finished archive when it is the
      sidecar write that raises. */
  function CreateSnapshot(
    tree: Tree, home: Path, title: string, ts: string, createdAt: string,
    patterns: Option<seq<string>>, glob: string -> set<Path>, hash: Hasher, pending: Bytes,
    tar: seq<Member> -> Bytes, encode: PackManifest -> Bytes): (r: Outcome<(Path, Packed)>)
    requires forall pat, p :: p in glob(pat) ==> Within(home, p)
    ensures Blocked(tree, SnapshotsDir(home)) ==> r == Outcome(tree, Failure(NotADirectory(SnapshotsDir(home))))
    ensures !Blocked(tree, SnapshotsDir(home)) ==> (r.result.Success? <==>
      Writable(tree, SnapshotsDir(home) + [ArchiveName(ts, title)]) &&
      Writable(tree, SnapshotsDir(home) + [SidecarName(ts, title)]))
    ensures r.result.Success? ==> r.result.value.0 == SnapshotsDir(home) + [ArchiveName(ts, title)]
    ensures r.result.Success? ==>
      var (archive, k) := r.result.value;
      && archive in r.tree && r.tree[archive] == File(tar(k.members), true)
      && SnapshotsDir(home) + [SidecarName(ts, title)] in r.tree
      && r.tree[SnapshotsDir(home) + [SidecarName(ts, title)]]
         == File(encode(PackManifest(title, Some(createdAt), k.entries, k.totalBytes)), true)
    ensures !Blocked(tree, SnapshotsDir(home)) ==> SnapshotsDir(home) in r.tree && r.tree[SnapshotsDir(home)] == Dir
    ensures !Blocked(tree, SnapshotsDir(home)) && Writable(tree, SnapshotsDir(home) + [ArchiveName(ts, title)]) ==>
      var archive := SnapshotsDir(home) + [ArchiveName(ts, title)];
      var k := Pack(AsRead(tree, archive, pending), home, CollectFiles(patterns, glob), archive, hash);
      && archive in r.tree && r.tree[archive] == File(tar(k.members), true)
      && (r.result.Success? ==> r.result.value.1 == k)
    ensures r.result.Failure? ==> var sidecar := SnapshotsDir(home) + [SidecarName(ts, title)];
      (sidecar in r.tree <==> sidecar in tree) && (sidecar in tree ==> r.tree[sidecar] == tree[sidecar])
    ensures forall p :: p in tree && p != SnapshotsDir(home) + [ArchiveName(ts, title)]
                        && p != SnapshotsDir(home) + [SidecarName(ts, title)] ==>
      p in r.tree && r.tree[p] == tree[p]
    ensures forall p :: p in r.tree && p !in tree && p != SnapshotsDir(home) + [ArchiveName(ts, title)]
                        && p != SnapshotsDir(home) + [SidecarName(ts, title)] ==>
      r.tree[p] == Dir
  {
    var dir := SnapshotsDir(home);
    var archive := dir + [ArchiveName(ts, title)];
    var sidecar := dir + [SidecarName(ts, title)];
    match MakeDirs(tree, dir)
    case Failure(e) => Outcome(tree, Failure(e))
    case Success(t1) =>
      OutputsDistinct(dir, ts, title);
      MakeDirsKeeps(tree, dir, archive);
      MakeDirsKeeps(tree, dir, sidecar);
      var files := CollectFiles(patterns, glob);
      var o := PackAndWrite(t1, home, archive, sidecar, files, title, createdAt, hash, pending, tar, encode);
      PackAfterMakeDirs(tree, dir, archive, pending, home, files, hash);
      match o.result
      case Failure(e) => Outcome(o.tree, Failure(e))
      case Success(k) => Outcome(o.tree, Success((archive, k)))
  }

  /** Creating `dir` leaves a path that is none of its leading parts as it
      was. */
  lemma MakeDirsKeeps(tree: Tree, dir: Path, p: Path)
    requires MakeDirs(tree, dir).Success?
    requires forall k :: 0 < k <= |dir| ==> dir[..k] != p
    ensures var t1 := MakeDirs(tree, dir).value;
      (p in t1 <==> p in tree) && (p in tree ==> t1[p] == tree[p])
  {
  }

  /** The archive and the sidecar are distinct direct children of `dir`, so
      creating `dir` does not touch them. */
  lemma OutputsDistinct(dir: Path, ts: string, title: string)
    ensures var archive := dir + [ArchiveName(ts, title)];
      var sidecar := dir + [SidecarName(ts, title)];
      && archive != sidecar
      && (forall k :: 0 < k <= |dir| ==> dir[..k] != archive && dir[..k] != sidecar)
      && dir[..|dir|] == dir
  {
    var archive := dir + [ArchiveName(ts, title)];
    var sidecar := dir + [SidecarName(ts, title)];
    assert archive[|dir|] == ArchiveName(ts, title) && sidecar[|dir|] == SidecarName(ts, title);
    assert |ArchiveName(ts, title)| != |SidecarName(ts, title)|;
  }

  /** src/snapshot.py:50-65 once the directory exists: open the archive for
      writing, pack the files into it, then write the sidecar. When the
      sidecar write raises, the archive is already on disk. */
  function PackAndWrite(
    t1: Tree, home: Path, archive: Path, sidecar: Path, files: seq<Path>, title: string, createdAt: string,
    hash: Hasher, pending: Bytes, tar: seq<Member> -> Bytes, encode: PackManifest -> Bytes): (r: Outcome<Packed>)
    requires forall f :: f in files ==> Within(home, f)
    requires archive != sidecar
    ensures r.result.Success? <==> Writable(t1, archive) && Writable(t1, sidecar)
    ensures !Writable(t1, archive) ==> r.tree == t1
    ensures Writable(t1, archive) ==>
      archive in r.tree && r.tree[archive] == File(tar(Pack(AsRead(t1, archive, pending), home, files, archive, hash).members), true)
    ensures r.result.Success? ==>
      var k := r.result.value;
      && k == Pack(AsRead(t1, archive, pending), home, files, archive, hash)
      && sidecar in r.tree
      && r.tree[sidecar] == File(encode(PackManifest(title, Some(createdAt), k.entries, k.totalBytes)), true)
    ensures r.result.Failure? ==> (sidecar in r.tree <==> sidecar in t1) && (sidecar in t1 ==> r.tree[sidecar] == t1[sidecar])
    ensures forall p :: p in t1 && p != archive && p != sidecar ==> p in r.tree && r.tree[p] == t1[p]
    ensures forall p :: p in r.tree && p != archive && p != sidecar ==> p in t1
  {
    match WriteFile(t1, archive, pending)
    case Failure(e) => Outcome(t1, Failure(e))
    case Success(t2) =>
      assert t2 == AsRead(t1, archive, pending);
      var k := Pack(t2, home, files, archive, hash);
      var t3 := t2[archive := File(tar(k.members), true)];
      var manifest := PackManifest(title, Some(createdAt), k.entries, k.totalBytes);
      match WriteFile(t3, sidecar, encode(manifest))
      case Failure(e) => Outcome(t3, Failure(e))
      case Success(t4) => Outcome(t4, Success(k))
  }

  /** What `create_snapshot` records: an entry for every readable collected
      file, in path order, with its digest and size as the loop read them,
      and `total_bytes` their sum. */
  lemma CreateSnapshotRecords(
    tree: Tree, home: Path, title: string, ts: string, createdAt: string,
    patterns: Option<seq<string>>, glob: string -> set<Path>, hash: Hasher, pending: Bytes,
    tar: seq<Member> -> Bytes, encode: PackManifest -> Bytes)
    requires forall pat, p :: p in glob(pat) ==> Within(home, p)
    requires CreateSnapshot(tree, home, title, ts, createdAt, patterns, glob, hash, pending, tar, encode).result.Success?
    ensures var k := CreateSnapshot(tree, home, title, ts, createdAt, patterns, glob, hash, pending, tar, encode).result.value.1;
      && Records(k.entries, AsRead(tree, SnapshotsDir(home) + [ArchiveName(ts, title)], pending), home, CollectFiles(patterns, glob), hash)
      && k.totalBytes == SumBytes(k.entries)
  {
    var archive := SnapshotsDir(home) + [ArchiveName(ts, title)];
    PackRecords(AsRead(tree, archive, pending), home, CollectFiles(patterns, glob), archive, hash);
  }

  /** What `create_snapshot` adds to the archive: one member per manifest
      entry, under the entry's path, holding the bytes the loop read. */
  lemma CreateSnapshotMembers(
    tree: Tree, home: Path, title: string, ts: string, createdAt: string,
    patterns: Option<seq<string>>, glob: string -> set<Path>, hash: Hasher, pending: Bytes,
    tar: seq<Member> -> Bytes, encode: PackManifest -> Bytes)
    requires forall pat, p :: p in glob(pat) ==> Within(home, p)
    requires CreateSnapshot(tree, home, title, ts, createdAt, patterns, glob, hash, pending, tar, encode).result.Success?
    ensures MembersMatch(CreateSnapshot(tree, home, title, ts, createdAt, patterns, glob, hash, pending, tar, encode).result.value.1,
                         AsRead(tree, SnapshotsDir(home) + [ArchiveName(ts, title)], pending), home,
                         SnapshotsDir(home) + [ArchiveName(ts, title)])
  {
    var archive := SnapshotsDir(home) + [ArchiveName(ts, title)];
    PackMembersMatch(AsRead(tree, archive, pending), home, CollectFiles(patterns, glob), archive, hash);
  }

  /** Member `i` of the archive is the `i`-th manifest entry that is not the
      archive itself, holding the bytes of that file in `tree`. */
  predicate MembersMatch(k: Packed, tree: Tree, home: Path, archive: Path) {
    MembersHold(k.members, Kept(k.entries, home, archive), tree, home)
  }

  /** Member `i` has the path of entry `i` and the bytes of that file. */
  predicate MembersHold(ms: seq<Member>, kept: seq<PackEntry>, tree: Tree, home: Path) {
    && |ms| == |kept|
    && forall i :: 0 <= i < |kept| ==>
         && ms[i].name == kept[i].path
         && home + kept[i].path in tree
         && tree[home + kept[i].path] == File(ms[i].data, true)
  }

  /** When a pattern collects the archive being written, the manifest still
      records it, with the digest and size of what it held while the loop ran,
      but the archive gets no member of that name. */
  lemma SelfCollectedArchive(
    tree: Tree, home: Path, title: string, ts: string, createdAt: string,
    patterns: Option<seq<string>>, glob: string -> set<Path>, hash: Hasher, pending: Bytes,
    tar: seq<Member> -> Bytes, encode: PackManifest -> Bytes)
    requires forall pat, p :: p in glob(pat) ==> Within(home, p)
    requires CreateSnapshot(tree, home, title, ts, createdAt, patterns, glob, hash, pending, tar, encode).result.Success?
    requires SnapshotsDir(home) + [ArchiveName(ts, title)] in CollectFiles(patterns, glob)
    ensures var k := CreateSnapshot(tree, home, title, ts, createdAt, patterns, glob, hash, pending, tar, encode).result.value.1;
      var archive := SnapshotsDir(home) + [ArchiveName(ts, title)];
      && (exists e :: e in k.entries && home + e.path == archive && e.sha256 == hash(pending) && e.size == |pending|)
      && (forall m :: m in k.members ==> home + m.name != archive)
  {
    var archive := SnapshotsDir(home) + [ArchiveName(ts, title)];
    assert !Blocked(tree, SnapshotsDir(home)) && Writable(tree, archive);
    PackSkipsArchive(AsRead(tree, archive, pending), home, CollectFiles(patterns, glob), archive, hash);
  }

  /** The loop records a readable collected archive but adds no member for
      it. */
  lemma PackSkipsArchive(tree: Tree, home: Path, files: seq<Path>, archive: Path, hash: Hasher)
    requires forall f :: f in files ==> Within(home, f)
    requires archive in files && Readable(tree, archive)
    ensures var k := Pack(tree, home, files, archive, hash);
      && (exists e :: e in k.entries && home + e.path == archive
            && e.sha256 == hash(tree[archive].data) && e.size == |tree[archive].data|)
      && (forall m :: m in k.members ==> home + m.name != archive)
  {
    var k := Pack(tree, home, files, archive, hash);
    PackComplete(tree, home, files, archive, hash);
    var rel := archive[|home|..];
    assert rel in EntryPaths(k.entries);
    var j :| 0 <= j < |k.entries| && EntryPaths(k.entries)[j] == rel;
    var e := k.entries[j];
    assert e in k.entries;
    WithinSplit(home, archive);
    assert home + e.path == archive;
    var kept := Kept(k.entries, home, archive);
    forall m | m in k.members
      ensures home + m.name != archive
    {
      var i :| 0 <= i < |k.members| && k.members[i] == m;
      assert kept[i] in kept;
    }
  }

  lemma PackMembersMatch(tree: Tree, home: Path, files: seq<Path>, archive: Path, hash: Hasher)
    requires forall f :: f in files ==> Within(home, f)
    ensures MembersMatch(Pack(tree, home, files, archive, hash), tree, home, archive)
  {
  }

  /** The packing loop reads the same whether or not the snapshots directory
      had to be created first. */
  lemma PackAfterMakeDirs(tree: Tree, dir: Path, archive: Path, pending: Bytes, home: Path, files: seq<Path>, hash: Hasher)
    requires MakeDirs(tree, dir).Success?
    requires forall f :: f in files ==> Within(home, f)
    ensures Pack(AsRead(MakeDirs(tree, dir).value, archive, pending), home, files, archive, hash) == Pack(AsRead(tree, archive, pending), home, files, archive, hash)
  {
    OpenedAgrees(tree, dir, archive, pending);
    PackFrame(AsRead(MakeDirs(tree, dir).value, archive, pending), AsRead(tree, archive, pending), home, files, archive, hash);
  }

  /** Creating the snapshots directory does not change what the packing loop
      reads once the archive is truncated. */
  lemma OpenedAgrees(tree: Tree, dir: Path, archive: Path, pending: Bytes)
    requires MakeDirs(tree, dir).Success?
    ensures var t2 := AsRead(MakeDirs(tree, dir).value, archive, pending);
      forall f :: (Readable(t2, f) <==> Readable(AsRead(tree, archive, pending), f)) && (Readable(t2, f) ==> t2[f] == AsRead(tree, archive, pending)[f])
  {
    var t1 := MakeDirs(tree, dir).value;
    var t2 := AsRead(t1, archive, pending);
    forall f
      ensures (Readable(t2, f) <==> Readable(AsRead(tree, archive, pending), f)) && (Readable(t2, f) ==> t2[f] == AsRead(tree, archive, pending)[f])
    {
      if f != archive && f in t1 && f !in tree {
        assert t1[f] == Dir;
      }
    }
  }

  /** An entry of `~/.blackroad/snapshots` that `glob("*.tar.gz")` yields: a
      direct child whose name ends in `.tar.gz`. */
  predicate ArchiveEntry(tree: Tree, dir: Path, p: Path) {
    p in tree && tree[p].File? && |p| == |dir| + 1 && p[..|dir|] == dir && EndsWith(Name(p), ".tar.gz")
  }

  /** `sorted(ARCHIVE_DIR.glob("*.tar.gz"), reverse=True)`. */
  function ArchivesListed(tree: Tree, dir: Path): (r: seq<Path>)
    ensures StrictlyDecreasing(r)
    ensures forall p :: p in r <==> ArchiveEntry(tree, dir, p)
  {
    var sorted := SortedSeq(set p | p in tree && tree[p].File? && |p| == |dir| + 1 && p[..|dir|] == dir && EndsWith(Name(p), ".tar.gz"));
    ReversedDecreasing(sorted);
    Reversed(sorted)
  }

  /** One dict of the list `list_snapshots` returns: the archive's name and
      size, and the sidecar's fields. */
  datatype Listing = Listing(file: string, size: nat, meta: PackManifest)

  /** The placeholder used when the sidecar is not found. */
  function Fallback(size: nat): PackManifest {
    PackManifest("unknown", None, [], size)
  }

  /** `f"{f.stem}-manifest.json"`, the lookup as written. */
  function AsWrittenLookup(name: string): string {
    Stem(name) + "-manifest.json"
  }

  /** The lookup that finds the sidecar `create_snapshot` writes: the archive
      name without `.tar.gz`. */
  function CorrectedLookup(name: string): string {
    if EndsWith(name, ".tar.gz") then name[..|name| - 7] + "-manifest.json" else AsWrittenLookup(name)
  }

  /** What `list_snapshots` reports for the archive `f`, looking up its sidecar
      as `lookup` says: the stored sidecar when it exists, otherwise the
      placeholder with the archive's size. */
  ghost predicate ListedAs(l: Listing, tree: Tree, dir: Path, f: Path, lookup: string -> string, decode: Bytes -> Option<PackManifest>) {
    var mp := dir + [lookup(Name(f))];
    && f in tree && tree[f].File?
    && l.file == Name(f)
    && l.size == |tree[f].data|
    && (mp in tree ==> Readable(tree, mp) && decode(tree[mp].data) == Some(l.meta))
    && (mp !in tree ==> l.meta == Fallback(|tree[f].data|))
  }

  /** The sidecar of `f` can be loaded, or is absent. */
  predicate SidecarLoads(tree: Tree, dir: Path, f: Path, lookup: string -> string, decode: Bytes -> Option<PackManifest>) {
    var mp := dir + [lookup(Name(f))];
    mp in tree ==> Readable(tree, mp) && decode(tree[mp].data).Some?
  }

  /** The sidecar at `mp` decoded, or the placeholder for an archive of `size`
      bytes when there is none (src/snapshot.py:91-95). */
  function LoadMeta(tree: Tree, mp: Path, size: nat, decode: Bytes -> Option<PackManifest>): (r: Result<PackManifest>)
    ensures r.Success? <==> (mp in tree ==> Readable(tree, mp) && decode(tree[mp].data).Some?)
    ensures r.Success? && mp in tree ==> decode(tree[mp].data) == Some(r.value)
    ensures r.Success? && mp !in tree ==> r.value == Fallback(size)
    ensures r.Failure? ==> r.error.path == mp
  {
    if mp in tree then
      var text :- ReadFile(tree, mp);
      match decode(text)
      case Some(m) => Success(m)
      case None => Failure(Malformed(mp))
    else Success(Fallback(size))
  }

  /** The loop of src/snapshot.py:90-96 over the archives `fs`. Reading a
      sidecar that is a directory or unreadable raises, and so does decoding
      one that is not a manifest. */
  function ListEach(tree: Tree, dir: Path, fs: seq<Path>, lookup: string -> string, decode: Bytes -> Option<PackManifest>): (r: Result<seq<Listing>>)
    requires forall f :: f in fs ==> f in tree && tree[f].File?
    ensures r.Success? <==> forall f :: f in fs ==> SidecarLoads(tree, dir, f, lookup, decode)
    ensures r.Success? ==> |r.value| == |fs|
    ensures r.Success? ==> forall i :: 0 <= i < |fs| ==> ListedAs(r.value[i], tree, dir, fs[i], lookup, decode)
    decreases |fs|
  {
    if fs == [] then Success([])
    else
      var f := fs[0];
      assert forall x :: x in fs <==> x == f || x in fs[1..] by {
        assert fs == [f] + fs[1..];
      }
      var mp := dir + [lookup(Name(f))];
      var size := |tree[f].data|;
      assert SidecarLoads(tree, dir, f, lookup, decode) <==> LoadMeta(tree, mp, size, decode).Success?;
      var meta :- LoadMeta(tree, mp, size, decode);
      var rest :- ListEach(tree, dir, fs[1..], lookup, decode);
      var r := [Listing(Name(f), size, meta)] + rest;
      assert forall i :: 0 < i < |fs| ==> r[i] == rest[i - 1] && fs[i] == fs[1..][i - 1];
      Success(r)
  }

  /** `list_snapshots` (src/snapshot.py:86-97) with the sidecar lookup as a
      parameter. */
  function ListSnapshotsWith(tree: Tree, home: Path, lookup: string -> string, decode: Bytes -> Option<PackManifest>): (r: Result<seq<Listing>>)
    ensures SnapshotsDir(home) !in tree ==> r == Success([])
    ensures SnapshotsDir(home) in tree ==>
      (r.Success? <==> forall f :: ArchiveEntry(tree, SnapshotsDir(home), f) ==> SidecarLoads(tree, SnapshotsDir(home), f, lookup, decode))
    ensures SnapshotsDir(home) in tree && r.Success? ==>
      var fs := ArchivesListed(tree, SnapshotsDir(home));
      |r.value| == |fs| && forall i :: 0 <= i < |fs| ==> ListedAs(r.value[i], tree, SnapshotsDir(home), fs[i], lookup, decode)
  {
    var dir := SnapshotsDir(home);
    if dir !in tree then Success([])
    else
      var fs := ArchivesListed(tree, dir);
      assert forall f :: f in fs <==> ArchiveEntry(tree, dir, f);
      ListEach(tree, dir, fs, lookup, decode)
  }

  /** `list_snapshots` as written: the archives in reverse name order, each with
      the sidecar found under its stem plus `-manifest.json`, or the
      placeholder when there is none; it raises when such a file exists but
      cannot be read or decoded. */
  function ListSnapshots(tree: Tree, home: Path, decode: Bytes -> Option<PackManifest>): (r: Result<seq<Listing>>)
    ensures SnapshotsDir(home) !in tree ==> r == Success([])
    ensures SnapshotsDir(home) in tree ==>
      (r.Success? <==> forall f :: ArchiveEntry(tree, SnapshotsDir(home), f) ==> SidecarLoads(tree, SnapshotsDir(home), f, AsWrittenLookup, decode))
    ensures SnapshotsDir(home) in tree && r.Success? ==>
      var fs := ArchivesListed(tree, SnapshotsDir(home));
      |r.value| == |fs| && forall i :: 0 <= i < |fs| ==> ListedAs(r.value[i], tree, SnapshotsDir(home), fs[i], AsWrittenLookup, decode)
  {
    ListSnapshotsWith(tree, home, AsWrittenLookup, decode)
  }

  /** `list_snapshots` with the sidecar lookup corrected: each archive is
      reported with the sidecar named after it without `.tar.gz`. */
  function ListSnapshotsCorrected(tree: Tree, home: Path, decode: Bytes -> Option<PackManifest>): (r: Result<seq<Listing>>)
    ensures SnapshotsDir(home) !in tree ==> r == Success([])
    ensures SnapshotsDir(home) in tree ==>
      (r.Success? <==> forall f :: ArchiveEntry(tree, SnapshotsDir(home), f) ==> SidecarLoads(tree, SnapshotsDir(home), f, CorrectedLookup, decode))
    ensures SnapshotsDir(home) in tree && r.Success? ==>
      var fs := ArchivesListed(tree, SnapshotsDir(home));
      |r.value| == |fs| && forall i :: 0 <= i < |fs| ==> ListedAs(r.value[i], tree, SnapshotsDir(home), fs[i], CorrectedLookup, decode)
  {
    ListSnapshotsWith(tree, home, CorrectedLookup, decode)
  }

  /** `Path(name).stem` of an archive name keeps `.tar`: only the last suffix
      is removed. */
  lemma StemKeepsTar(ts: string, title: string)
    ensures Stem(ArchiveName(ts, title)) == SnapName(ts, title) + ".tar"
  {
    var n := ArchiveName(ts, title);
    var s := SnapName(ts, title);
    assert |n| == |s| + 7;
    assert n[|s| + 4] == '.' && n[|s| + 5] == 'g' && n[|s| + 6] == 'z';
    assert RFind(n, '.') == |s| + 4;
    assert n[..|s| + 4] == s + ".tar";
  }

  /** The lookup as written never names the sidecar `create_snapshot` wrote. */
  lemma AsWrittenLookupMisses(ts: string, title: string)
    ensures AsWrittenLookup(ArchiveName(ts, title)) == SnapName(ts, title) + ".tar-manifest.json"
    ensures AsWrittenLookup(ArchiveName(ts, title)) != SidecarName(ts, title)
  {
    StemKeepsTar(ts, title);
  }

  /** The corrected lookup names exactly that sidecar. */
  lemma CorrectedLookupFinds(ts: string, title: string)
    ensures CorrectedLookup(ArchiveName(ts, title)) == SidecarName(ts, title)
  {
    var n := ArchiveName(ts, title);
    assert n[..|n| - 7] == SnapName(ts, title);
  }

  /** Once `create_snapshot` has opened the archive, the archive is among the
      archives listed afterwards, even when the sidecar write then raised. */
  lemma CreatedArchiveListed(
    tree: Tree, home: Path, title: string, ts: string, createdAt: string,
    patterns: Option<seq<string>>, glob: string -> set<Path>, hash: Hasher, pending: Bytes,
    tar: seq<Member> -> Bytes, encode: PackManifest -> Bytes)
    requires forall pat, p :: p in glob(pat) ==> Within(home, p)
    requires !Blocked(tree, SnapshotsDir(home)) && Writable(tree, SnapshotsDir(home) + [ArchiveName(ts, title)])
    ensures var t' := CreateSnapshot(tree, home, title, ts, createdAt, patterns, glob, hash, pending, tar, encode).tree;
      SnapshotsDir(home) in t' && ArchiveEntry(t', SnapshotsDir(home), SnapshotsDir(home) + [ArchiveName(ts, title)])
  {
    var dir := SnapshotsDir(home);
    var archive := dir + [ArchiveName(ts, title)];
    assert archive[..|dir|] == dir;
    assert Name(archive) == ArchiveName(ts, title);
    var n := ArchiveName(ts, title);
    assert n[|n| - 7..] == ".tar.gz";
  }

  /** As written, listing after `create_snapshot` has opened the archive
      reports the new archive with the placeholder: label "unknown", no
      files, and the archive's own size as `total_bytes`, whatever was packed
      and whether or not the sidecar was written, unless a file named after
      the wrong lookup already existed. */
  lemma CreatedListedAsUnknown(
    tree: Tree, home: Path, title: string, ts: string, createdAt: string,
    patterns: Option<seq<string>>, glob: string -> set<Path>, hash: Hasher, pending: Bytes,
    tar: seq<Member> -> Bytes, encode: PackManifest -> Bytes, decode: Bytes -> Option<PackManifest>)
    requires forall pat, p :: p in glob(pat) ==> Within(home, p)
    requires !Blocked(tree, SnapshotsDir(home)) && Writable(tree, SnapshotsDir(home) + [ArchiveName(ts, title)])
    requires SnapshotsDir(home) + [SnapName(ts, title) + ".tar-manifest.json"] !in tree
    ensures var t' := CreateSnapshot(tree, home, title, ts, createdAt, patterns, glob, hash, pending, tar, encode).tree;
      var archive := SnapshotsDir(home) + [ArchiveName(ts, title)];
      var k := Pack(AsRead(tree, archive, pending), home, CollectFiles(patterns, glob), archive, hash);
      var l := ListSnapshots(t', home, decode);
      l.Success? ==> exists i :: (0 <= i < |l.value| && l.value[i].file == ArchiveName(ts, title)
        && l.value[i].meta == Fallback(|tar(k.members)|))
  {
    var t' := CreateSnapshot(tree, home, title, ts, createdAt, patterns, glob, hash, pending, tar, encode).tree;
    var dir := SnapshotsDir(home);
    var archive := dir + [ArchiveName(ts, title)];
    CreatedArchiveListed(tree, home, title, ts, createdAt, patterns, glob, hash, pending, tar, encode);
    var fs := ArchivesListed(t', dir);
    var i :| 0 <= i < |fs| && fs[i] == archive;
    AsWrittenLookupMisses(ts, title);
    var mp := dir + [AsWrittenLookup(Name(archive))];
    assert Name(archive) == ArchiveName(ts, title);
    assert mp == dir + [SnapName(ts, title) + ".tar-manifest.json"];
    OutputsDistinct(dir, ts, title);
    assert mp != archive && mp != dir + [SidecarName(ts, title)] by {
      assert |SnapName(ts, title) + ".tar-manifest.json"| != |ArchiveName(ts, title)|;
      assert mp[|dir|] != archive[|dir|];
    }
    var l := ListSnapshots(t', home, decode);
    if l.Success? {
      assert ListedAs(l.value[i], t', dir, archive, AsWrittenLookup, decode);
    }
  }

  /** With the corrected lookup, listing right after `create_snapshot`
      reports the new archive with exactly the manifest it wrote, provided the
      sidecar encoding decodes back to the manifest. */
  lemma CreatedListedWithManifest(
    tree: Tree, home: Path, title: string, ts: string, createdAt: string,
    patterns: Option<seq<string>>, glob: string -> set<Path>, hash: Hasher, pending: Bytes,
    tar: seq<Member> -> Bytes, encode: PackManifest -> Bytes, decode: Bytes -> Option<PackManifest>)
    requires forall pat, p :: p in glob(pat) ==> Within(home, p)
    requires CreateSnapshot(tree, home, title, ts, createdAt, patterns, glob, hash, pending, tar, encode).result.Success?
    requires forall m :: decode(encode(m)) == Some(m)
    ensures var r := CreateSnapshot(tree, home, title, ts, createdAt, patterns, glob, hash, pending, tar, encode);
      var k := r.result.value.1;
      var l := ListSnapshotsCorrected(r.tree, home, decode);
      l.Success? ==> exists i :: (0 <= i < |l.value| && l.value[i].file == ArchiveName(ts, title)
        && l.value[i].meta == PackManifest(title, Some(createdAt), k.entries, k.totalBytes))
  {
    var r := CreateSnapshot(tree, home, title, ts, createdAt, patterns, glob, hash, pending, tar, encode);
    var t' := r.tree;
    var dir := SnapshotsDir(home);
    var archive := dir + [ArchiveName(ts, title)];
    CreatedArchiveListed(tree, home, title, ts, createdAt, patterns, glob, hash, pending, tar, encode);
    var fs := ArchivesListed(t', dir);
    var i :| 0 <= i < |fs| && fs[i] == archive;
    CorrectedLookupFinds(ts, title);
    assert Name(archive) == ArchiveName(ts, title);
    var l := ListSnapshotsCorrected(t', home, decode);
    if l.Success? {
      assert ListedAs(l.value[i], t', dir, archive, CorrectedLookup, decode);
    }
  }
}
