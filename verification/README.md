# Snapshot service, modelled in Dafny

A Dafny model of the four pieces of logic in the BlackRoad archive snapshot
service, each one a pure transition over immutable state.

- **Repository snapshot tool** (`snapshot.py`) — modules `StreamHash`, `DirSnapshot` and `ManifestStore`:
  - hashes files in 64 KiB chunks;
  - builds a manifest of a directory tree: relative path, then digest and size, plus totals;
  - checks a live tree against a manifest, reporting MISSING, CHANGED and ADDED;
  - names the saved manifest files and lists them in reverse name order: by label, then by timestamp, both descending.
- **System snapshot packager** (`src/snapshot.py`) — module `ArchivePackager`:
  - collects files under `~/.blackroad` by glob patterns;
  - packs the readable ones into a tar archive and writes a JSON sidecar manifest next to it;
  - lists the archives with their sidecars.
- **Version catalog** (`src/catalog.py`) — modules `VersionCatalog` and `CatalogListing`:
  - one table of deploy records, each `active`, `superseded` or `rolled-back`;
  - operations: deploys, the latest active row, rollbacks, and the listing of active services.
- **Snapshot auditor** (`src/auditor.py`) — module `AuditLedger`:
  - a table of registered snapshots and an append-only audit log;
  - registration, verification of data against the stored digest, and a report.

Shared vocabulary lives in `Base`: bytes, digests, paths as component
sequences, and `Result`, which stands for the exceptions. Python's path and
string order is in `PathOrder`. The abstract filesystem (`FileTree`) is a
finite map from absolute path to node, either a directory or a file with its
bytes and a flag for whether opening it raises `PermissionError`. An
operation of several filesystem steps returns an `Outcome`: the tree as it
stands afterwards together with the result, so a step that raises leaves the
writes before it in place.

SHA-256 (FIPS 180-4) is an uninterpreted, deterministic parameter
`hash: Bytes -> Digest`, so every property about digests is stated as equality
of `hash` values. The following are parameters too:
- glob matching;
- the tar writer;
- JSON encoding and decoding;
- clock readings.

In the catalog, row ids and `deployed_at` both come from one logical counter,
so a later deploy has a strictly later deploy time.

Two behaviours of the code are worth stating up front:
- Rollback is not one-step. Each rollback restores the newest superseded row, so repeated rollbacks walk back through the whole history (`VersionCatalog.WalkBack`). Only a history of two deploys makes the second rollback fail (`VersionCatalog.RollbacksAfterDeploys`).
- The `.git` filter of `snapshot.py` tests every component of the full path, not only the part below the target. A target that itself lies inside a `.git` directory therefore yields an empty manifest (`DirSnapshot.GitAncestorExcludesAll`).

## Model

| member | source | states |
|---|---|---|
| StreamHash.Sha256File | snapshot.py:19-24 | The walrus loop feeds the hasher non-empty chunks of at most 65536 bytes, all full but the last. Together they are exactly the file's contents, so the digest is the hash of the contents. |
| StreamHash.IterChunksCover | src/snapshot.py:22 | The chunks `iter(..., b"")` yields before the empty sentinel, read from an offset, join up to exactly the rest of the file. |
| StreamHash.FeedAllAppends | src/snapshot.py:22-23 | Feeding a list of chunks to `update` extends what the hasher has seen by their concatenation. |
| StreamHash.Sha256FileIter | src/snapshot.py:19-24 | The sentinel-driven loop returns the hash of the file's whole contents. |
| StreamHash.FileDigest | snapshot.py:19-24 | `sha256_file` succeeds exactly on a readable regular file, with the hash of its bytes; otherwise it raises the exception `open` raises (missing, directory, permission). |
| FileTree.MakeDirs | snapshot.py:61 | `mkdir(parents=True, exist_ok=True)` fails exactly when a regular file sits on the way; directories carry no permissions in the model. On success every leading directory exists, existing entries are unchanged, and only directories are added. |
| PathOrder.SortedSeq | snapshot.py:45 | `sorted` of a set of paths lists each element exactly once, in strictly increasing path order. |
| DirSnapshot.Walk | snapshot.py:45-54 | The loop succeeds exactly when every tracked file on the walk is readable; otherwise it fails on an unreadable tracked file. On success it appends exactly the reference entries for the walk and keeps `total_size` and `file_count` equal to the sum of sizes and the number of entries. |
| DirSnapshot.ContributedSound | snapshot.py:45-52 | Every entry stands for a walked regular file with no `.git` component, and carries that file's digest and size. |
| DirSnapshot.ContributedComplete | snapshot.py:45-52 | Every walked tracked file has an entry under its path relative to the target. |
| DirSnapshot.ContributedSorted | snapshot.py:45-49 | Walking paths in increasing order yields entries in strictly increasing relative-path order, hence no duplicate keys. |
| DirSnapshot.SnapshotDirectory | snapshot.py:27-56 | A missing target raises `FileNotFoundError`. Otherwise the call fails exactly when some tracked file is unreadable. The label is the given one, or the target's name when it is empty. The manifest lists exactly the regular files below the target with no `.git` component, keyed by relative path, each with its digest and size, and `total_size`/`file_count` agree with the entries. |
| DirSnapshot.TwoFileExample | snapshot.py:41-54 | `a.txt` of 5 bytes and `b/c.txt` of 10 bytes give entries `a.txt` then `b/c.txt`, a file count of 2 and a total of 15. |
| DirSnapshot.GitAncestorExcludesAll | snapshot.py:46 | A target inside a `.git` directory gets an empty manifest with zero totals. |
| DirSnapshot.CheckEntry | snapshot.py:78-84 | An absent path is reported MISSING without being hashed. A present path is hashed: if it is a directory or unreadable, the call raises; otherwise it is reported CHANGED exactly when its digest differs. |
| DirSnapshot.CheckRecorded | snapshot.py:77-84 | The first loop reports at most one difference per manifest entry, and never tags a path ADDED. |
| DirSnapshot.CheckRecordedSucceeds | snapshot.py:77-84 | The first loop raises exactly when some recorded path that still exists cannot be hashed. |
| DirSnapshot.CheckRecordedTags | snapshot.py:77-84 | The first loop tags a path MISSING exactly when it is recorded and absent, and CHANGED exactly when a recorded digest no longer matches. It never tags ADDED. |
| DirSnapshot.CheckRecordedInOrder | snapshot.py:77 | The first loop reports in manifest order: its paths are a subsequence of the manifest's. |
| DirSnapshot.FindAdded | snapshot.py:87-91 | The second loop reports ADDED exactly for the tracked live files whose relative path the manifest lacks. |
| DirSnapshot.FindAddedSorted | snapshot.py:87 | Additions come in strictly increasing path order. |
| DirSnapshot.VerifySnapshot | snapshot.py:76-93 | The call raises exactly when a recorded path that exists cannot be hashed. The flag is true exactly when the difference list is empty. MISSING, CHANGED and ADDED are each characterised as if-and-only-if. The list is the manifest-order part followed by the sorted additions. |
| DirSnapshot.VerifyFreshManifest | snapshot.py:45-93 | Verifying a tree against the manifest just built from it gives `(true, [])`. |
| DirSnapshot.NoTwoTags | snapshot.py:77-91 | No path is given two different tags. |
| DirSnapshot.ModifiedFileReported | snapshot.py:82-84 | Rewriting one tracked file with contents of another digest reports exactly that path CHANGED, and nothing else. |
| DirSnapshot.DeletedFileReported | snapshot.py:79-81 | Deleting one tracked file reports exactly that path MISSING, and nothing else. |
| DirSnapshot.CreatedFileReported | snapshot.py:87-91 | Creating one new file outside `.git` reports exactly that path ADDED, and nothing else. |
| ManifestStore.SafeStamp | snapshot.py:62 | The file-name timestamp has the same length, contains no `:` and no `.`, holds `-` where those were, and keeps every other character. |
| ManifestStore.SaveName | snapshot.py:63 | The saved name matches the glob `snapshot-*.json`, carries the label right after the prefix, and carries the cleaned timestamp right before the suffix. |
| ManifestStore.SaveSnapshot | snapshot.py:59-65 | A regular file in the way of the archive directory raises and changes nothing. Otherwise the directory is created, and it stays even when the write then raises. The call succeeds exactly when the target file is writable, with one flag for reading and writing, writing the encoded manifest under the saved name. Every other path is left as it was, and a failed write changes no existing path. |
| ManifestStore.ListSaved | snapshot.py:96-99 | With no archive directory the list is empty. Otherwise it holds exactly the directory's entries matching `snapshot-*.json`, in strictly decreasing path order. |
| ManifestStore.SavedIsListed | snapshot.py:63-99 | A manifest that was saved is listed afterwards. |
| ManifestStore.LaterListedFirst | snapshot.py:62-99 | Of two manifests with the same label and timestamps of equal length, the later timestamp is listed first. |
| ArchivePackager.EffectivePatterns | src/snapshot.py:28 | An absent or empty pattern list means the four default patterns; any other list is used as given. |
| ArchivePackager.Union | src/snapshot.py:30-31 | A path is collected exactly when some pattern matches it. |
| ArchivePackager.CollectFiles | src/snapshot.py:27-32 | The collected files are strictly increasing, hence duplicate-free, and are exactly the union of the effective patterns' matches. |
| ArchivePackager.Pack | src/snapshot.py:51-61 | Every entry is a readable file, given by its path relative to home, with the digest and length of its bytes. Member `i` is the `i`-th entry that is not the archive being written: it has that entry's path and the file's bytes, because `TarFile.add` skips the archive itself while its entry is still appended. `total_bytes` is the sum of the entry sizes. |
| ArchivePackager.PackSound | src/snapshot.py:51-57 | Every entry comes from a collected file. |
| ArchivePackager.PackComplete | src/snapshot.py:51-61 | Every readable collected file has an entry under its path relative to home; the others are skipped. |
| ArchivePackager.PackSorted | src/snapshot.py:51-57 | Entries follow the collected order, which is strictly increasing. |
| ArchivePackager.PackSkipsArchive | src/snapshot.py:51-58 | A readable collected archive gets an entry with its digest and size, but no member carries its name. |
| ArchivePackager.PackRecords | src/snapshot.py:51-61 | The entries are exactly the readable collected files, each with its digest and size, in increasing path order. |
| ArchivePackager.PackFrame | src/snapshot.py:51-61 | The loop depends only on whether each collected file is readable and on its bytes. |
| ArchivePackager.OutputsDistinct | src/snapshot.py:39-64 | The archive and the sidecar are distinct direct children of the snapshots directory. |
| ArchivePackager.PackAndWrite | src/snapshot.py:50-65 | Once the directory exists, the call succeeds exactly when both the archive and the sidecar are writable, where a new path always is. An archive that cannot be opened leaves the tree as it was. Once opened, the archive holds the tar of the members packed from the tree, even when the sidecar write then raises. On success the sidecar holds the encoded manifest; on failure it is untouched. Nothing else changes. |
| ArchivePackager.CreateSnapshot | src/snapshot.py:35-67 | A regular file in the way of the snapshots directory raises and changes nothing. Otherwise the directory is created and stays, and the call succeeds exactly when both outputs are writable, where a new path always is. It returns the path `blackroad-snap-{ts}-{label}.tar.gz`. Once the archive can be opened, it holds the files packed from the tree as it stood, with the archive itself holding the bytes it had while being written, even when the sidecar write raises. On success the sidecar `blackroad-snap-{ts}-{label}-manifest.json` holds label, `created_at`, files and `total_bytes`; on failure it is untouched. Every other existing path is unchanged. |
| ArchivePackager.CreateSnapshotRecords | src/snapshot.py:41-61 | The manifest records every readable collected file, in path order, with the digest and size the loop read, and `total_bytes` is their sum. |
| ArchivePackager.CreateSnapshotMembers | src/snapshot.py:50-58 | The archive holds one member per manifest entry other than the archive's own, in order, named by the entry's path and holding that file's bytes. |
| ArchivePackager.SelfCollectedArchive | src/snapshot.py:41-58 | When a pattern collects the archive being written, the manifest records it with the digest and size of what it held during the loop, and the archive has no member of that name. |
| ArchivePackager.ArchivesListed | src/snapshot.py:90 | The archives listed are exactly the regular files of the snapshots directory ending in `.tar.gz`, in strictly decreasing order. |
| ArchivePackager.LoadMeta | src/snapshot.py:91-95 | An existing sidecar is read and decoded, raising if it is unreadable or malformed; an absent one gives the placeholder with the archive's size. |
| ArchivePackager.ListEach | src/snapshot.py:90-96 | The loop succeeds exactly when every archive's sidecar loads or is absent, and then lists each archive, in order, with its name, its size and its sidecar or the placeholder. |
| ArchivePackager.ListSnapshots | src/snapshot.py:86-97 | As written: with no snapshots directory the list is empty. Otherwise it has one listing per archive, in reverse name order (the timestamp leads the name), with the sidecar looked up under the archive's stem plus `-manifest.json`, or the placeholder when that file is absent. It raises exactly when such a file exists but cannot be read or decoded. |
| ArchivePackager.ListSnapshotsCorrected | src/snapshot.py:86-97 | The corrected lookup of the Findings row: with no snapshots directory the list is empty. Otherwise it has one listing per archive, with the sidecar named after the archive without `.tar.gz`, or the placeholder when that file is absent. It raises exactly when that file exists but cannot be read or decoded. |
| ArchivePackager.ListSnapshotsWith | src/snapshot.py:86-97 | With no snapshots directory the list is empty. Otherwise it has one listing per archive, in reverse name order (the timestamp leads the name), with the sidecar found by the given lookup. |
| ArchivePackager.StemKeepsTar | src/snapshot.py:91 | The stem of `X.tar.gz` is `X.tar`. |
| ArchivePackager.AsWrittenLookupMisses | src/snapshot.py:91 | The lookup as written names `X.tar-manifest.json`, never the sidecar `X-manifest.json`. |
| ArchivePackager.CorrectedLookupFinds | src/snapshot.py:64 | The corrected lookup names exactly the sidecar the packager wrote. |
| ArchivePackager.CreatedArchiveListed | src/snapshot.py:39-90 | Once the archive has been opened, it is among those listed afterwards, even when the sidecar write raised. |
| ArchivePackager.CreatedListedAsUnknown | src/snapshot.py:91-95 | As written, listing after a snapshot, whether or not its sidecar write raised, shows the new archive with the placeholder: label `unknown`, no files, and the archive's own size as `total_bytes`. |
| ArchivePackager.CreatedListedWithManifest | src/snapshot.py:64-96 | With the corrected lookup, and an encoding that decodes back, the new archive is listed with exactly the manifest written for it. |
| VersionCatalog.Newest | src/catalog.py:66-70 | `ORDER BY deployed_at DESC LIMIT 1` gives a row of the pair with the status, deployed no earlier than any other such row, or None exactly when there is no such row. |
| VersionCatalog.GetLatest | src/catalog.py:51-57 | The result is an active row of the pair, or None exactly when the pair has no active row. |
| VersionCatalog.LatestIsTheActiveRow | src/catalog.py:51-57 | In a valid catalog, `get_latest` returns the pair's unique active row. |
| VersionCatalog.Without | src/catalog.py:41-46 | The delete half of `INSERT OR REPLACE` drops exactly the rows with the new (service, version, environment). |
| VersionCatalog.SupersedeKeeps | src/catalog.py:37-40 | Superseding changes statuses only, leaves the pair without an active row, and keeps the table's constraints. |
| VersionCatalog.RecordDeploy | src/catalog.py:33-49 | A deploy returns the new row's id, which is the table's next id. The new row is last, active, for the given service, version and environment, with the given commit and changelog, deployed by `blackroad-ci`. The table grows by at most that one row. |
| VersionCatalog.RecordDeployEffect | src/catalog.py:33-49 | After a deploy, the new row is the pair's only active row and the only row of its triple. Rows of other pairs are untouched. Every other row of the pair survives, superseded if it was active. Nothing else is in the table. |
| VersionCatalog.RecordDeployValid | src/catalog.py:25-46 | A deploy keeps ids increasing, one row per (service, version, environment) and at most one active row per pair. |
| VersionCatalog.DeployedIsLatest | src/catalog.py:37-46 | After a deploy, `get_latest` returns the new row. |
| VersionCatalog.FreshDeploySupersedes | src/catalog.py:37-46 | Deploying a version the pair never had adds the former active row, if any, to the pair's superseded rows and removes none. |
| VersionCatalog.Rollback | src/catalog.py:59-80 | The call returns None, changing nothing, exactly when the pair has no active or no superseded row. Otherwise it returns the pair's newest superseded row. Only statuses change. |
| VersionCatalog.RollbackAt | src/catalog.py:66-77 | A successful rollback changes exactly two positions: the returned row's becomes active and the pair's only active row's becomes rolled-back. |
| VersionCatalog.RollbackEffect | src/catalog.py:75-77 | In a valid catalog, every row after a rollback is the returned row made active, the pair's active row made rolled-back, or unchanged. |
| VersionCatalog.RollbackValid | src/catalog.py:59-80 | A rollback keeps the table's constraints and at most one active row per pair. |
| VersionCatalog.RollbackShrinks | src/catalog.py:66-80 | A successful rollback uses up exactly the returned superseded row, which becomes the pair's latest. |
| VersionCatalog.RollbackSwaps | src/catalog.py:66-80 | With active row `a` and newest superseded row `i`, a rollback returns row `i`, swaps the two statuses and makes row `i` the latest. |
| VersionCatalog.TwoDeploys | src/catalog.py:37-46 | Two deploys of different versions leave the first superseded, as the newest superseded row, and the second active. |
| VersionCatalog.DeployDeployRollback | src/catalog.py:33-80 | Deploy `v1`, deploy `v2`, roll back: `v1` is active again, `v2` is rolled-back, and the `v1` row is returned as it stood. |
| VersionCatalog.WalkBack | src/catalog.py:59-80 | With an active row and `k` superseded rows, `k` successive rollbacks succeed, each returning a row deployed earlier than the last, and the next one fails. |
| VersionCatalog.WalkBackOlder | src/catalog.py:66-70 | A second rollback returns a row deployed strictly earlier than the first rollback's. |
| VersionCatalog.DeployHistory | src/catalog.py:33-49 | After `n` distinct deploys to a fresh pair, the pair has one active row and `n - 1` superseded rows, for those versions only. |
| VersionCatalog.RollbacksAfterDeploys | src/catalog.py:59-80 | After `n` distinct deploys, `n - 1` rollbacks succeed, newest first, and the next fails; after two deploys the second rollback fails. |
| CatalogListing.ActiveViews | src/catalog.py:84-86 | The listing's rows are exactly the active rows, projected to five columns. |
| CatalogListing.SortViews | src/catalog.py:85 | `ORDER BY service, environment` yields a permutation, sorted by (service, environment). |
| CatalogListing.ListServices | src/catalog.py:82-87 | `list_services` is a permutation of the active rows' views, sorted by (service, environment). |
| CatalogListing.ActiveKeysDistinct | src/catalog.py:85 | With at most one active row per pair, no two listed rows share (service, environment). |
| CatalogListing.ListServicesDistinct | src/catalog.py:82-87 | In such a catalog, the listing has one entry per active row, in strictly increasing (service, environment) order. |
| AuditLedger.Log | src/auditor.py:60-65 | `_log` appends exactly one entry stamped with the clock reading, keeping earlier entries and all records. |
| AuditLedger.Register | src/auditor.py:40-47 | After `register`, the record under the id is the snapshot, including its `verified` flag. Every other id's presence and record are unchanged. Exactly one `register`/`ok` entry is appended. |
| AuditLedger.Verify | src/auditor.py:49-58 | An unknown id gives false and no change at all, not even to the log. For a known id, the result is whether the hash of the data equals the stored digest. It is written into `verified` and nothing else of any record changes. Exactly one `verify` entry is appended, `pass` or `FAIL` matching the result. |
| AuditLedger.MakeReport | src/auditor.py:67-74 | `total` is the number of records, `verified` and `unverified` count the two flag values and add up to `total`, and the snapshots list has one row per record and covers every record. |
| AuditLedger.RegisterThenVerify | src/auditor.py:40-58 | Registering a snapshot whose digest is the hash of `b`, then verifying `b`, returns true, marks the record verified and logs exactly the two entries. |
| AuditLedger.VerifyMovesId | src/auditor.py:49-58 | Verifying a known id moves it into the verified set on a match and into the unverified set otherwise, keeping the record count. |
| AuditLedger.RegisterMovesId | src/auditor.py:40-47 | Registering puts the id into the set of its flag. The record count grows by one exactly when the id is new. |
| AuditLedger.VerifyTwice | src/auditor.py:49-58 | Verifying the same data twice gives the same answer and the same records. |

## Left out

- JSON encoding and decoding, tar and gzip writing, glob matching and `rglob` enumeration are parameters or sets. Their formats are not modelled: the sidecar round trip is a hypothesis of `CreatedListedWithManifest`.
- `pin_to_ipfs` (src/snapshot.py:70-83) is a subprocess call with a timeout and is not modelled.
- The `main` and `__main__` blocks are not modelled: printing, argument parsing, seeding and exit codes. This covers snapshot.py:102-146, src/snapshot.py:100-111, src/catalog.py:89-107 and src/auditor.py:76-85.
- src/cli.py is not part of this model: it is argument-parsing glue around a class that the modelled files do not define.
- SQLite is reduced to in-memory tables with each operation applied atomically. Connections, schema creation, commits, database paths and the import-time `mkdir` are not modelled, and neither are crash windows between statements.
- Clock readings are parameters. `deployed_at` is a logical counter shared with the row id, so deploy times are distinct.
- VersionCatalog.Newest: picks the later row on a tie. With real one-second timestamps, `ORDER BY deployed_at DESC LIMIT 1` may tie, and SQLite leaves the choice open.
- The `rollback_version` column is never written by the code and is not modelled.
- CatalogListing.ListServices: keeps table order for rows with equal (service, environment). SQLite leaves that order unspecified.
- AuditLedger.MakeReport: lists the records in an arbitrary order, since `SELECT * FROM snapshots` has no `ORDER BY`.
- Symlinks, and races between the walk and the hashing, are not modelled. Labels containing `/` are not modelled either: they would change the saved file's directory.
- DirSnapshot.SnapshotDirectory: every directory in the model can be listed. `rglob` silently skips the contents of a directory it cannot list, so the source can return a manifest without those files; the claim that the manifest covers every tracked file assumes no such directory lies below the target.
- DirSnapshot.FindAdded: for the same reason, a new file under a directory that cannot be listed is not reported by the source, while the model reports it.
- ArchivePackager.ArchivesListed: counts only regular files, so a directory named `*.tar.gz` is not listed.
- ArchivePackager.ListSnapshotsWith: does not model the `{**meta}` merge, which lets sidecar keys named `file` or `size` override the archive's own fields. `Listing` keeps the two apart.
- DirSnapshot.VerifySnapshot: takes the manifest already loaded. Opening and decoding the manifest file (snapshot.py:73-74) is not modelled.
- The auditor's `Snapshot` keeps `tags` as a list, not its JSON text.
- ArchivePackager.CreateSnapshot: takes the label as an argument, so the default `"manual"` is left to the caller. The two clock readings, `ts` and `created_at`, are independent parameters. So is `pending`, what the archive holds on disk while it is being written: the gzip header and whatever output has been flushed. It matters only when a pattern collects the archive itself, and the model does not derive it from the members written so far.
- FileTree.MakeDirs: every directory in the model is writable, so `mkdir(parents=True, exist_ok=True)` fails only on a regular file in the way. The PermissionError it raises when a missing directory must be created under a parent without write permission is not modelled.
- FileTree.WriteFile: a file has one `accessible` flag, which governs reading and writing alike. A file that is readable but not writable (mode 0444), or writable but not readable, cannot be represented, and every directory accepts new files.
- ManifestStore.SaveSnapshot: "succeeds exactly when the target is writable" holds under that scheme. The PermissionError from an archive directory without write permission, or from a read-only existing target that is still readable, is not modelled.
- ArchivePackager.PackAndWrite: "succeeds exactly when both outputs are writable" holds under the same scheme. `tarfile.open(snap_path, "w:gz")` in a snapshots directory without write permission raises in the source but succeeds in the model.
- ArchivePackager.CreateSnapshot: the success if-and-only-if has the same gap: a snapshots directory, or a parent of it, without write permission is not modelled. `CreatedArchiveListed` and `CreatedListedAsUnknown` take `Writable(tree, archive)` to mean the archive was opened, so they inherit the gap.
- CatalogListing.ListServicesDistinct: requires at most one active row per pair, which every reachable catalog has (`RecordDeployValid`, `RollbackValid`). On a table that breaks it, only the permutation and ordering of `ListServices` hold.

## Findings

| source | as written | input that shows it | evidently intended | confidence | as-written member | corrected member |
|---|---|---|---|---|---|---|
| src/snapshot.py:91 | The sidecar is looked up as `f.stem + "-manifest.json"`. For `X.tar.gz` the stem is `X.tar`, so the lookup names `X.tar-manifest.json`, while `create_snapshot` writes `X-manifest.json` (src/snapshot.py:64). | `create_snapshot("manual")` at `ts = 20260101T000000`, then `list_snapshots()`. The lookup asks for `blackroad-snap-20260101T000000-manual.tar-manifest.json`, misses, and lists the new archive with label `unknown` and no files. | Strip the whole `.tar.gz` suffix, so that each archive is listed with the manifest written for it. | high, not executed | ArchivePackager.CreatedListedAsUnknown | ArchivePackager.CreatedListedWithManifest |
