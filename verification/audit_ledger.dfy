/** The snapshot auditor (src/auditor.py): a table of registered snapshots
    keyed by id, and an append-only audit log of what was done to them.

    The `snapshots` table is a map from id to record, since `id` is its
    primary key; the `audit_log` table is the sequence of its entries in
    insertion order, so an entry's AUTOINCREMENT id is its position plus one.
    The clock reading `datetime.utcnow().isoformat()` is the parameter `at`. */
module AuditLedger {
  import opened Base

  /** A row of the `snapshots` table; `tags` is stored JSON-encoded. */
  datatype Snapshot = Snapshot(
    id: string,
    repo: string,
    version: string,
    sha256: Digest,
    sizeBytes: int,
    tags: seq<string>,
    archivedAt: string,
    verified: bool)

  /** A row of the `audit_log` table. */
  datatype LogEntry = LogEntry(snapshotId: string, action: string, result: string, at: string)

  datatype Ledger = Ledger(records: map<string, Snapshot>, log: seq<LogEntry>)

  const Empty := Ledger(map[], [])

  /** `after` is `before` with `entry` appended and nothing else changed. */
  predicate AppendedOne(before: seq<LogEntry>, after: seq<LogEntry>, entry: LogEntry) {
    |after| == |before| + 1 && after[..|before|] == before && after[|before|] == entry
  }

  /** `_log` (src/auditor.py:60-65): appends one entry stamped `at`. */
  function Log(l: Ledger, snapshotId: string, action: string, result: string, at: string): (r: Ledger)
    ensures r.records == l.records
    ensures AppendedOne(l.log, r.log, LogEntry(snapshotId, action, result, at))
  {
    Ledger(l.records, l.log + [LogEntry(snapshotId, action, result, at)])
  }

  /** `register` (src/auditor.py:40-47): `INSERT OR REPLACE` under `snap.id`,
      keeping the given `verified` flag, then an `ok` entry in the log. */
  function Register(l: Ledger, snap: Snapshot, at: string): (r: Ledger)
    ensures snap.id in r.records && r.records[snap.id] == snap
    ensures forall id :: id != snap.id ==> (id in r.records <==> id in l.records)
    ensures forall id :: id != snap.id && id in l.records ==> r.records[id] == l.records[id]
    ensures AppendedOne(l.log, r.log, LogEntry(snap.id, "register", "ok", at))
  {
    Log(Ledger(l.records[snap.id := snap], l.log), snap.id, "register", "ok", at)
  }

  /** The log result `verify` writes for an outcome. */
  function Outcome(ok: bool): string {
    if ok then "pass" else "FAIL"
  }

  /** `verify` (src/auditor.py:49-58): for an unknown id, false and no change
      at all; otherwise whether `hash(data)` equals the stored digest, written
      into the record's `verified` flag and logged as `pass` or `FAIL`. */
  function Verify(l: Ledger, id: string, data: Bytes, hash: Hasher, at: string): (r: (Ledger, bool))
    ensures id !in l.records ==> r == (l, false)
    ensures id in l.records ==> r.1 == (hash(data) == l.records[id].sha256)
    ensures id in l.records ==> r.0.records.Keys == l.records.Keys
    ensures id in l.records ==>
      r.0.records[id].verified == r.1 && r.0.records[id].(verified := l.records[id].verified) == l.records[id]
    ensures forall k :: k in l.records && k != id ==> k in r.0.records && r.0.records[k] == l.records[k]
    ensures id in l.records ==> AppendedOne(l.log, r.0.log, LogEntry(id, "verify", Outcome(r.1), at))
  {
    if id !in l.records then (l, false)
    else
      var ok := hash(data) == l.records[id].sha256;
      var updated := Ledger(l.records[id := l.records[id].(verified := ok)], l.log);
      (Log(updated, id, "verify", Outcome(ok), at), ok)
  }

  /** The ids whose record has `verified` equal to `flag`. */
  function WithFlag(l: Ledger, flag: bool): (r: set<string>)
    ensures r <= l.records.Keys
  {
    set id | id in l.records && l.records[id].verified == flag
  }

  /** What `report` returns: counts and the rows themselves. */
  datatype Report = Report(total: nat, verified: nat, unverified: nat, snapshots: seq<Snapshot>)

  /** `report` (src/auditor.py:67-74): one pass over the rows in whatever
      order the table yields them, counting rows, verified rows and
      unverified rows, and collecting every row once. */
  method MakeReport(l: Ledger) returns (r: Report)
    ensures r.total == |l.records|
    ensures r.verified == |WithFlag(l, true)| && r.unverified == |WithFlag(l, false)|
    ensures r.verified + r.unverified == r.total
    ensures |r.snapshots| == r.total
    ensures forall id :: id in l.records ==> l.records[id] in r.snapshots
    ensures forall s :: s in r.snapshots ==> s in l.records.Values
  {
    var left := l.records.Keys;
    var total, verified, unverified := 0, 0, 0;
    var rows: seq<Snapshot> := [];
    while left != {}
      invariant left <= l.records.Keys
      invariant total == |l.records.Keys| - |left| == |rows|
      invariant verified == |Seen(l, left, true)| && unverified == |Seen(l, left, false)|
      invariant verified + unverified == total
      invariant forall id :: id in l.records && id !in left ==> l.records[id] in rows
      invariant forall s :: s in rows ==> s in l.records.Values
      decreases |left|
    {
      var id :| id in left;
      var s := l.records[id];
      assert Seen(l, left - {id}, s.verified) == Seen(l, left, s.verified) + {id};
      assert Seen(l, left - {id}, !s.verified) == Seen(l, left, !s.verified);
      if s.verified {
        verified := verified + 1;
      } else {
        unverified := unverified + 1;
      }
      total := total + 1;
      rows := rows + [s];
      left := left - {id};
    }
    assert Seen(l, {}, true) == WithFlag(l, true);
    assert Seen(l, {}, false) == WithFlag(l, false);
    r := Report(total, verified, unverified, rows);
  }

  /** The ids already visited (outside `left`) whose flag is `flag`. */
  function Seen(l: Ledger, left: set<string>, flag: bool): set<string> {
    set id | id in l.records && id !in left && l.records[id].verified == flag
  }

  /** Registering a snapshot whose digest is the hash of `data` and then
      verifying `data` passes, marks the record verified and leaves the two
      entries in the log. */
  lemma RegisterThenVerify(l: Ledger, snap: Snapshot, data: Bytes, hash: Hasher, at1: string, at2: string)
    requires snap.sha256 == hash(data)
    ensures var (l', ok) := Verify(Register(l, snap, at1), snap.id, data, hash, at2);
      && ok
      && l'.records[snap.id] == snap.(verified := true)
      && l'.log == l.log + [LogEntry(snap.id, "register", "ok", at1), LogEntry(snap.id, "verify", "pass", at2)]
  {
    var l1 := Register(l, snap, at1);
    var (l', ok) := Verify(l1, snap.id, data, hash, at2);
    assert l1.log == l.log + [LogEntry(snap.id, "register", "ok", at1)];
    assert l'.log == l1.log + [LogEntry(snap.id, "verify", "pass", at2)];
  }

  /** A verify of a known id moves that id into the verified set on a match
      and into the unverified set otherwise, leaving every other id where it
      was; the record count stays. */
  lemma VerifyMovesId(l: Ledger, id: string, data: Bytes, hash: Hasher, at: string)
    requires id in l.records
    ensures var (l', ok) := Verify(l, id, data, hash, at);
      && |l'.records| == |l.records|
      && WithFlag(l', ok) == WithFlag(l, ok) + {id}
      && WithFlag(l', !ok) == WithFlag(l, !ok) - {id}
  {
    var (l', ok) := Verify(l, id, data, hash, at);
    assert l'.records == l.records[id := l.records[id].(verified := ok)];
    assert |l'.records| == |l.records| by {
      assert l'.records.Keys == l.records.Keys;
    }
    FlagsAfterUpdate(l, l', id, ok);
  }

  /** Replacing one record moves its id into the set of the new flag and out
      of the other. */
  lemma FlagsAfterUpdate(l: Ledger, l': Ledger, id: string, flag: bool)
    requires id in l'.records && l'.records[id].verified == flag
    requires l'.records.Keys == l.records.Keys + {id}
    requires forall k :: k in l.records && k != id ==> l'.records[k] == l.records[k]
    ensures WithFlag(l', flag) == WithFlag(l, flag) + {id}
    ensures WithFlag(l', !flag) == WithFlag(l, !flag) - {id}
  {
  }

  /** Registering puts the id in the set of its flag and takes it out of the
      other; the record count grows by one exactly when the id was new. */
  lemma RegisterMovesId(l: Ledger, snap: Snapshot, at: string)
    ensures var l' := Register(l, snap, at);
      && |l'.records| == |l.records| + (if snap.id in l.records then 0 else 1)
      && WithFlag(l', snap.verified) == WithFlag(l, snap.verified) + {snap.id}
      && WithFlag(l', !snap.verified) == WithFlag(l, !snap.verified) - {snap.id}
  {
    var l' := Register(l, snap, at);
    assert l'.records == l.records[snap.id := snap];
    FlagsAfterUpdate(l, l', snap.id, snap.verified);
  }

  /** Verifying the same bytes twice gives the same answer and the same
      records; only the log grows. */
  lemma VerifyTwice(l: Ledger, id: string, data: Bytes, hash: Hasher, at1: string, at2: string)
    ensures var (l1, ok1) := Verify(l, id, data, hash, at1);
      var (l2, ok2) := Verify(l1, id, data, hash, at2);
      ok2 == ok1 && l2.records == l1.records
  {
  }
}
