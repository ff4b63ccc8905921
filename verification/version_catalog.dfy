/** The version catalog (src/catalog.py): one table of deploy records, each
    `active`, `superseded` or `rolled-back`, driven by deploys and rollbacks.

    The table is the sequence of its rows in row-id order. Row ids come from
    AUTOINCREMENT and `deployed_at` from the clock; both are drawn here from one
    logical counter `next`, so a later insert has a larger id and a later
    deploy time. */
module VersionCatalog {
  import opened Base
  import opened PathOrder

  datatype Status = Active | Superseded | RolledBack

  /** A row of the `versions` table. */
  datatype Row = Row(
    id: nat,
    service: string,
    version: string,
    environment: string,
    deployedAt: nat,
    deployedBy: string,
    commitSha: string,
    changelog: string,
    status: Status)

  datatype Catalog = Catalog(rows: seq<Row>, next: nat)

  /** The empty table; AUTOINCREMENT hands out 1 first. */
  const Empty := Catalog([], 1)

  predicate SamePair(row: Row, service: string, environment: string) {
    row.service == service && row.environment == environment
  }

  /** The key of the table's UNIQUE constraint. */
  predicate SameTriple(row: Row, service: string, version: string, environment: string) {
    SamePair(row, service, environment) && row.version == version
  }

  predicate Matches(row: Row, service: string, environment: string, status: Status) {
    SamePair(row, service, environment) && row.status == status
  }

  predicate IdsIncreasing(rows: seq<Row>) {
    forall i, j :: 0 <= i < j < |rows| ==> rows[i].id < rows[j].id
  }

  /** What the table's constraints and the deploy discipline keep true: ids
      in insertion order below the counter, one row per (service, version,
      environment), and at most one active row per (service, environment). */
  predicate Valid(c: Catalog) {
    && IdsIncreasing(c.rows)
    && (forall i :: 0 <= i < |c.rows| ==> c.rows[i].id < c.next && c.rows[i].deployedAt == c.rows[i].id)
    && UniqueTriples(c.rows)
    && OneActive(c.rows)
  }

  predicate UniqueTriples(rows: seq<Row>) {
    forall i, j :: 0 <= i < j < |rows| ==>
      !SameTriple(rows[j], rows[i].service, rows[i].version, rows[i].environment)
  }

  predicate OneActive(rows: seq<Row>) {
    forall i, j :: 0 <= i < j < |rows| && rows[i].status == Active && rows[j].status == Active ==>
      !SamePair(rows[j], rows[i].service, rows[i].environment)
  }

  /** `SELECT * ... WHERE service=? AND environment=? AND status=? ORDER BY
      deployed_at DESC LIMIT 1`: a matching row with the latest deploy time, or
      None when no row matches. Of rows deployed at the same time the later
      one is taken. */
  function Newest(rows: seq<Row>, service: string, environment: string, status: Status): (r: Option<Row>)
    ensures r.Some? <==> exists i :: 0 <= i < |rows| && Matches(rows[i], service, environment, status)
    ensures r.Some? ==> r.value in rows && Matches(r.value, service, environment, status)
    ensures r.Some? ==> forall i :: 0 <= i < |rows| && Matches(rows[i], service, environment, status) ==>
      rows[i].deployedAt <= r.value.deployedAt
    decreases |rows|
  {
    if rows == [] then None
    else
      var init := rows[..|rows| - 1];
      var last := rows[|rows| - 1];
      var r := Newest(init, service, environment, status);
      assert forall i :: 0 <= i < |rows| - 1 ==> rows[i] == init[i];
      if Matches(last, service, environment, status) && (r.None? || r.value.deployedAt <= last.deployedAt) then Some(last)
      else r
  }

  /** `get_latest` (src/catalog.py:51-57): the active row of the pair deployed
      last, or None. */
  function GetLatest(c: Catalog, service: string, environment: string): (r: Option<Row>)
    ensures r.Some? <==> exists i :: 0 <= i < |c.rows| && Matches(c.rows[i], service, environment, Active)
    ensures r.Some? ==> r.value in c.rows && Matches(r.value, service, environment, Active)
  {
    Newest(c.rows, service, environment, Active)
  }

  /** In a valid catalog the active row of a pair is the only one, so
      `get_latest` returns it whatever the deploy times. */
  lemma LatestIsTheActiveRow(c: Catalog, service: string, environment: string, i: nat)
    requires Valid(c)
    requires i < |c.rows| && Matches(c.rows[i], service, environment, Active)
    ensures GetLatest(c, service, environment) == Some(c.rows[i])
  {
    var r := GetLatest(c, service, environment).value;
    var j :| 0 <= j < |c.rows| && c.rows[j] == r;
    assert j == i;
  }

  /** The first statement of `record_deploy`: every active row of the pair
      becomes superseded. */
  function SupersedeRow(row: Row, service: string, environment: string): Row {
    if Matches(row, service, environment, Active) then row.(status := Superseded) else row
  }

  function Supersede(rows: seq<Row>, service: string, environment: string): (r: seq<Row>)
    ensures |r| == |rows|
    ensures forall i :: 0 <= i < |rows| ==> r[i] == SupersedeRow(rows[i], service, environment)
  {
    seq(|rows|, i requires 0 <= i < |rows| => SupersedeRow(rows[i], service, environment))
  }

  /** The delete half of `INSERT OR REPLACE`: the rows that do not clash with
      the new row's (service, version, environment), in their order. */
  function Without(rows: seq<Row>, service: string, version: string, environment: string): (r: seq<Row>)
    ensures |r| <= |rows|
    ensures forall row :: row in r <==> row in rows && !SameTriple(row, service, version, environment)
    decreases |rows|
  {
    if rows == [] then []
    else
      var init := rows[..|rows| - 1];
      var last := rows[|rows| - 1];
      assert rows == init + [last];
      var r := Without(init, service, version, environment);
      if SameTriple(last, service, version, environment) then r else r + [last]
  }

  /** Deleting rows keeps ids in order, triples unique and active rows one
      per pair. */
  lemma {:induction false} WithoutKeeps(rows: seq<Row>, service: string, version: string, environment: string)
    requires IdsIncreasing(rows) && UniqueTriples(rows) && OneActive(rows)
    ensures var r := Without(rows, service, version, environment);
      IdsIncreasing(r) && UniqueTriples(r) && OneActive(r)
    decreases |rows|
  {
    if rows != [] {
      var init := rows[..|rows| - 1];
      var last := rows[|rows| - 1];
      assert rows == init + [last];
      var r := Without(init, service, version, environment);
      WithoutKeeps(init, service, version, environment);
      if !SameTriple(last, service, version, environment) {
        assert Without(rows, service, version, environment) == r + [last];
        LastFits(rows);
        FitsSubset(init, r, last);
        SnocKeeps(r, last);
      }
    }
  }

  /** Appending a row keeps the three invariants when it follows every row
      already present and clashes with none of them. */
  lemma SnocKeeps(r: seq<Row>, last: Row)
    requires IdsIncreasing(r) && UniqueTriples(r) && OneActive(r)
    requires Fits(r, last)
    ensures IdsIncreasing(r + [last]) && UniqueTriples(r + [last]) && OneActive(r + [last])
  {
    var r' := r + [last];
    forall i, j | 0 <= i < j < |r'|
      ensures r'[i].id < r'[j].id
      ensures !SameTriple(r'[j], r'[i].service, r'[i].version, r'[i].environment)
      ensures r'[i].status == Active && r'[j].status == Active ==> !SamePair(r'[j], r'[i].service, r'[i].environment)
    {
      if j == |r| {
        assert r'[i] == r[i] && r'[j] == last;
        assert FitsAt(r, i, last);
      } else {
        assert r'[i] == r[i] && r'[j] == r[j];
      }
    }
  }

  /** The last row of a table that keeps the invariants fits after the rest. */
  lemma LastFits(rows: seq<Row>)
    requires IdsIncreasing(rows) && UniqueTriples(rows) && OneActive(rows) && rows != []
    ensures Fits(rows[..|rows| - 1], rows[|rows| - 1])
  {
    var init := rows[..|rows| - 1];
    assert forall i :: 0 <= i < |init| ==> init[i] == rows[i];
  }

  /** Every row of `r` is a row of `rows`, so what `last` satisfies against
      `rows` it satisfies against `r`. */
  lemma FitsSubset(rows: seq<Row>, r: seq<Row>, last: Row)
    requires Fits(rows, last)
    requires forall x :: x in r ==> x in rows
    ensures Fits(r, last)
  {
    forall i | 0 <= i < |r|
      ensures FitsAt(r, i, last)
    {
      assert r[i] in rows;
      var k :| 0 <= k < |rows| && rows[k] == r[i];
      assert FitsAt(rows, k, last);
    }
  }

  predicate FitsAt(r: seq<Row>, i: nat, last: Row)
    requires i < |r|
  {
    && r[i].id < last.id
    && !SameTriple(last, r[i].service, r[i].version, r[i].environment)
    && (r[i].status == Active && last.status == Active ==> !SamePair(last, r[i].service, r[i].environment))
  }

  /** `last` may follow every row of `r`. */
  predicate Fits(r: seq<Row>, last: Row) {
    forall i :: 0 <= i < |r| ==> FitsAt(r, i, last)
  }


  /** The row `record_deploy` inserts. */
  function Deployed(c: Catalog, service: string, version: string, commitSha: string, changelog: string,
                    environment: string): Row {
    Row(c.next, service, version, environment, c.next, "blackroad-ci", commitSha, changelog, Active)
  }

  /** `record_deploy` (src/catalog.py:33-49): supersede the pair's active row,
      then insert the new version, replacing any row with the same (service,
      version, environment). Returns the table and the new row's id. */
  function RecordDeploy(c: Catalog, service: string, version: string, commitSha: string, changelog: string,
                        environment: string): (r: (Catalog, nat))
    ensures r.1 == c.next && r.0.next == c.next + 1
    ensures 0 < |r.0.rows| <= |c.rows| + 1
    ensures var last := r.0.rows[|r.0.rows| - 1];
      && last.id == r.1 && last.deployedAt == r.1
      && Matches(last, service, environment, Active) && last.version == version
      && last.commitSha == commitSha && last.changelog == changelog && last.deployedBy == "blackroad-ci"
  {
    var rows := Without(Supersede(c.rows, service, environment), service, version, environment);
    (Catalog(rows + [Deployed(c, service, version, commitSha, changelog, environment)], c.next + 1), c.next)
  }

  /** What `record_deploy` does to the rows: the new row is in, and it is the
      pair's only active row and the only row with its (service, version,
      environment); rows of other pairs are untouched; every other row of the
      pair survives, superseded if it was active, unless it had the deployed
      version; and nothing else is there. */
  lemma RecordDeployEffect(c: Catalog, service: string, version: string, commitSha: string, changelog: string,
                           environment: string)
    ensures var c' := RecordDeploy(c, service, version, commitSha, changelog, environment).0;
      var added := Deployed(c, service, version, commitSha, changelog, environment);
      && added in c'.rows
      && (forall row :: row in c'.rows && Matches(row, service, environment, Active) ==> row == added)
      && (forall row :: row in c'.rows && SameTriple(row, service, version, environment) ==> row == added)
      && (forall row :: !SamePair(row, service, environment) ==> (row in c'.rows <==> row in c.rows))
      && (forall row :: row in c.rows && !SameTriple(row, service, version, environment) ==>
            SupersedeRow(row, service, environment) in c'.rows)
      && (forall row :: row in c'.rows && row != added ==>
            exists x :: x in c.rows && !SameTriple(x, service, version, environment) && row == SupersedeRow(x, service, environment))
  {
    var w := Without(Supersede(c.rows, service, environment), service, version, environment);
    SupersedeMembers(c.rows, service, environment);
    RowsAfterDeploy(c.rows, w, Deployed(c, service, version, commitSha, changelog, environment), service, version, environment);
  }

  /** The rows of `Supersede(rows, ..)` are exactly the images of the rows of
      `rows`. */
  lemma SupersedeMembers(rows: seq<Row>, service: string, environment: string)
    ensures forall x :: x in rows ==> SupersedeRow(x, service, environment) in Supersede(rows, service, environment)
    ensures forall x :: x in Supersede(rows, service, environment) ==>
      exists y :: y in rows && x == SupersedeRow(y, service, environment)
  {
    var s := Supersede(rows, service, environment);
    forall x | x in rows
      ensures SupersedeRow(x, service, environment) in s
    {
      var i :| 0 <= i < |rows| && rows[i] == x;
      assert s[i] == SupersedeRow(x, service, environment);
    }
  }

  /** The membership facts of a deploy, stated over the rows that survive the
      delete (`w`) and the inserted row. */
  lemma RowsAfterDeploy(rows: seq<Row>, w: seq<Row>, added: Row, service: string, version: string, environment: string)
    requires forall x :: x in rows ==> SupersedeRow(x, service, environment) in Supersede(rows, service, environment)
    requires forall x :: x in Supersede(rows, service, environment) ==>
      exists y :: y in rows && x == SupersedeRow(y, service, environment)
    requires w == Without(Supersede(rows, service, environment), service, version, environment)
    requires Matches(added, service, environment, Active) && SameTriple(added, service, version, environment)
    ensures var r := w + [added];
      && added in r
      && (forall row :: row in r && Matches(row, service, environment, Active) ==> row == added)
      && (forall row :: row in r && SameTriple(row, service, version, environment) ==> row == added)
      && (forall row :: !SamePair(row, service, environment) ==> (row in r <==> row in rows))
      && (forall row :: row in rows && !SameTriple(row, service, version, environment) ==>
            SupersedeRow(row, service, environment) in r)
      && (forall row :: row in r && row != added ==>
            exists x :: x in rows && !SameTriple(x, service, version, environment) && row == SupersedeRow(x, service, environment))
  {
  }

  /** Deploying keeps the catalog valid: the new row is the pair's only
      active row and the only row with its (service, version, environment). */
  lemma RecordDeployValid(c: Catalog, service: string, version: string, commitSha: string, changelog: string,
                          environment: string)
    requires Valid(c)
    ensures Valid(RecordDeploy(c, service, version, commitSha, changelog, environment).0)
  {
    var s := Supersede(c.rows, service, environment);
    var w := Without(s, service, version, environment);
    var row := Deployed(c, service, version, commitSha, changelog, environment);
    var c' := RecordDeploy(c, service, version, commitSha, changelog, environment).0;
    assert c'.rows == w + [row];
    assert IdsIncreasing(s) && UniqueTriples(s) && OneActive(s) by {
      SupersedeKeeps(c.rows, service, environment);
    }
    WithoutKeeps(s, service, version, environment);
    forall i | 0 <= i < |w|
      ensures w[i].id < c.next && w[i].deployedAt == w[i].id && !Matches(w[i], service, environment, Active)
      ensures !SameTriple(w[i], service, version, environment)
    {
      assert w[i] in s;
    }
    SnocKeeps(w, row);
  }

  /** Superseding changes statuses only, from active to superseded. */
  lemma SupersedeKeeps(rows: seq<Row>, service: string, environment: string)
    requires IdsIncreasing(rows) && UniqueTriples(rows) && OneActive(rows)
    ensures var s := Supersede(rows, service, environment);
      && IdsIncreasing(s) && UniqueTriples(s) && OneActive(s)
      && forall i :: 0 <= i < |s| ==>
           s[i].id == rows[i].id && s[i].deployedAt == rows[i].deployedAt && !Matches(s[i], service, environment, Active)
  {
  }

  function SetStatus(row: Row, id: nat, status: Status): Row {
    if row.id == id then row.(status := status) else row
  }

  /** `rollback` (src/catalog.py:59-80): with an active row and a superseded
      row for the pair, the newest superseded row becomes active and the
      active row rolled-back, each updated by id; the superseded row is
      returned as it was read. Otherwise nothing changes and None is
      returned. */
  function Rollback(c: Catalog, service: string, environment: string): (r: (Catalog, Option<Row>))
    ensures r.1.None? <==>
      (|| (forall i :: 0 <= i < |c.rows| ==> !Matches(c.rows[i], service, environment, Active))
       || (forall i :: 0 <= i < |c.rows| ==> !Matches(c.rows[i], service, environment, Superseded)))
    ensures r.1.None? ==> r.0 == c
    ensures r.1.Some? ==> r.1.value in c.rows && Matches(r.1.value, service, environment, Superseded)
    ensures r.1.Some? ==> forall i :: 0 <= i < |c.rows| && Matches(c.rows[i], service, environment, Superseded) ==>
      c.rows[i].deployedAt <= r.1.value.deployedAt
    ensures r.0.next == c.next && |r.0.rows| == |c.rows|
    ensures SameKeys(c.rows, r.0.rows)
  {
    var current := GetLatest(c, service, environment);
    if current.None? then (c, None)
    else
      var prev := Newest(c.rows, service, environment, Superseded);
      if prev.None? then (c, None)
      else
        (Catalog(Swap(c.rows, prev.value.id, current.value.id), c.next), prev)
  }

  /** The two updates of a rollback: row `up` to active, then row `down` to
      rolled-back. Only statuses change. */
  function Swap(rows: seq<Row>, up: nat, down: nat): (r: seq<Row>)
    ensures |r| == |rows|
    ensures forall i :: 0 <= i < |rows| ==> r[i] == SetStatus(SetStatus(rows[i], up, Active), down, RolledBack)
  {
    seq(|rows|, i requires 0 <= i < |rows| => SetStatus(SetStatus(rows[i], up, Active), down, RolledBack))
  }

  /** In a valid catalog a successful rollback changes exactly two rows: the
      returned superseded row becomes active and the pair's active row becomes
      rolled-back. */
  lemma RollbackEffect(c: Catalog, service: string, environment: string)
    requires Valid(c)
    requires Rollback(c, service, environment).1.Some?
    ensures var (c', prev) := Rollback(c, service, environment);
      forall i :: 0 <= i < |c.rows| ==>
        c'.rows[i] == (if c.rows[i] == prev.value then c.rows[i].(status := Active)
                       else if Matches(c.rows[i], service, environment, Active) then c.rows[i].(status := RolledBack)
                       else c.rows[i])
  {
    var p, a := RollbackAt(c, service, environment);
  }

  /** The rows a successful rollback touches, by position: `p` holds the
      returned superseded row and `a` the pair's only active row. */
  lemma RollbackAt(c: Catalog, service: string, environment: string) returns (p: nat, a: nat)
    requires IdsIncreasing(c.rows) && OneActive(c.rows)
    requires Rollback(c, service, environment).1.Some?
    ensures var (c', prev) := Rollback(c, service, environment);
      && p < |c.rows| && a < |c.rows| && p != a
      && c.rows[p] == prev.value && Matches(c.rows[a], service, environment, Active)
      && (forall i :: 0 <= i < |c.rows| && i != a ==> !Matches(c.rows[i], service, environment, Active))
      && (forall i :: 0 <= i < |c.rows| && i != p ==> c.rows[i] != c.rows[p])
      && c'.rows[p] == c.rows[p].(status := Active)
      && c'.rows[a] == c.rows[a].(status := RolledBack)
      && (forall i :: 0 <= i < |c.rows| && i != p && i != a ==> c'.rows[i] == c.rows[i])
  {
    p, a := RollbackIndices(c, service, environment);
    OnlyActive(c.rows, a, service, environment);
    SwapAt(c.rows, p, a);
  }

  /** Where a successful rollback's two rows sit, and the update it makes. */
  lemma RollbackIndices(c: Catalog, service: string, environment: string) returns (p: nat, a: nat)
    requires Rollback(c, service, environment).1.Some?
    ensures var (c', prev) := Rollback(c, service, environment);
      && p < |c.rows| && a < |c.rows| && p != a
      && c.rows[p] == prev.value && Matches(c.rows[a], service, environment, Active)
      && c'.rows == Swap(c.rows, c.rows[p].id, c.rows[a].id)
  {
    var (c', prev) := Rollback(c, service, environment);
    var cur := GetLatest(c, service, environment).value;
    p :| 0 <= p < |c.rows| && c.rows[p] == prev.value;
    a :| 0 <= a < |c.rows| && c.rows[a] == cur;
  }

  /** With `a` an active row of the pair, no other row is. */
  lemma OnlyActive(rows: seq<Row>, a: nat, service: string, environment: string)
    requires OneActive(rows) && a < |rows| && Matches(rows[a], service, environment, Active)
    ensures forall i :: 0 <= i < |rows| && i != a ==> !Matches(rows[i], service, environment, Active)
  {
    forall i | 0 <= i < |rows| && i != a
      ensures !Matches(rows[i], service, environment, Active)
    {
      assert i < a || a < i;
    }
  }

  /** With distinct ids, swapping by the ids of rows `p` and `a` changes
      those two rows and no other. */
  lemma SwapAt(rows: seq<Row>, p: nat, a: nat)
    requires IdsIncreasing(rows) && p < |rows| && a < |rows| && p != a
    ensures var r := Swap(rows, rows[p].id, rows[a].id);
      && (forall i :: 0 <= i < |rows| && i != p ==> rows[i] != rows[p])
      && r[p] == rows[p].(status := Active)
      && r[a] == rows[a].(status := RolledBack)
      && (forall i :: 0 <= i < |rows| && i != p && i != a ==> r[i] == rows[i])
  {
    assert forall i :: 0 <= i < |rows| && i != p ==> rows[i].id != rows[p].id by {
      forall i | 0 <= i < |rows| && i != p
        ensures rows[i].id != rows[p].id
      {
        assert i < p || p < i;
      }
    }
    assert forall i :: 0 <= i < |rows| && i != a ==> rows[i].id != rows[a].id by {
      forall i | 0 <= i < |rows| && i != a
        ensures rows[i].id != rows[a].id
      {
        assert i < a || a < i;
      }
    }
  }

  /** Rolling back keeps the catalog valid. */
  lemma RollbackValid(c: Catalog, service: string, environment: string)
    requires Valid(c)
    ensures Valid(Rollback(c, service, environment).0)
  {
    var (c', prev) := Rollback(c, service, environment);
    if prev.Some? {
      KeysTransfer(c, c');
      RollbackOneActive(c, service, environment);
    }
  }

  lemma RollbackOneActive(c: Catalog, service: string, environment: string)
    requires IdsIncreasing(c.rows) && OneActive(c.rows) && Rollback(c, service, environment).1.Some?
    ensures OneActive(Rollback(c, service, environment).0.rows)
  {
    var (c', prev) := Rollback(c, service, environment);
    var p, a := RollbackAt(c, service, environment);
    assert forall i :: 0 <= i < |c.rows| && c'.rows[i].status == Active ==>
        i == p || (c.rows[i].status == Active && !SamePair(c.rows[i], service, environment));
    assert SamePair(c'.rows[p], service, environment);
  }

  /** Row by row, `rows'` differs from `rows` in statuses only. */
  predicate SameKeys(rows: seq<Row>, rows': seq<Row>) {
    && |rows'| == |rows|
    && forall i :: 0 <= i < |rows| ==>
         && rows'[i].id == rows[i].id && rows'[i].deployedAt == rows[i].deployedAt
         && rows'[i].service == rows[i].service && rows'[i].version == rows[i].version
         && rows'[i].environment == rows[i].environment
  }

  /** Changing statuses keeps every part of validity but the one about active
      rows. */
  lemma KeysTransfer(c: Catalog, c': Catalog)
    requires Valid(c) && SameKeys(c.rows, c'.rows) && c'.next == c.next
    ensures IdsIncreasing(c'.rows) && UniqueTriples(c'.rows)
    ensures forall i :: 0 <= i < |c'.rows| ==> c'.rows[i].id < c'.next && c'.rows[i].deployedAt == c'.rows[i].id
  {
  }

  /** Ids are distinct in a valid catalog. */
  lemma IdsDistinct(c: Catalog, i: nat, j: nat)
    requires Valid(c) && i < |c.rows| && j < |c.rows| && c.rows[i].id == c.rows[j].id
    ensures i == j
  {
  }

  /** The newest superseded row of a valid catalog is the row with id `id`
      when that row is a superseded row of the pair and every later id belongs
      to a row that is not superseded. */
  lemma NewestSupersededIs(c: Catalog, service: string, environment: string, i: nat)
    requires Valid(c) && i < |c.rows| && Matches(c.rows[i], service, environment, Superseded)
    requires forall j :: 0 <= j < |c.rows| && c.rows[i].id < c.rows[j].id ==> c.rows[j].status != Superseded
    ensures Newest(c.rows, service, environment, Superseded) == Some(c.rows[i])
  {
    var p := Newest(c.rows, service, environment, Superseded).value;
    var k :| 0 <= k < |c.rows| && c.rows[k] == p;
    assert c.rows[i].deployedAt <= p.deployedAt;
    assert c.rows[k].id == c.rows[i].id;
    IdsDistinct(c, k, i);
  }

  /** A rollback in a valid catalog whose pair has the active row `a` and
      the newest superseded row `i` swaps the two and makes row `i` the
      latest. */
  lemma RollbackSwaps(c: Catalog, service: string, environment: string, i: nat, a: nat)
    requires Valid(c) && i < |c.rows| && a < |c.rows|
    requires Newest(c.rows, service, environment, Superseded) == Some(c.rows[i])
    requires Matches(c.rows[a], service, environment, Active)
    ensures var (c', prev) := Rollback(c, service, environment);
      && prev == Some(c.rows[i])
      && c'.rows[i] == c.rows[i].(status := Active)
      && c'.rows[a] == c.rows[a].(status := RolledBack)
      && GetLatest(c', service, environment) == Some(c'.rows[i])
  {
    var (c', prev) := Rollback(c, service, environment);
    var p, a' := RollbackAt(c, service, environment);
    RollbackValid(c, service, environment);
    LatestIsTheActiveRow(c', service, environment, i);
  }

  /** Two deploys of different versions leave the first one as the pair's
      newest superseded row and the second one active. */
  lemma TwoDeploys(c: Catalog, service: string, environment: string,
                   v1: string, sha1: string, log1: string, v2: string, sha2: string, log2: string)
    returns (i1: nat, i2: nat)
    requires Valid(c) && v1 != v2
    ensures var c1 := RecordDeploy(c, service, v1, sha1, log1, environment).0;
      var c2 := RecordDeploy(c1, service, v2, sha2, log2, environment).0;
      && Valid(c2) && i1 < |c2.rows| && i2 < |c2.rows|
      && c2.rows[i1] == Deployed(c, service, v1, sha1, log1, environment).(status := Superseded)
      && c2.rows[i2] == Deployed(c1, service, v2, sha2, log2, environment)
      && Newest(c2.rows, service, environment, Superseded) == Some(c2.rows[i1])
  {
    var c1 := RecordDeploy(c, service, v1, sha1, log1, environment).0;
    var row1 := Deployed(c, service, v1, sha1, log1, environment);
    var c2 := RecordDeploy(c1, service, v2, sha2, log2, environment).0;
    var row2 := Deployed(c1, service, v2, sha2, log2, environment);
    RecordDeployValid(c, service, v1, sha1, log1, environment);
    RecordDeployValid(c1, service, v2, sha2, log2, environment);
    RecordDeployEffect(c, service, v1, sha1, log1, environment);
    RecordDeployEffect(c1, service, v2, sha2, log2, environment);
    var old1 := row1.(status := Superseded);
    assert old1 == SupersedeRow(row1, service, environment);
    assert old1 in c2.rows && row2 in c2.rows;
    i1 :| 0 <= i1 < |c2.rows| && c2.rows[i1] == old1;
    i2 :| 0 <= i2 < |c2.rows| && c2.rows[i2] == row2;
    forall j | 0 <= j < |c2.rows| && c2.rows[i1].id < c2.rows[j].id
      ensures c2.rows[j].status != Superseded
    {
      assert c2.rows[j].id == row2.id;
      IdsDistinct(c2, j, i2);
    }
    NewestSupersededIs(c2, service, environment, i1);
  }

  /** Deploying `v1` and then `v2` of one service and environment, then
      rolling back, makes `v1` active again, marks `v2` rolled-back and
      returns the `v1` row as it stood before the rollback. */
  lemma DeployDeployRollback(c: Catalog, service: string, environment: string,
                             v1: string, sha1: string, log1: string, v2: string, sha2: string, log2: string)
    requires Valid(c) && v1 != v2
    ensures var c1 := RecordDeploy(c, service, v1, sha1, log1, environment).0;
      var c2 := RecordDeploy(c1, service, v2, sha2, log2, environment).0;
      var (c3, prev) := Rollback(c2, service, environment);
      && prev == Some(Deployed(c, service, v1, sha1, log1, environment).(status := Superseded))
      && GetLatest(c3, service, environment) == Some(Deployed(c, service, v1, sha1, log1, environment))
      && Deployed(c1, service, v2, sha2, log2, environment).(status := RolledBack) in c3.rows
  {
    var c1 := RecordDeploy(c, service, v1, sha1, log1, environment).0;
    var c2 := RecordDeploy(c1, service, v2, sha2, log2, environment).0;
    var i1, i2 := TwoDeploys(c, service, environment, v1, sha1, log1, v2, sha2, log2);
    RollbackSwaps(c2, service, environment, i1, i2);
  }

  /** The rows of a pair with a given status. */
  function PairRows(rows: seq<Row>, service: string, environment: string, status: Status): (r: set<Row>)
    ensures forall x :: x in r <==> x in rows && Matches(x, service, environment, status)
  {
    set x | x in rows && Matches(x, service, environment, status)
  }

  /** A successful rollback in a valid catalog uses up one superseded row of
      the pair, the one it returns, which becomes the pair's latest row. */
  lemma RollbackShrinks(c: Catalog, service: string, environment: string)
    requires Valid(c) && Rollback(c, service, environment).1.Some?
    ensures var (c', prev) := Rollback(c, service, environment);
      && prev.value in PairRows(c.rows, service, environment, Superseded)
      && (forall x :: x in PairRows(c'.rows, service, environment, Superseded) <==>
            x in PairRows(c.rows, service, environment, Superseded) && x != prev.value)
      && |PairRows(c'.rows, service, environment, Superseded)| == |PairRows(c.rows, service, environment, Superseded)| - 1
      && GetLatest(c', service, environment) == Some(prev.value.(status := Active))
  {
    var (c', prev) := Rollback(c, service, environment);
    var before := PairRows(c.rows, service, environment, Superseded);
    var after := PairRows(c'.rows, service, environment, Superseded);
    assert after == before - {prev.value} by {
      var p, a := RollbackAt(c, service, environment);
      SwapSuperseded(c.rows, c'.rows, p, a, service, environment);
    }
    RemoveOne(before, prev.value);
    assert GetLatest(c', service, environment) == Some(prev.value.(status := Active)) by {
      var p, a := RollbackAt(c, service, environment);
      RollbackValid(c, service, environment);
      LatestIsTheActiveRow(c', service, environment, p);
    }
  }

  lemma SwapSuperseded(rows: seq<Row>, rows': seq<Row>, p: nat, a: nat, service: string, environment: string)
    requires |rows'| == |rows| && p < |rows| && a < |rows| && p != a
    requires Matches(rows[a], service, environment, Active)
    requires forall i :: 0 <= i < |rows| && i != p ==> rows[i] != rows[p]
    requires rows'[p] == rows[p].(status := Active)
    requires rows'[a] == rows[a].(status := RolledBack)
    requires forall i :: 0 <= i < |rows| && i != p && i != a ==> rows'[i] == rows[i]
    ensures PairRows(rows', service, environment, Superseded) == PairRows(rows, service, environment, Superseded) - {rows[p]}
  {
    var before := PairRows(rows, service, environment, Superseded);
    var after := PairRows(rows', service, environment, Superseded);
    forall x | x in after
      ensures x in before - {rows[p]}
    {
      var i :| 0 <= i < |rows'| && rows'[i] == x;
    }
    forall x | x in before - {rows[p]}
      ensures x in after
    {
      var i :| 0 <= i < |rows| && rows[i] == x;
      assert rows'[i] == x;
    }
  }

  /** `n` rollbacks in a row: the final table and what each call returned. */
  function RollbackTimes(c: Catalog, service: string, environment: string, n: nat): (r: (Catalog, seq<Option<Row>>))
    ensures |r.1| == n
    decreases n
  {
    if n == 0 then (c, [])
    else
      var (c1, prev) := Rollback(c, service, environment);
      var (cn, rest) := RollbackTimes(c1, service, environment, n - 1);
      (cn, [prev] + rest)
  }

  /** The results of `k + 1` rollbacks walk back: the first `k` succeed, each
      returning a row deployed earlier than the one before, and the last finds
      nothing. */
  predicate WalkedBack(rs: seq<Option<Row>>, k: nat) {
    && |rs| == k + 1
    && (forall i :: 0 <= i < k ==> rs[i].Some?)
    && (forall i, j :: 0 <= i < j < k ==> rs[i].Some? && rs[j].Some? && rs[j].value.deployedAt < rs[i].value.deployedAt)
    && rs[k] == None
  }

  /** Rollback walks back through history rather than toggling: with an active
      row and `k` superseded rows for the pair, `k` successive rollbacks
      succeed, each returning an older row than the one before, and the next
      one finds nothing to restore. */
  lemma {:induction false} WalkBack(c: Catalog, service: string, environment: string, k: nat)
    requires Valid(c) && GetLatest(c, service, environment).Some?
    requires k == |PairRows(c.rows, service, environment, Superseded)|
    ensures WalkedBack(RollbackTimes(c, service, environment, k + 1).1, k)
    decreases k
  {
    var (c1, prev) := Rollback(c, service, environment);
    var rs := RollbackTimes(c, service, environment, k + 1).1;
    var rest := RollbackTimes(c1, service, environment, k).1;
    assert rs == [prev] + rest;
    if k == 0 {
      RollbackNeedsSuperseded(c, service, environment);
    } else {
      RollbackStep(c, service, environment);
      WalkBack(c1, service, environment, k - 1);
      if 1 < k {
        assert rest[0].value.deployedAt < prev.value.deployedAt by {
          assert rest[0] == Rollback(c1, service, environment).1;
          WalkBackOlder(c, service, environment, rest[0].value);
        }
      }
      ConsWalked(prev, rest, k - 1);
    }
  }

  lemma RollbackNeedsSuperseded(c: Catalog, service: string, environment: string)
    requires PairRows(c.rows, service, environment, Superseded) == {}
    ensures Rollback(c, service, environment).1 == None
  {
    assert forall i :: 0 <= i < |c.rows| ==> c.rows[i] !in PairRows(c.rows, service, environment, Superseded);
  }

  /** One rollback of a valid catalog with an active and a superseded row for
      the pair succeeds and leaves a valid catalog with an active row and one
      superseded row fewer. */
  lemma RollbackStep(c: Catalog, service: string, environment: string)
    requires Valid(c) && GetLatest(c, service, environment).Some?
    requires PairRows(c.rows, service, environment, Superseded) != {}
    ensures var (c1, prev) := Rollback(c, service, environment);
      && prev.Some? && Valid(c1) && GetLatest(c1, service, environment).Some?
      && |PairRows(c1.rows, service, environment, Superseded)| == |PairRows(c.rows, service, environment, Superseded)| - 1
  {
    var (c1, prev) := Rollback(c, service, environment);
    var x :| x in PairRows(c.rows, service, environment, Superseded);
    var i :| 0 <= i < |c.rows| && c.rows[i] == x;
    assert prev.Some?;
    RollbackShrinks(c, service, environment);
    RollbackValid(c, service, environment);
  }

  lemma RemoveOne<T>(s: set<T>, x: T)
    requires x in s
    ensures |s - {x}| == |s| - 1
  {
    assert s == (s - {x}) + {x};
  }

  lemma ConsWalked(first: Option<Row>, rest: seq<Option<Row>>, k: nat)
    requires WalkedBack(rest, k) && first.Some?
    requires 0 < k ==> rest[0].value.deployedAt < first.value.deployedAt
    ensures WalkedBack([first] + rest, k + 1)
  {
    var rs := [first] + rest;
    assert forall i :: 0 < i < |rs| ==> rs[i] == rest[i - 1];
    assert forall j :: 0 < j < k + 1 ==> rs[j].value.deployedAt <= rest[0].value.deployedAt;
  }

  /** What the second of two rollbacks returns is older than what the first
      one returned. */
  lemma WalkBackOlder(c: Catalog, service: string, environment: string, next: Row)
    requires Valid(c) && Rollback(c, service, environment).1.Some?
    requires var c1 := Rollback(c, service, environment).0;
      Rollback(c1, service, environment).1 == Some(next)
    ensures next.deployedAt < Rollback(c, service, environment).1.value.deployedAt
  {
    var (c1, prev) := Rollback(c, service, environment);
    assert next in PairRows(c.rows, service, environment, Superseded) && next != prev.value by {
      RollbackShrinks(c, service, environment);
      assert next in PairRows(c1.rows, service, environment, Superseded);
    }
    var j :| 0 <= j < |c.rows| && c.rows[j] == prev.value;
    var k :| 0 <= k < |c.rows| && c.rows[k] == next;
    assert k != j;
    assert c.rows[k].id != c.rows[j].id by {
      assert k < j || j < k;
    }
  }

  /** Deploying a version the pair has never had adds the pair's active row,
      if any, to its superseded rows and removes nothing. */
  lemma FreshDeploySupersedes(c: Catalog, service: string, version: string, commitSha: string, changelog: string,
                              environment: string)
    requires Valid(c)
    requires forall x :: x in c.rows ==> !SameTriple(x, service, version, environment)
    ensures var c' := RecordDeploy(c, service, version, commitSha, changelog, environment).0;
      |PairRows(c'.rows, service, environment, Superseded)| ==
        |PairRows(c.rows, service, environment, Superseded)| + (if GetLatest(c, service, environment).Some? then 1 else 0)
  {
    var c' := RecordDeploy(c, service, version, commitSha, changelog, environment).0;
    var before := PairRows(c.rows, service, environment, Superseded);
    var after := PairRows(c'.rows, service, environment, Superseded);
    var latest := GetLatest(c, service, environment);
    FreshSupersededRows(c, service, version, commitSha, changelog, environment);
    if latest.None? {
      assert after == before;
    } else {
      var a := latest.value;
      var ia :| 0 <= ia < |c.rows| && c.rows[ia] == a;
      assert after == before + {a.(status := Superseded)} by {
        forall i | 0 <= i < |c.rows| && Matches(c.rows[i], service, environment, Active)
          ensures c.rows[i] == a
        {
          LatestIsTheActiveRow(c, service, environment, i);
        }
      }
      assert a.(status := Superseded) !in before by {
        forall j | 0 <= j < |c.rows|
          ensures c.rows[j] != a.(status := Superseded)
        {
          if c.rows[j].id == a.id {
            IdsDistinct(c, j, ia);
          }
        }
      }
    }
  }

  /** The superseded rows of the pair after deploying a fresh version: those
      before, and the formerly active ones. */
  lemma FreshSupersededRows(c: Catalog, service: string, version: string, commitSha: string, changelog: string,
                            environment: string)
    requires forall x :: x in c.rows ==> !SameTriple(x, service, version, environment)
    ensures var c' := RecordDeploy(c, service, version, commitSha, changelog, environment).0;
      forall x :: x in PairRows(c'.rows, service, environment, Superseded) <==>
        || x in PairRows(c.rows, service, environment, Superseded)
        || exists i :: 0 <= i < |c.rows| && Matches(c.rows[i], service, environment, Active) && x == SupersedeRow(c.rows[i], service, environment)
  {
    var c' := RecordDeploy(c, service, version, commitSha, changelog, environment).0;
    RecordDeployEffect(c, service, version, commitSha, changelog, environment);
    forall x | x in PairRows(c'.rows, service, environment, Superseded)
      ensures || x in PairRows(c.rows, service, environment, Superseded)
              || exists i :: 0 <= i < |c.rows| && Matches(c.rows[i], service, environment, Active) && x == SupersedeRow(c.rows[i], service, environment)
    {
      var y :| y in c.rows && !SameTriple(y, service, version, environment) && x == SupersedeRow(y, service, environment);
      var i :| 0 <= i < |c.rows| && c.rows[i] == y;
    }
  }

  /** Deploying `versions` in turn with the default commit and changelog. */
  function DeployAll(c: Catalog, service: string, environment: string, versions: seq<string>): (r: Catalog)
    ensures r.next == c.next + |versions|
    decreases |versions|
  {
    if versions == [] then c
    else RecordDeploy(DeployAll(c, service, environment, versions[..|versions| - 1]), service, versions[|versions| - 1], "", "", environment).0
  }

  /** The pair's state after deploying `versions`: a valid catalog, an
      active row, one superseded row per earlier version, and rows for those
      versions only. */
  predicate History(c: Catalog, service: string, environment: string, versions: seq<string>) {
    && Valid(c)
    && GetLatest(c, service, environment).Some?
    && |PairRows(c.rows, service, environment, Superseded)| == |versions| - 1
    && forall x :: x in c.rows && SamePair(x, service, environment) ==> x.version in versions
  }

  /** After deploying `n` distinct versions of a service to an environment
      that had none, the pair has one active and `n - 1` superseded rows. */
  lemma {:induction false} DeployHistory(c: Catalog, service: string, environment: string, versions: seq<string>)
    requires Valid(c) && 0 < |versions|
    requires forall x :: x in c.rows ==> !SamePair(x, service, environment)
    requires forall i, j :: 0 <= i < j < |versions| ==> versions[i] != versions[j]
    ensures History(DeployAll(c, service, environment, versions), service, environment, versions)
    decreases |versions|
  {
    var init := versions[..|versions| - 1];
    var v := versions[|versions| - 1];
    assert versions == init + [v];
    assert DeployAll(c, service, environment, versions)
      == RecordDeploy(DeployAll(c, service, environment, init), service, v, "", "", environment).0;
    if init == [] {
      HistoryStart(c, service, environment, v);
    } else {
      DeployHistory(c, service, environment, init);
      HistoryStep(DeployAll(c, service, environment, init), service, environment, init, v);
    }
  }

  lemma HistoryStart(c: Catalog, service: string, environment: string, v: string)
    requires Valid(c)
    requires forall x :: x in c.rows ==> !SamePair(x, service, environment)
    ensures History(RecordDeploy(c, service, v, "", "", environment).0, service, environment, [v])
  {
    assert GetLatest(c, service, environment).None?;
    assert PairRows(c.rows, service, environment, Superseded) == {};
    FreshDeploySupersedes(c, service, v, "", "", environment);
    RecordDeployValid(c, service, v, "", "", environment);
    DeployKeepsVersions(c, service, environment, v, []);
    DeployedIsLatest(c, service, v, "", "", environment);
  }

  lemma HistoryStep(c: Catalog, service: string, environment: string, versions: seq<string>, v: string)
    requires History(c, service, environment, versions) && v !in versions
    ensures History(RecordDeploy(c, service, v, "", "", environment).0, service, environment, versions + [v])
  {
    FreshDeploySupersedes(c, service, v, "", "", environment);
    RecordDeployValid(c, service, v, "", "", environment);
    DeployKeepsVersions(c, service, environment, v, versions);
    DeployedIsLatest(c, service, v, "", "", environment);
  }

  /** After a deploy the new row is the pair's latest. */
  lemma DeployedIsLatest(c: Catalog, service: string, version: string, commitSha: string, changelog: string,
                         environment: string)
    ensures GetLatest(RecordDeploy(c, service, version, commitSha, changelog, environment).0, service, environment)
      == Some(Deployed(c, service, version, commitSha, changelog, environment))
  {
    var c' := RecordDeploy(c, service, version, commitSha, changelog, environment).0;
    var added := Deployed(c, service, version, commitSha, changelog, environment);
    RecordDeployEffect(c, service, version, commitSha, changelog, environment);
    assert c'.rows[|c'.rows| - 1] == added;
  }

  /** Deploying `v` adds `v` to the versions a pair has rows for. */
  lemma DeployKeepsVersions(c: Catalog, service: string, environment: string, v: string, vs: seq<string>)
    requires forall x :: x in c.rows && SamePair(x, service, environment) ==> x.version in vs
    ensures var c' := RecordDeploy(c, service, v, "", "", environment).0;
      forall x :: x in c'.rows && SamePair(x, service, environment) ==> x.version in vs + [v]
  {
    var c' := RecordDeploy(c, service, v, "", "", environment).0;
    RecordDeployEffect(c, service, v, "", "", environment);
    forall x | x in c'.rows && SamePair(x, service, environment)
      ensures x.version in vs + [v]
    {
      if x != Deployed(c, service, v, "", "", environment) {
        var y :| y in c.rows && !SameTriple(y, service, v, environment) && x == SupersedeRow(y, service, environment);
      }
    }
  }

  /** Rollbacks after a history of `n` distinct deploys walk back through
      all of it: `n - 1` of them succeed, newest first, and the next fails.
      Two deploys therefore allow one rollback, not two. */
  lemma RollbacksAfterDeploys(c: Catalog, service: string, environment: string, versions: seq<string>)
    requires Valid(c) && 0 < |versions|
    requires forall x :: x in c.rows ==> !SamePair(x, service, environment)
    requires forall i, j :: 0 <= i < j < |versions| ==> versions[i] != versions[j]
    ensures WalkedBack(RollbackTimes(DeployAll(c, service, environment, versions), service, environment, |versions|).1,
                       |versions| - 1)
  {
    DeployHistory(c, service, environment, versions);
    WalkBack(DeployAll(c, service, environment, versions), service, environment, |versions| - 1);
  }
}
