/** `list_services` (src/catalog.py:82-87): the active rows of the version
    catalog, projected to five columns and ordered by service, then
    environment. */
module CatalogListing {
  import opened Base
  import opened PathOrder
  import opened VersionCatalog

  /** The columns `list_services` selects. */
  datatype ServiceView = ServiceView(
    service: string,
    version: string,
    environment: string,
    deployedAt: nat,
    status: Status)

  function View(row: Row): ServiceView {
    ServiceView(row.service, row.version, row.environment, row.deployedAt, row.status)
  }

  /** The `ORDER BY service, environment` key; comparing it with `PathLt`
      compares the service first and the environment on a tie. */
  function Key(v: ServiceView): Path {
    [v.service, v.environment]
  }

  /** Non-decreasing by key: no entry has a smaller key than one before it. */
  predicate Sorted(xs: seq<ServiceView>) {
    forall i, j :: 0 <= i < j < |xs| ==> !PathLt(Key(xs[j]), Key(xs[i]))
  }

  /** No two entries share a key. */
  predicate DistinctKeys(xs: seq<ServiceView>) {
    forall i, j :: 0 <= i < j < |xs| ==> Key(xs[i]) != Key(xs[j])
  }

  /** `WHERE status='active'`, in table order. */
  function ActiveViews(rows: seq<Row>): (r: seq<ServiceView>)
    ensures |r| <= |rows|
    ensures forall v :: v in r <==> exists i :: 0 <= i < |rows| && rows[i].status == Active && View(rows[i]) == v
    decreases |rows|
  {
    if rows == [] then []
    else
      var init := rows[..|rows| - 1];
      var last := rows[|rows| - 1];
      assert forall i :: 0 <= i < |init| ==> init[i] == rows[i];
      var r := ActiveViews(init);
      if last.status == Active then r + [View(last)] else r
  }

  /** Puts `v` before the first entry with a larger key, after any equal ones. */
  function Insert(v: ServiceView, xs: seq<ServiceView>): (r: seq<ServiceView>)
    ensures multiset(r) == multiset(xs) + multiset{v}
    ensures Sorted(xs) ==> Sorted(r)
    decreases |xs|
  {
    if xs == [] then [v]
    else if PathLt(Key(v), Key(xs[0])) then
      assert Sorted(xs) ==> Sorted([v] + xs) by {
        if Sorted(xs) {
          SortedFront(v, xs);
        }
      }
      [v] + xs
    else
      assert xs == [xs[0]] + xs[1..];
      var rest := Insert(v, xs[1..]);
      assert Sorted(xs) ==> Sorted([xs[0]] + rest) by {
        if Sorted(xs) {
          forall y | y in rest
            ensures !PathLt(Key(y), Key(xs[0]))
          {
            assert y in multiset(rest);
          }
          SortedCons(xs[0], rest);
        }
      }
      [xs[0]] + rest
  }

  /** An entry with a smaller key than the first keeps a sorted sequence sorted. */
  lemma SortedFront(v: ServiceView, xs: seq<ServiceView>)
    requires Sorted(xs) && xs != [] && PathLt(Key(v), Key(xs[0]))
    ensures Sorted([v] + xs)
  {
    var r := [v] + xs;
    forall i, j | 0 <= i < j < |r|
      ensures !PathLt(Key(r[j]), Key(r[i]))
    {
      assert r[j] == xs[j - 1];
      if i == 0 {
        if PathLt(Key(xs[j - 1]), Key(v)) {
          PathLtTransitive(Key(xs[j - 1]), Key(v), Key(xs[0]));
          if j - 1 == 0 {
            PathLtIrreflexive(Key(xs[0]));
          }
        }
      } else {
        assert r[i] == xs[i - 1];
      }
    }
  }

  /** An entry whose key no later entry undercuts keeps a sorted sequence sorted. */
  lemma SortedCons(x: ServiceView, rest: seq<ServiceView>)
    requires Sorted(rest)
    requires forall y :: y in rest ==> !PathLt(Key(y), Key(x))
    ensures Sorted([x] + rest)
  {
    var r := [x] + rest;
    forall i, j | 0 <= i < j < |r|
      ensures !PathLt(Key(r[j]), Key(r[i]))
    {
      assert r[j] == rest[j - 1];
      if 0 < i {
        assert r[i] == rest[i - 1];
      }
    }
  }

  /** Insertion sort by key; stable. */
  function SortViews(xs: seq<ServiceView>): (r: seq<ServiceView>)
    ensures multiset(r) == multiset(xs)
    ensures Sorted(r)
    decreases |xs|
  {
    if xs == [] then []
    else
      assert xs == xs[..|xs| - 1] + [xs[|xs| - 1]];
      Insert(xs[|xs| - 1], SortViews(xs[..|xs| - 1]))
  }

  /** `list_services`: the active rows' views, ordered by key. SQLite leaves
      the order of equal keys open; the model keeps table order for them. */
  function ListServices(c: Catalog): (r: seq<ServiceView>)
    ensures multiset(r) == multiset(ActiveViews(c.rows))
    ensures Sorted(r)
  {
    SortViews(ActiveViews(c.rows))
  }

  /** In a catalog with at most one active row per pair, the active views
      have pairwise distinct keys. */
  lemma {:induction false} ActiveKeysDistinct(rows: seq<Row>)
    requires OneActive(rows)
    ensures DistinctKeys(ActiveViews(rows))
    decreases |rows|
  {
    if rows != [] {
      var init := rows[..|rows| - 1];
      var last := rows[|rows| - 1];
      assert OneActive(init) by {
        assert forall i :: 0 <= i < |init| ==> init[i] == rows[i];
      }
      ActiveKeysDistinct(init);
      var r := ActiveViews(init);
      if last.status == Active {
        var r' := r + [View(last)];
        forall i, j | 0 <= i < j < |r'|
          ensures Key(r'[i]) != Key(r'[j])
        {
          if j == |r| {
            assert r'[i] in r;
            var k :| 0 <= k < |init| && init[k].status == Active && View(init[k]) == r'[i];
            assert rows[k] == init[k];
            assert !SamePair(last, rows[k].service, rows[k].environment);
          } else {
            assert r'[i] == r[i] && r'[j] == r[j];
          }
        }
      }
    }
  }

  /** A sequence whose keys are pairwise distinct holds every value at most once. */
  lemma {:induction false} DistinctKeysCount(xs: seq<ServiceView>, x: ServiceView)
    requires DistinctKeys(xs)
    ensures multiset(xs)[x] <= 1
    decreases |xs|
  {
    if xs != [] {
      var init := xs[..|xs| - 1];
      assert xs == init + [xs[|xs| - 1]];
      assert DistinctKeys(init) by {
        assert forall i :: 0 <= i < |init| ==> init[i] == xs[i];
      }
      DistinctKeysCount(init, x);
    }
  }

  /** Two positions holding the same value count it twice. */
  lemma CountTwo(xs: seq<ServiceView>, i: nat, j: nat)
    requires i < j < |xs| && xs[i] == xs[j]
    ensures multiset(xs)[xs[i]] >= 2
  {
    assert xs == xs[..j] + [xs[j]] + xs[j + 1..];
    assert xs[..j][i] == xs[i];
    assert xs[i] in multiset(xs[..j]);
  }

  /** A sorted permutation of a sequence with distinct keys is strictly
      increasing by key. */
  lemma SortedDistinctIncreasing(r: seq<ServiceView>, a: seq<ServiceView>)
    requires Sorted(r) && multiset(r) == multiset(a) && DistinctKeys(a)
    ensures forall i, j :: 0 <= i < j < |r| ==> PathLt(Key(r[i]), Key(r[j]))
  {
    forall i, j | 0 <= i < j < |r|
      ensures PathLt(Key(r[i]), Key(r[j]))
    {
      assert Key(r[i]) != Key(r[j]) by {
        assert r[i] in multiset(a) && r[j] in multiset(a);
        if r[i] == r[j] {
          CountTwo(r, i, j);
          DistinctKeysCount(a, r[i]);
        } else {
          var k :| 0 <= k < |a| && a[k] == r[i];
          var l :| 0 <= l < |a| && a[l] == r[j];
          assert k != l;
          assert k < l || l < k;
        }
      }
      PathLtTotal(Key(r[i]), Key(r[j]));
    }
  }

  /** In a catalog with at most one active row per (service, environment),
      as every valid catalog has, `list_services` lists one entry per active
      row, the entries in strictly increasing (service, environment) order. */
  lemma ListServicesDistinct(c: Catalog)
    requires OneActive(c.rows)
    ensures var r := ListServices(c);
      && (forall i, j :: 0 <= i < j < |r| ==> PathLt(Key(r[i]), Key(r[j])))
      && (forall v :: v in r <==> exists i :: 0 <= i < |c.rows| && c.rows[i].status == Active && View(c.rows[i]) == v)
      && |r| == |ActiveViews(c.rows)|
  {
    var r := ListServices(c);
    var a := ActiveViews(c.rows);
    ActiveKeysDistinct(c.rows);
    SortedDistinctIncreasing(r, a);
    assert forall v :: v in r <==> v in a by {
      forall v
        ensures v in r <==> v in a
      {
        assert v in r <==> v in multiset(r);
        assert v in a <==> v in multiset(a);
      }
    }
    assert |r| == |a| by {
      assert |multiset(r)| == |multiset(a)|;
    }
  }
}
