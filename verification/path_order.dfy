/** The order Python's `sorted` puts paths in, and a sort of a finite set of
    paths into that order.

    A `pathlib` path compares as the list of its components, each component
    compared as a string of code points. SQLite's BINARY collation on UTF-8
    text gives the same order on strings. */
module PathOrder {
  import opened Base

  /** Strict lexicographic order on strings by code point. */
  predicate StrLt(a: string, b: string)
    decreases |a|
  {
    0 < |b| && (|a| == 0 || a[0] < b[0] || (a[0] == b[0] && StrLt(a[1..], b[1..])))
  }

  /** Strict lexicographic order on paths, component by component. */
  predicate PathLt(p: Path, q: Path)
    decreases |p|
  {
    0 < |q| && (|p| == 0 || StrLt(p[0], q[0]) || (p[0] == q[0] && PathLt(p[1..], q[1..])))
  }

  lemma {:induction false} StrLtIrreflexive(a: string)
    ensures !StrLt(a, a)
    decreases |a|
  {
    if 0 < |a| {
      StrLtIrreflexive(a[1..]);
    }
  }

  lemma {:induction false} StrLtTransitive(a: string, b: string, c: string)
    requires StrLt(a, b) && StrLt(b, c)
    ensures StrLt(a, c)
    decreases |a|
  {
    if 0 < |a| && a[0] == b[0] && b[0] == c[0] {
      StrLtTransitive(a[1..], b[1..], c[1..]);
    }
  }

  lemma {:induction false} StrLtTotal(a: string, b: string)
    requires a != b
    ensures StrLt(a, b) || StrLt(b, a)
    decreases |a|
  {
    if 0 < |a| && 0 < |b| && a[0] == b[0] {
      assert a == [a[0]] + a[1..] && b == [b[0]] + b[1..];
      StrLtTotal(a[1..], b[1..]);
    }
  }

  lemma StrLtAsymmetric(a: string, b: string)
    requires StrLt(a, b)
    ensures !StrLt(b, a)
  {
    if StrLt(b, a) {
      StrLtTransitive(a, b, a);
      StrLtIrreflexive(a);
    }
  }

  lemma {:induction false} PathLtIrreflexive(p: Path)
    ensures !PathLt(p, p)
    decreases |p|
  {
    if 0 < |p| {
      StrLtIrreflexive(p[0]);
      PathLtIrreflexive(p[1..]);
    }
  }

  lemma {:induction false} PathLtTransitive(p: Path, q: Path, r: Path)
    requires PathLt(p, q) && PathLt(q, r)
    ensures PathLt(p, r)
    decreases |p|
  {
    if 0 < |p| {
      if StrLt(p[0], q[0]) && StrLt(q[0], r[0]) {
        StrLtTransitive(p[0], q[0], r[0]);
      } else if p[0] == q[0] && q[0] == r[0] {
        PathLtTransitive(p[1..], q[1..], r[1..]);
      }
    }
  }

  lemma {:induction false} PathLtTotal(p: Path, q: Path)
    requires p != q
    ensures PathLt(p, q) || PathLt(q, p)
    decreases |p|
  {
    if 0 < |p| && 0 < |q| {
      if p[0] == q[0] {
        assert p == [p[0]] + p[1..] && q == [q[0]] + q[1..];
        PathLtTotal(p[1..], q[1..]);
      } else {
        StrLtTotal(p[0], q[0]);
      }
    }
  }

  lemma PathLtAsymmetric(p: Path, q: Path)
    requires PathLt(p, q)
    ensures !PathLt(q, p)
  {
    if PathLt(q, p) {
      PathLtTransitive(p, q, p);
      PathLtIrreflexive(p);
    }
  }

  /** A common leading part does not change how two paths compare; this is why
      paths relative to one directory sort as the full paths do. */
  lemma {:induction false} PathLtUnderPrefix(pre: Path, p: Path, q: Path)
    ensures PathLt(pre + p, pre + q) <==> PathLt(p, q)
    decreases |pre|
  {
    if 0 < |pre| {
      assert (pre + p)[0] == pre[0] && (pre + q)[0] == pre[0];
      assert (pre + p)[1..] == pre[1..] + p && (pre + q)[1..] == pre[1..] + q;
      StrLtIrreflexive(pre[0]);
      PathLtUnderPrefix(pre[1..], p, q);
      assert PathLt(pre + p, pre + q) == PathLt(pre[1..] + p, pre[1..] + q);
    } else {
      assert pre + p == p && pre + q == q;
    }
  }

  predicate StrictlyIncreasing(xs: seq<Path>) {
    forall i, j :: 0 <= i < j < |xs| ==> PathLt(xs[i], xs[j])
  }

  predicate StrictlyDecreasing(xs: seq<Path>) {
    forall i, j :: 0 <= i < j < |xs| ==> PathLt(xs[j], xs[i])
  }

  predicate IsLeast(m: Path, s: set<Path>) {
    m in s && forall y :: y in s && y != m ==> PathLt(m, y)
  }

  lemma {:induction false} LeastOf(s: set<Path>) returns (m: Path)
    requires s != {}
    ensures IsLeast(m, s)
    decreases |s|
  {
    var x :| x in s;
    if s == {x} {
      m := x;
    } else {
      var m' := LeastOf(s - {x});
      if PathLt(x, m') {
        m := x;
        forall y | y in s && y != x
          ensures PathLt(x, y)
        {
          if y != m' {
            PathLtTransitive(x, m', y);
          }
        }
      } else {
        PathLtTotal(x, m');
        m := m';
      }
    }
  }

  lemma LeastExists(s: set<Path>)
    requires s != {}
    ensures exists m :: IsLeast(m, s)
  {
    var m := LeastOf(s);
  }

  lemma LeastUnique(s: set<Path>)
    ensures forall m, m' :: IsLeast(m, s) && IsLeast(m', s) ==> m == m'
  {
    forall m, m' | IsLeast(m, s) && IsLeast(m', s)
      ensures m == m'
    {
      if m != m' {
        PathLtAsymmetric(m, m');
      }
    }
  }

  /** `sorted(s)` for a finite set of paths: the elements of `s`, each once,
      in increasing order. */
  function SortedSeq(s: set<Path>): (r: seq<Path>)
    ensures StrictlyIncreasing(r)
    ensures forall p :: p in r <==> p in s
    ensures |r| == |s|
    decreases |s|
  {
    if s == {} then []
    else
      LeastExists(s);
      LeastUnique(s);
      var m :| IsLeast(m, s);
      var rest := SortedSeq(s - {m});
      assert forall k :: 0 <= k < |rest| ==> rest[k] in rest && rest[k] in s - {m};
      [m] + rest
  }

  /** `reversed(xs)`, as `sorted(..., reverse=True)` lists its result. */
  function Reversed(xs: seq<Path>): (r: seq<Path>)
    ensures |r| == |xs|
    ensures forall i :: 0 <= i < |xs| ==> r[i] == xs[|xs| - 1 - i]
  {
    seq(|xs|, i requires 0 <= i < |xs| => xs[|xs| - 1 - i])
  }

  lemma ReversedDecreasing(xs: seq<Path>)
    requires StrictlyIncreasing(xs)
    ensures StrictlyDecreasing(Reversed(xs))
    ensures forall p :: p in Reversed(xs) <==> p in xs
  {
    var r := Reversed(xs);
    forall p | p in xs
      ensures p in r
    {
      var k :| 0 <= k < |xs| && xs[k] == p;
      assert r[|xs| - 1 - k] == p;
    }
  }

  /** Elements of a strictly increasing sequence are pairwise distinct. */
  lemma IncreasingDistinct(xs: seq<Path>, i: int, j: int)
    requires StrictlyIncreasing(xs)
    requires 0 <= i < |xs| && 0 <= j < |xs| && i != j
    ensures xs[i] != xs[j]
  {
    if i < j {
      PathLtIrreflexive(xs[i]);
    } else {
      PathLtIrreflexive(xs[j]);
    }
  }

  /** A path below every element of a strictly increasing sequence can go in front. */
  lemma ConsIncreasing(x: Path, xs: seq<Path>)
    requires StrictlyIncreasing(xs)
    requires forall j :: 0 <= j < |xs| ==> PathLt(x, xs[j])
    ensures StrictlyIncreasing([x] + xs)
  {
    var r := [x] + xs;
    forall a, b | 0 <= a < b < |r|
      ensures PathLt(r[a], r[b])
    {
      assert r[b] == xs[b - 1];
      if 0 < a {
        assert r[a] == xs[a - 1];
      }
    }
  }
}
