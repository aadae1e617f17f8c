/**
 Python's ordering of `str` values and the `sorted()` of a list of keys.
 Python compares strings code point by code point, a proper prefix coming
 first; `sorted` is modelled by insertion sort, and `SortedUnique` shows that
 any sort returns the same list, so the choice of algorithm does not matter.
 */
module Ordering {

  /** `a <= b` on Python `str`. */
  predicate LexLeq(a: string, b: string)
    decreases |a|
  {
    |a| == 0 || (|b| > 0 && (a[0] < b[0] || (a[0] == b[0] && LexLeq(a[1..], b[1..]))))
  }

  lemma {:induction false} LexLeqRefl(a: string)
    ensures LexLeq(a, a)
    decreases |a|
  {
    if |a| > 0 {
      LexLeqRefl(a[1..]);
    }
  }

  lemma {:induction false} LexLeqTotal(a: string, b: string)
    ensures LexLeq(a, b) || LexLeq(b, a)
    decreases |a|
  {
    if |a| > 0 && |b| > 0 && a[0] == b[0] {
      LexLeqTotal(a[1..], b[1..]);
    }
  }

  lemma {:induction false} LexLeqAntisymmetric(a: string, b: string)
    requires LexLeq(a, b) && LexLeq(b, a)
    ensures a == b
    decreases |a|
  {
    if |a| > 0 {
      LexLeqAntisymmetric(a[1..], b[1..]);
      assert a == [a[0]] + a[1..] && b == [b[0]] + b[1..];
    }
  }

  lemma {:induction false} LexLeqTransitive(a: string, b: string, c: string)
    requires LexLeq(a, b) && LexLeq(b, c)
    ensures LexLeq(a, c)
    decreases |a|
  {
    if |a| > 0 && a[0] == b[0] && b[0] == c[0] {
      LexLeqTransitive(a[1..], b[1..], c[1..]);
    }
  }

  /** A common prefix does not change how two strings compare. */
  lemma {:induction false} LexLeqPrefix(p: string, a: string, b: string)
    requires LexLeq(a, b)
    ensures LexLeq(p + a, p + b)
    decreases |p|
  {
    if |p| > 0 {
      assert (p + a)[1..] == p[1..] + a && (p + b)[1..] == p[1..] + b;
      assert (p + a)[0] == p[0] == (p + b)[0] && |p + b| > 0;
      LexLeqPrefix(p[1..], a, b);
    } else {
      assert p + a == a && p + b == b;
    }
  }

  /** Ascending order. */
  predicate Sorted(s: seq<string>) {
    forall i, j :: 0 <= i < j < |s| ==> LexLeq(s[i], s[j])
  }

  /** `k` placed before the first element it does not exceed. */
  function Insert(k: string, ks: seq<string>): (r: seq<string>)
    ensures multiset(r) == multiset(ks) + multiset{k}
  {
    if ks == [] then [k]
    else if LexLeq(k, ks[0]) then [k] + ks
    else assert ks == [ks[0]] + ks[1..]; [ks[0]] + Insert(k, ks[1..])
  }

  lemma {:induction false} InsertSorted(k: string, ks: seq<string>)
    requires Sorted(ks)
    ensures Sorted(Insert(k, ks))
    decreases |ks|
  {
    if ks == [] {
    } else if LexLeq(k, ks[0]) {
      forall j | 0 < j < |ks| ensures LexLeq(k, ks[j]) {
        LexLeqTransitive(k, ks[0], ks[j]);
      }
    } else {
      LexLeqTotal(k, ks[0]);
      var tail := Insert(k, ks[1..]);
      InsertSorted(k, ks[1..]);
      forall j | 0 <= j < |tail| ensures LexLeq(ks[0], tail[j]) {
        assert tail[j] in multiset(tail);
        if tail[j] != k {
          assert tail[j] in multiset(ks[1..]);
          var m :| 0 <= m < |ks[1..]| && ks[1..][m] == tail[j];
          assert ks[m + 1] == tail[j];
        }
      }
    }
  }

  /** `sorted(ks)`: the same keys in ascending order. */
  function Sort(ks: seq<string>): (r: seq<string>)
    ensures multiset(r) == multiset(ks)
    ensures Sorted(r)
  {
    if ks == [] then []
    else
      var t := Sort(ks[1..]);
      InsertSorted(ks[0], t);
      assert ks == [ks[0]] + ks[1..];
      Insert(ks[0], t)
  }

  /** The first element of an ascending list is its least. */
  lemma SortedHeadLeast(a: seq<string>, x: string)
    requires Sorted(a) && x in a
    ensures LexLeq(a[0], x)
  {
    var i :| 0 <= i < |a| && a[i] == x;
    if i == 0 {
      LexLeqRefl(x);
    }
  }

  /** Two ascending orders of the same keys are the same list. */
  lemma {:induction false} SortedUnique(a: seq<string>, b: seq<string>)
    requires Sorted(a) && Sorted(b) && multiset(a) == multiset(b)
    ensures a == b
    decreases |a|
  {
    assert |b| == |multiset(b)| == |multiset(a)| == |a|;
    if a != [] {
      SortedHeadsMeet(a, b);
      DropHead(a);
      DropHead(b);
      SortedTail(a);
      SortedTail(b);
      SortedUnique(a[1..], b[1..]);
      assert a == [a[0]] + a[1..] && b == [b[0]] + b[1..];
    }
  }

  /** Two non-empty ascending orders of the same keys start alike. */
  lemma SortedHeadsMeet(a: seq<string>, b: seq<string>)
    requires Sorted(a) && Sorted(b) && multiset(a) == multiset(b) && a != [] && b != []
    ensures a[0] == b[0]
  {
    assert a[0] in multiset(b) && b[0] in multiset(a);
    SortedHeadLeast(a, b[0]);
    SortedHeadLeast(b, a[0]);
    LexLeqAntisymmetric(a[0], b[0]);
  }

  lemma DropHead(a: seq<string>)
    requires a != []
    ensures multiset(a[1..]) == multiset(a) - multiset{a[0]}
  {
    assert a == [a[0]] + a[1..];
  }

  lemma SortedTail(a: seq<string>)
    requires Sorted(a) && a != []
    ensures Sorted(a[1..])
  {
    forall i, j | 0 <= i < j < |a[1..]| ensures LexLeq(a[1..][i], a[1..][j]) {
      assert a[1..][i] == a[i + 1] && a[1..][j] == a[j + 1];
    }
  }

  /** Sorting keys that are all different gives keys that are all different. */
  lemma SortKeepsDistinct(ks: seq<string>)
    requires forall i, j :: 0 <= i < j < |ks| ==> ks[i] != ks[j]
    ensures forall i, j :: 0 <= i < j < |Sort(ks)| ==> Sort(ks)[i] != Sort(ks)[j]
  {
    var r := Sort(ks);
    forall x ensures multiset(ks)[x] <= 1 {
      DistinctCount(ks, x);
    }
    forall i, j | 0 <= i < j < |r| ensures r[i] != r[j] {
      SingleCountApart(r, i, j);
    }
  }

  lemma {:induction false} DistinctCount(ks: seq<string>, x: string)
    requires forall i, j :: 0 <= i < j < |ks| ==> ks[i] != ks[j]
    ensures multiset(ks)[x] <= 1
    decreases |ks|
  {
    if ks != [] {
      assert ks == [ks[0]] + ks[1..];
      DistinctCount(ks[1..], x);
      if ks[0] == x {
        assert x !in ks[1..];
      }
    }
  }

  lemma SingleCountApart(r: seq<string>, i: nat, j: nat)
    requires i < j < |r| && multiset(r)[r[i]] <= 1
    ensures r[i] != r[j]
  {
    assert r == r[..i] + [r[i]] + r[i + 1..j] + [r[j]] + r[j + 1..];
  }
}
