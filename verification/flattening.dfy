/**
 `flatten_dict(data, prefix="")`: the (dotted path, leaf) pairs of a nested
 report value. `None` yields nothing, a value that is not a dict yields one
 pair at the current path, and a dict is walked in ascending key order, the
 path of a child being its key when the current path is empty and
 `path.key` otherwise. Lists are leaves; the walk never enters them.
 */
module Flattening {
  import opened Ordering
  import opened Values

  /** `sorted(d)`: the keys of a dict in ascending order. */
  function SortedKeys(es: seq<(string, Value)>): (ks: seq<string>)
    ensures multiset(ks) == multiset(Keys(es)) && Sorted(ks)
    ensures |ks| == |es| && forall j :: 0 <= j < |ks| ==> ks[j] in Keys(es)
  {
    var ks := Sort(Keys(es));
    assert |ks| == |multiset(ks)| == |multiset(Keys(es))| == |es|;
    assert forall j :: 0 <= j < |ks| ==> ks[j] in multiset(ks);
    ks
  }

  /** The path of child `k`: `str(k)` when `prefix` is empty (falsy), `prefix.k` otherwise. */
  function Child(prefix: string, k: string): (path: string)
    ensures prefix <= path
  {
    if prefix == "" then k else prefix + "." + k
  }

  /** The pairs `flatten_dict(v, prefix)` yields, in order. */
  function Flatten(v: Value, prefix: string): seq<(string, Value)>
    decreases v, 1
  {
    match v
    case Null => []
    case Dict(es) => FlattenKeys(v, SortedKeys(es), prefix)
    case _ => [(prefix, v)]
  }

  /** The pairs yielded by the loop over `keys` of the dict `d`. */
  function FlattenKeys(d: Value, keys: seq<string>, prefix: string): seq<(string, Value)>
    requires d.Dict? && forall j :: 0 <= j < |keys| ==> keys[j] in Keys(d.entries)
    decreases d, 0, |keys|
  {
    if keys == [] then []
    else Flatten(Lookup(d.entries, keys[0]), Child(prefix, keys[0])) + FlattenKeys(d, keys[1..], prefix)
  }

  /** Every value in `r` is a leaf and every path in `r` starts with `p`. */
  predicate LeavesBelow(r: seq<(string, Value)>, p: string) {
    forall i :: 0 <= i < |r| ==> IsLeaf(r[i].1) && p <= r[i].0
  }

  /** What every child path of `prefix` starts with: nothing at top level, `prefix.` below it. */
  function Stem(prefix: string): (s: string)
    ensures prefix <= s && forall k :: s <= Child(prefix, k)
  {
    if prefix == "" then "" else prefix + "."
  }

  /**
   Every yielded value is a leaf, and every path extends the prefix, by
   `prefix.` when a dict is walked below a non-empty prefix.
   */
  lemma {:induction false} FlattenShape(v: Value, prefix: string)
    ensures LeavesBelow(Flatten(v, prefix), prefix)
    ensures v.Dict? ==> LeavesBelow(Flatten(v, prefix), Stem(prefix))
    decreases v, 1
  {
    match v
    case Null =>
    case Dict(es) =>
      var ks := SortedKeys(es);
      assert Flatten(v, prefix) == FlattenKeys(v, ks, prefix);
      FlattenKeysShape(v, ks, prefix);
      LeavesBelowWeaken(Flatten(v, prefix), prefix, Stem(prefix));
    case _ =>
      assert Flatten(v, prefix) == [(prefix, v)];
  }

  lemma {:induction false} FlattenKeysShape(d: Value, keys: seq<string>, prefix: string)
    requires d.Dict? && forall j :: 0 <= j < |keys| ==> keys[j] in Keys(d.entries)
    ensures LeavesBelow(FlattenKeys(d, keys, prefix), Stem(prefix))
    decreases d, 0, |keys|
  {
    if keys != [] {
      var q := Child(prefix, keys[0]);
      var head := Flatten(Lookup(d.entries, keys[0]), q);
      FlattenShape(Lookup(d.entries, keys[0]), q);
      LeavesBelowWeaken(head, Stem(prefix), q);
      FlattenKeysShape(d, keys[1..], prefix);
      LeavesBelowConcat(head, FlattenKeys(d, keys[1..], prefix), Stem(prefix));
    }
  }

  lemma LeavesBelowWeaken(r: seq<(string, Value)>, p: string, q: string)
    requires p <= q && LeavesBelow(r, q)
    ensures LeavesBelow(r, p)
  {
    forall i | 0 <= i < |r| ensures p <= r[i].0 {
      var x := r[i].0;
      assert x[..|q|] == q;
      assert x[..|p|] == q[..|p|];
    }
  }

  lemma LeavesBelowConcat(a: seq<(string, Value)>, b: seq<(string, Value)>, p: string)
    requires LeavesBelow(a, p) && LeavesBelow(b, p)
    ensures LeavesBelow(a + b, p)
  {
    forall i | |a| <= i < |a + b| ensures (a + b)[i] == b[i - |a|] {}
  }

  // ---------------------------------------------------------------------------
  // Counting leaves
  // ---------------------------------------------------------------------------

  /**
   The leaves reachable from `v` through dicts, counted in insertion order:
   `None` counts nothing, a dict the leaves of its values, anything else one.
   */
  function LeafCount(v: Value): nat
    decreases v, 1
  {
    match v
    case Null => 0
    case Dict(es) => EntriesLeafCount(v, 0)
    case _ => 1
  }

  /** Leaves under the entries of `d` from index `i` on. */
  function EntriesLeafCount(d: Value, i: nat): nat
    requires d.Dict? && i <= |d.entries|
    decreases d, 0, |d.entries| - i
  {
    if i == |d.entries| then 0 else LeafCount(d.entries[i].1) + EntriesLeafCount(d, i + 1)
  }

  /** Leaves under the values of `d` stored at `keys`. */
  function KeysLeafCount(d: Value, keys: seq<string>): nat
    requires d.Dict? && forall j :: 0 <= j < |keys| ==> keys[j] in Keys(d.entries)
  {
    if keys == [] then 0 else LeafCount(Lookup(d.entries, keys[0])) + KeysLeafCount(d, keys[1..])
  }

  lemma {:induction false} KeysLeafCountInsert(d: Value, k: string, ks: seq<string>)
    requires d.Dict? && k in Keys(d.entries) && forall j :: 0 <= j < |ks| ==> ks[j] in Keys(d.entries)
    ensures forall j :: 0 <= j < |Insert(k, ks)| ==> Insert(k, ks)[j] in Keys(d.entries)
    ensures KeysLeafCount(d, Insert(k, ks)) == LeafCount(Lookup(d.entries, k)) + KeysLeafCount(d, ks)
    decreases |ks|
  {
    var r := Insert(k, ks);
    forall j | 0 <= j < |r| ensures r[j] in Keys(d.entries) {
      assert r[j] in multiset(r);
    }
    if ks != [] && !LexLeq(k, ks[0]) {
      KeysLeafCountInsert(d, k, ks[1..]);
      assert r[1..] == Insert(k, ks[1..]);
    } else if ks != [] {
      assert r[1..] == ks;
    }
  }

  /** The order in which the keys are visited does not change the count. */
  lemma {:induction false} KeysLeafCountSort(d: Value, ks: seq<string>)
    requires d.Dict? && forall j :: 0 <= j < |ks| ==> ks[j] in Keys(d.entries)
    ensures forall j :: 0 <= j < |Sort(ks)| ==> Sort(ks)[j] in Keys(d.entries)
    ensures KeysLeafCount(d, Sort(ks)) == KeysLeafCount(d, ks)
    decreases |ks|
  {
    if ks != [] {
      KeysLeafCountSort(d, ks[1..]);
      KeysLeafCountInsert(d, ks[0], Sort(ks[1..]));
    }
  }

  /** With distinct keys, visiting every key counts every entry once. */
  lemma {:induction false} KeysLeafCountEntries(d: Value, i: nat)
    requires d.Dict? && DistinctKeys(d.entries) && i <= |d.entries|
    ensures forall j :: 0 <= j < |Keys(d.entries)[i..]| ==> Keys(d.entries)[i..][j] in Keys(d.entries)
    ensures KeysLeafCount(d, Keys(d.entries)[i..]) == EntriesLeafCount(d, i)
    decreases |d.entries| - i
  {
    var ks := Keys(d.entries);
    KeysSuffixIn(d.entries, i);
    if i < |d.entries| {
      KeysSuffixIn(d.entries, i + 1);
      KeysLeafCountEntries(d, i + 1);
      LookupEntry(d.entries, i);
      assert ks[i..][0] == d.entries[i].0 && ks[i..][1..] == ks[i + 1..];
      assert KeysLeafCount(d, ks[i..]) == LeafCount(d.entries[i].1) + KeysLeafCount(d, ks[i + 1..]);
    }
  }

  lemma KeysSuffixIn(es: seq<(string, Value)>, i: nat)
    requires i <= |es|
    ensures forall j :: 0 <= j < |Keys(es)[i..]| ==> Keys(es)[i..][j] in Keys(es)
  {
    var ks := Keys(es);
    forall j | 0 <= j < |ks[i..]| ensures ks[i..][j] in ks {
      assert ks[i..][j] == ks[i + j];
    }
  }

  /**
   `flatten_dict` yields one pair per leaf reachable through dicts: `None`
   yields none, a dict the pairs of its values, any other value (a list
   included) exactly one.
   */
  lemma {:induction false} FlattenLength(v: Value, prefix: string)
    requires WellFormed(v)
    ensures |Flatten(v, prefix)| == LeafCount(v)
    decreases v, 1
  {
    match v
    case Dict(es) =>
      var ks := SortedKeys(es);
      FlattenKeysLength(v, ks, prefix);
      KeysLeafCountSort(v, Keys(es));
      KeysLeafCountEntries(v, 0);
      assert Keys(es)[0..] == Keys(es);
    case _ =>
  }

  lemma {:induction false} FlattenKeysLength(d: Value, keys: seq<string>, prefix: string)
    requires d.Dict? && WellFormed(d) && forall j :: 0 <= j < |keys| ==> keys[j] in Keys(d.entries)
    ensures |FlattenKeys(d, keys, prefix)| == KeysLeafCount(d, keys)
    decreases d, 0, |keys|
  {
    if keys != [] {
      var child := Lookup(d.entries, keys[0]);
      var i :| 0 <= i < |d.entries| && d.entries[i] == (keys[0], child);
      assert WellFormed(d.entries[i].1);
      FlattenLength(child, Child(prefix, keys[0]));
      FlattenKeysLength(d, keys[1..], prefix);
    }
  }

  // ---------------------------------------------------------------------------
  // Order
  // ---------------------------------------------------------------------------

  lemma {:induction false} KeysConcat(a: seq<(string, Value)>, b: seq<(string, Value)>)
    ensures Keys(a + b) == Keys(a) + Keys(b)
  {
    forall i | 0 <= i < |a + b| ensures Keys(a + b)[i] == (Keys(a) + Keys(b))[i] {
      if i < |a| {
        assert (a + b)[i] == a[i];
      } else {
        assert (a + b)[i] == b[i - |a|];
      }
    }
  }

  /** The keys of two joined entry lists, counted with multiplicity. */
  lemma KeysMultisetConcat(a: seq<(string, Value)>, b: seq<(string, Value)>)
    ensures multiset(Keys(a + b)) == multiset(Keys(a)) + multiset(Keys(b))
  {
    KeysConcat(a, b);
  }

  /** Taking the same element out of two reorderings of one sequence leaves two reorderings. */
  lemma TakeOutPermuted<T>(a: seq<T>, b: seq<T>, j: nat)
    requires 0 < |a| && j < |b| && b[j] == a[0] && multiset(a) == multiset(b)
    ensures multiset(a[1..]) == multiset(b[..j] + b[j + 1..])
  {
    assert a == [a[0]] + a[1..];
    assert b == b[..j] + [b[j]] + b[j + 1..];
    assert multiset(a[1..]) == multiset(a) - multiset{a[0]};
    assert multiset(b[..j] + b[j + 1..]) == multiset(b) - multiset{b[j]};
  }

  /** Reordering the entries of a sequence reorders its keys the same way. */
  lemma {:induction false} PermutedKeys(es1: seq<(string, Value)>, es2: seq<(string, Value)>)
    requires multiset(es1) == multiset(es2)
    ensures multiset(Keys(es1)) == multiset(Keys(es2))
    decreases |es1|
  {
    if es1 == [] {
      assert |es2| == |multiset(es2)| == 0;
    } else {
      var e := es1[0];
      assert e in multiset(es2);
      var j :| 0 <= j < |es2| && es2[j] == e;
      var left, right := es2[..j], es2[j + 1..];
      TakeOutPermuted(es1, es2, j);
      PermutedKeys(es1[1..], left + right);
      KeysMultisetConcat(left, right);
      KeysHead(es1);
      KeysSplitAt(es2, j);
    }
  }

  /** The keys of an entry list are its first key and the keys of the rest. */
  lemma KeysHead(es: seq<(string, Value)>)
    requires es != []
    ensures multiset(Keys(es)) == multiset{es[0].0} + multiset(Keys(es[1..]))
  {
    assert Keys(es) == [es[0].0] + Keys(es[1..]);
  }

  /** The keys of an entry list split around entry `j`. */
  lemma KeysSplitAt(es: seq<(string, Value)>, j: nat)
    requires j < |es|
    ensures multiset(Keys(es)) == multiset(Keys(es[..j])) + multiset{es[j].0} + multiset(Keys(es[j + 1..]))
  {
    assert es == es[..j] + es[j..];
    KeysMultisetConcat(es[..j], es[j..]);
    KeysHead(es[j..]);
    assert es[j..][1..] == es[j + 1..];
  }

  /** Two dicts holding the same entries look every key up alike. */
  lemma LookupPermuted(es1: seq<(string, Value)>, es2: seq<(string, Value)>, k: string)
    requires DistinctKeys(es2) && multiset(es1) == multiset(es2) && k in Keys(es1)
    ensures k in Keys(es2) && Lookup(es1, k) == Lookup(es2, k)
  {
    var v := Lookup(es1, k);
    assert (k, v) in multiset(es2);
    var j :| 0 <= j < |es2| && es2[j] == (k, v);
    LookupEntry(es2, j);
  }

  /**
   Python's `==` on report values, as far as dicts go: two dicts are equal when
   they hold the same keys, in whatever insertion order, and the values under
   each key are again equal in this sense. Any other value must be identical.
   */
  predicate SameUpToOrder(v: Value, w: Value)
    decreases v
  {
    match v
    case Dict(es) =>
      w.Dict? && DistinctKeys(es) && DistinctKeys(w.entries) &&
      multiset(Keys(es)) == multiset(Keys(w.entries)) &&
      forall i :: 0 <= i < |es| ==>
        es[i].0 in Keys(w.entries) && SameUpToOrder(es[i].1, Lookup(w.entries, es[i].0))
    case _ => v == w
  }

  /**
   The output does not depend on insertion order at any depth: two values
   that are equal up to the order of their dicts' entries flatten to the same
   pairs, because every dict is walked in `sorted` key order.
   */
  lemma {:induction false} FlattenInsertionOrder(v: Value, w: Value, prefix: string)
    requires SameUpToOrder(v, w)
    ensures Flatten(v, prefix) == Flatten(w, prefix)
    decreases v, 1
  {
    if v.Dict? {
      SortedUnique(SortedKeys(v.entries), SortedKeys(w.entries));
      FlattenKeysSame(v, w, SortedKeys(v.entries), prefix);
    }
  }

  lemma {:induction false} FlattenKeysSame(d1: Value, d2: Value, keys: seq<string>, prefix: string)
    requires d1.Dict? && SameUpToOrder(d1, d2)
    requires forall j :: 0 <= j < |keys| ==> keys[j] in Keys(d1.entries) && keys[j] in Keys(d2.entries)
    ensures FlattenKeys(d1, keys, prefix) == FlattenKeys(d2, keys, prefix)
    decreases d1, 0, |keys|
  {
    if keys != [] {
      SameAt(d1, d2, keys[0]);
      FlattenInsertionOrder(Lookup(d1.entries, keys[0]), Lookup(d2.entries, keys[0]), Child(prefix, keys[0]));
      FlattenKeysSame(d1, d2, keys[1..], prefix);
    }
  }

  /** In two dicts equal up to order, `d1[k]` and `d2[k]` are again equal up to order. */
  lemma SameAt(d1: Value, d2: Value, k: string)
    requires d1.Dict? && SameUpToOrder(d1, d2) && k in Keys(d1.entries)
    ensures k in Keys(d2.entries) && Lookup(d1.entries, k) < d1
    ensures SameUpToOrder(Lookup(d1.entries, k), Lookup(d2.entries, k))
  {
    var i :| 0 <= i < |d1.entries| && d1.entries[i].0 == k;
    LookupEntry(d1.entries, i);
  }

  /** Every well-formed value is equal up to order to itself. */
  lemma {:induction false} SameUpToOrderRefl(v: Value)
    requires WellFormed(v)
    ensures SameUpToOrder(v, v)
    decreases v
  {
    if v.Dict? {
      var es := v.entries;
      forall i | 0 <= i < |es| ensures es[i].0 in Keys(es) && SameUpToOrder(es[i].1, Lookup(es, es[i].0)) {
        LookupEntry(es, i);
        SameUpToOrderRefl(es[i].1);
      }
    }
  }

  /** Two well-formed dicts holding the same entries, in any order, are equal up to order. */
  lemma EntriesPermuted(es1: seq<(string, Value)>, es2: seq<(string, Value)>)
    requires DistinctKeys(es1) && DistinctKeys(es2) && multiset(es1) == multiset(es2)
    requires forall i :: 0 <= i < |es1| ==> WellFormed(es1[i].1)
    ensures SameUpToOrder(Dict(es1), Dict(es2))
  {
    PermutedKeys(es1, es2);
    forall i | 0 <= i < |es1| ensures es1[i].0 in Keys(es2) && SameUpToOrder(es1[i].1, Lookup(es2, es1[i].0)) {
      LookupEntry(es1, i);
      LookupPermuted(es1, es2, es1[i].0);
      SameUpToOrderRefl(es1[i].1);
    }
  }

  /**
   A nested dict may be reordered too: `{a: {x: X, y: Y}}` and
   `{a: {y: Y, x: X}}` flatten to the same pairs.
   */
  lemma NestedReorder(a: string, x: string, y: string, vx: Value, vy: Value, prefix: string)
    requires x != y && WellFormed(vx) && WellFormed(vy)
    ensures Flatten(Dict([(a, Dict([(x, vx), (y, vy)]))]), prefix)
         == Flatten(Dict([(a, Dict([(y, vy), (x, vx)]))]), prefix)
  {
    var e1, e2 := [(x, vx), (y, vy)], [(y, vy), (x, vx)];
    assert multiset(e1) == multiset(e2);
    EntriesPermuted(e1, e2);
    SingleEntrySame(a, Dict(e1), Dict(e2));
    FlattenInsertionOrder(Dict([(a, Dict(e1))]), Dict([(a, Dict(e2))]), prefix);
  }

  /** Two one-entry dicts under the same key are equal up to order when their values are. */
  lemma SingleEntrySame(a: string, u: Value, w: Value)
    requires SameUpToOrder(u, w)
    ensures SameUpToOrder(Dict([(a, u)]), Dict([(a, w)]))
  {
    assert Keys([(a, u)]) == [a] == Keys([(a, w)]);
    assert Lookup([(a, w)], a) == w;
  }

  lemma {:induction false} FlattenKeysOfLeaves(d: Value, keys: seq<string>, prefix: string)
    requires d.Dict? && forall i :: 0 <= i < |d.entries| ==> IsLeaf(d.entries[i].1)
    requires forall j :: 0 <= j < |keys| ==> keys[j] in Keys(d.entries)
    ensures var r := FlattenKeys(d, keys, prefix);
      |r| == |keys| &&
      forall j :: 0 <= j < |keys| ==> r[j] == (Child(prefix, keys[j]), Lookup(d.entries, keys[j]))
    decreases |keys|
  {
    if keys != [] {
      var v := Lookup(d.entries, keys[0]);
      assert IsLeaf(v) by {
        var i :| 0 <= i < |d.entries| && d.entries[i] == (keys[0], v);
        assert IsLeaf(d.entries[i].1);
      }
      FlattenLeaf(v, Child(prefix, keys[0]));
      FlattenKeysOfLeaves(d, keys[1..], prefix);
      var tail := FlattenKeys(d, keys[1..], prefix);
      assert FlattenKeys(d, keys, prefix) == [(Child(prefix, keys[0]), v)] + tail;
      LeafPairsCons(d, keys, prefix, tail);
    }
  }

  /** The pair of the first key, then the pairs of the other keys, are the pairs of all the keys. */
  lemma LeafPairsCons(d: Value, keys: seq<string>, prefix: string, tail: seq<(string, Value)>)
    requires d.Dict? && keys != [] && forall j :: 0 <= j < |keys| ==> keys[j] in Keys(d.entries)
    requires |tail| == |keys| - 1
    requires forall j :: 0 <= j < |tail| ==> tail[j] == (Child(prefix, keys[1..][j]), Lookup(d.entries, keys[1..][j]))
    ensures var r := [(Child(prefix, keys[0]), Lookup(d.entries, keys[0]))] + tail;
      |r| == |keys| && forall j :: 0 <= j < |keys| ==> r[j] == (Child(prefix, keys[j]), Lookup(d.entries, keys[j]))
  {
    var r := [(Child(prefix, keys[0]), Lookup(d.entries, keys[0]))] + tail;
    forall j | 0 < j < |keys| ensures r[j] == (Child(prefix, keys[j]), Lookup(d.entries, keys[j])) {
      assert r[j] == tail[j - 1] && keys[1..][j - 1] == keys[j];
    }
  }

  /** Children of one prefix are ordered as their keys are. */
  lemma ChildOrdered(prefix: string, a: string, b: string)
    requires LexLeq(a, b)
    ensures LexLeq(Child(prefix, a), Child(prefix, b))
  {
    if prefix != "" {
      LexLeqPrefix(prefix + ".", a, b);
      assert prefix + "." + a == (prefix + ".") + a;
    }
  }

  /**
   A dict whose values are all leaves flattens to one pair per key, in
   ascending key order: the pair of key `k` is `(Child(prefix, k), d[k])`,
   and the paths come out ascending.
   */
  lemma FlattenLeafDict(es: seq<(string, Value)>, prefix: string)
    requires forall i :: 0 <= i < |es| ==> IsLeaf(es[i].1)
    ensures var r, ks := Flatten(Dict(es), prefix), SortedKeys(es);
      |r| == |es| && |ks| == |es| &&
      (forall j :: 0 <= j < |r| ==> r[j] == (Child(prefix, ks[j]), Lookup(es, ks[j]))) &&
      Sorted(Keys(r))
  {
    var ks := SortedKeys(es);
    FlattenKeysOfLeaves(Dict(es), ks, prefix);
    ChildrenSorted(prefix, ks, Flatten(Dict(es), prefix));
  }

  /** Pairs at the children of ascending keys have ascending paths. */
  lemma ChildrenSorted(prefix: string, ks: seq<string>, r: seq<(string, Value)>)
    requires Sorted(ks) && |r| == |ks| && forall j :: 0 <= j < |r| ==> r[j].0 == Child(prefix, ks[j])
    ensures Sorted(Keys(r))
  {
    var ps := Keys(r);
    forall i, j | 0 <= i < j < |ps| ensures LexLeq(ps[i], ps[j]) {
      ChildOrdered(prefix, ks[i], ks[j]);
    }
  }

  // ---------------------------------------------------------------------------
  // Paths
  // ---------------------------------------------------------------------------

  /** `x` is the path `q` itself or a path below it. */
  predicate Under(x: string, q: string) {
    x == q || q + "." <= x
  }

  /** A key that can be read back from a dotted path: non-empty and without a dot. */
  predicate PlainKey(k: string) {
    k != "" && '.' !in k
  }

  /** Every key of every dict reachable through dicts is plain. */
  predicate PlainKeys(v: Value) {
    match v
    case Dict(es) => forall i :: 0 <= i < |es| ==> PlainKey(es[i].0) && PlainKeys(es[i].1)
    case _ => true
  }

  /** Every pair of `flatten_dict(v, q)` has a path at or below `q`, when `q` is not empty. */
  lemma FlattenUnder(v: Value, q: string)
    requires q != ""
    ensures forall i :: 0 <= i < |Flatten(v, q)| ==> Under(Flatten(v, q)[i].0, q)
  {
    FlattenShape(v, q);
  }

  lemma DotlessApart(a: string, b: string, ta: string, tb: string)
    requires '.' !in a && '.' !in b
    requires ta == "" || ta[0] == '.'
    requires tb == "" || tb[0] == '.'
    requires a + ta == b + tb
    ensures a == b
  {
    var x := a + ta;
    assert forall n :: 0 <= n < |b| ==> x[n] == b[n] && b[n] in b;
    assert forall n :: 0 <= n < |a| ==> x[n] == a[n] && a[n] in a;
    assert |x| == |a| || x[|a|] == '.';
    assert |x| == |b| || x[|b|] == '.';
    assert x[..|a|] == a && x[..|b|] == b;
  }

  /** Paths below two different plain keys of one dict never meet. */
  lemma ChildrenApart(prefix: string, a: string, b: string, x: string)
    requires PlainKey(a) && PlainKey(b)
    ensures Under(x, Child(prefix, a)) && Under(x, Child(prefix, b)) ==> a == b
  {
    var base := Stem(prefix);
    assert Child(prefix, a) == base + a && Child(prefix, b) == base + b;
    if Under(x, base + a) && Under(x, base + b) {
      var ta := UnderRest(x, base, a);
      var tb := UnderRest(x, base, b);
      DotlessApart(a, b, ta, tb);
    }
  }

  /** What follows `base + k` in a path at or below it: nothing, or a dot and more. */
  lemma UnderRest(x: string, base: string, k: string) returns (t: string)
    requires Under(x, base + k)
    ensures |base| <= |x| && x[|base|..] == k + t
    ensures t == "" || t[0] == '.'
  {
    var q := base + k;
    t := x[|q|..];
    assert x == q + t by {
      assert x[..|q|] == q;
    }
    assert x[|base|..] == k + t;
    if t != "" {
      assert q + "." <= x;
      assert x[|q|] == '.';
    }
  }

  /** No path yielded for `keys` lies below the key `k`, when `k` is not among them. */
  lemma {:induction false} FlattenKeysAvoid(d: Value, keys: seq<string>, prefix: string, k: string)
    requires d.Dict? && forall j :: 0 <= j < |keys| ==> keys[j] in Keys(d.entries)
    requires PlainKey(k) && k !in keys && forall j :: 0 <= j < |keys| ==> PlainKey(keys[j])
    ensures forall i :: 0 <= i < |FlattenKeys(d, keys, prefix)| ==> !Under(FlattenKeys(d, keys, prefix)[i].0, Child(prefix, k))
    decreases |keys|
  {
    if keys != [] {
      var q := Child(prefix, keys[0]);
      var head := Flatten(Lookup(d.entries, keys[0]), q);
      FlattenUnder(Lookup(d.entries, keys[0]), q);
      forall i | 0 <= i < |head| ensures !Under(head[i].0, Child(prefix, k)) {
        ChildrenApart(prefix, keys[0], k, head[i].0);
      }
      FlattenKeysAvoid(d, keys[1..], prefix, k);
    }
  }

  /** The paths of a sequence of pairs are all different. */
  predicate DistinctPaths(r: seq<(string, Value)>) {
    forall i, j :: 0 <= i < j < |r| ==> r[i].0 != r[j].0
  }

  /**
   When every key is plain, every pair `flatten_dict` yields has a path of its
   own, so each leaf can be found again from its path.
   */
  lemma {:induction false} FlattenPathsDistinct(v: Value, prefix: string)
    requires WellFormed(v) && PlainKeys(v)
    ensures DistinctPaths(Flatten(v, prefix))
    decreases v, 1
  {
    match v
    case Dict(es) =>
      var ks := SortedKeys(es);
      SortKeepsDistinct(Keys(es));
      assert forall j :: 0 <= j < |ks| ==> ks[j] in multiset(Keys(es));
      FlattenKeysPathsDistinct(v, ks, prefix);
    case _ =>
  }

  lemma {:induction false} FlattenKeysPathsDistinct(d: Value, keys: seq<string>, prefix: string)
    requires d.Dict? && WellFormed(d) && PlainKeys(d)
    requires forall j :: 0 <= j < |keys| ==> keys[j] in Keys(d.entries)
    requires forall i, j :: 0 <= i < j < |keys| ==> keys[i] != keys[j]
    ensures DistinctPaths(FlattenKeys(d, keys, prefix))
    decreases d, 0, |keys|
  {
    if keys != [] {
      var child := Lookup(d.entries, keys[0]);
      var q := Child(prefix, keys[0]);
      ChildPlain(d, keys[0]);
      FlattenPathsDistinct(child, q);
      FlattenKeysPathsDistinct(d, keys[1..], prefix);
      KeysPlain(d, keys);
      assert keys[0] !in keys[1..];
      FlattenKeysAvoid(d, keys[1..], prefix, keys[0]);
      FlattenUnder(child, q);
      DistinctPathsConcat(Flatten(child, q), FlattenKeys(d, keys[1..], prefix));
    }
  }

  /** The value stored under a key of a well-formed dict with plain keys is itself so, and the key is plain. */
  lemma ChildPlain(d: Value, k: string)
    requires d.Dict? && WellFormed(d) && PlainKeys(d) && k in Keys(d.entries)
    ensures WellFormed(Lookup(d.entries, k)) && PlainKeys(Lookup(d.entries, k)) && PlainKey(k)
    ensures Lookup(d.entries, k) < d
  {
    var n :| 0 <= n < |d.entries| && d.entries[n] == (k, Lookup(d.entries, k));
    assert WellFormed(d.entries[n].1) && PlainKeys(d.entries[n].1) && PlainKey(d.entries[n].0);
  }

  /** Keys of a dict whose keys are all plain are plain. */
  lemma KeysPlain(d: Value, keys: seq<string>)
    requires d.Dict? && PlainKeys(d) && forall j :: 0 <= j < |keys| ==> keys[j] in Keys(d.entries)
    ensures forall j :: 0 <= j < |keys| ==> PlainKey(keys[j])
  {
    forall j | 0 <= j < |keys| ensures PlainKey(keys[j]) {
      var m :| 0 <= m < |d.entries| && d.entries[m].0 == keys[j];
    }
  }

  /** Two runs of pairs, each with paths of its own and sharing none, joined keep every path apart. */
  lemma DistinctPathsConcat(head: seq<(string, Value)>, tail: seq<(string, Value)>)
    requires DistinctPaths(head) && DistinctPaths(tail)
    requires forall i, j :: 0 <= i < |head| && 0 <= j < |tail| ==> head[i].0 != tail[j].0
    ensures DistinctPaths(head + tail)
  {
    var r := head + tail;
    forall i, j | 0 <= i < j < |r| ensures r[i].0 != r[j].0 {
      if j >= |head| && i < |head| {
        assert r[i] == head[i] && r[j] == tail[j - |head|];
      } else if i >= |head| {
        assert r[i] == tail[i - |head|] && r[j] == tail[j - |head|];
      }
    }
  }

  // ---------------------------------------------------------------------------
  // Examples
  // ---------------------------------------------------------------------------

  /** A dict of one entry flattens to that entry's value under the child path. */
  lemma FlattenOneEntry(k: string, v: Value, prefix: string)
    ensures Flatten(Dict([(k, v)]), prefix) == Flatten(v, Child(prefix, k))
  {
    var d := Dict([(k, v)]);
    assert Keys(d.entries) == [k];
    assert SortedKeys(d.entries) == [k];
    assert Lookup(d.entries, k) == v;
    assert FlattenKeys(d, [k], prefix) == Flatten(v, Child(prefix, k)) + FlattenKeys(d, [], prefix);
  }

  /** The sorted keys of a two-entry dict: the smaller first. */
  lemma SortedKeysTwo(es: seq<(string, Value)>, a: string, b: string)
    requires |es| == 2 && es[0].0 != es[1].0 && LexLeq(a, b)
    requires (a == es[0].0 && b == es[1].0) || (a == es[1].0 && b == es[0].0)
    ensures a in Keys(es) && b in Keys(es) && SortedKeys(es) == [a, b]
  {
    assert Keys(es) == [es[0].0, es[1].0];
    assert multiset(Keys(es)) == multiset([a, b]);
    assert Sorted([a, b]);
    SortedUnique(SortedKeys(es), [a, b]);
  }

  /** Walking two keys of a dict yields the pairs under the first, then those under the second. */
  lemma FlattenKeysTwo(d: Value, a: string, b: string, prefix: string)
    requires d.Dict? && a in Keys(d.entries) && b in Keys(d.entries)
    ensures FlattenKeys(d, [a, b], prefix)
         == Flatten(Lookup(d.entries, a), Child(prefix, a)) + Flatten(Lookup(d.entries, b), Child(prefix, b))
  {
    assert [a, b][1..] == [b];
    assert FlattenKeys(d, [b], prefix) == Flatten(Lookup(d.entries, b), Child(prefix, b)) + FlattenKeys(d, [], prefix);
  }

  /** The two-entry dict `{k0: v0, k1: v1}` flattens the smaller key first, whatever the insertion order. */
  lemma FlattenTwoEntries(k0: string, v0: Value, k1: string, v1: Value, prefix: string)
    requires k0 != k1
    ensures LexLeq(k0, k1) ==>
      Flatten(Dict([(k0, v0), (k1, v1)]), prefix) == Flatten(v0, Child(prefix, k0)) + Flatten(v1, Child(prefix, k1))
    ensures LexLeq(k1, k0) ==>
      Flatten(Dict([(k0, v0), (k1, v1)]), prefix) == Flatten(v1, Child(prefix, k1)) + Flatten(v0, Child(prefix, k0))
  {
    var es := [(k0, v0), (k1, v1)];
    assert Lookup(es, k0) == v0 && Lookup(es, k1) == v1 by {
      LookupEntry(es, 0);
      LookupEntry(es, 1);
    }
    if LexLeq(k0, k1) {
      FlattenTwoSorted(es, k0, k1, prefix);
    }
    if LexLeq(k1, k0) {
      FlattenTwoSorted(es, k1, k0, prefix);
    }
  }

  /** A two-entry dict whose keys, in ascending order, are `a` and `b`. */
  lemma FlattenTwoSorted(es: seq<(string, Value)>, a: string, b: string, prefix: string)
    requires |es| == 2 && es[0].0 != es[1].0 && LexLeq(a, b)
    requires (a == es[0].0 && b == es[1].0) || (a == es[1].0 && b == es[0].0)
    ensures a in Keys(es) && b in Keys(es)
    ensures Flatten(Dict(es), prefix)
         == Flatten(Lookup(es, a), Child(prefix, a)) + Flatten(Lookup(es, b), Child(prefix, b))
  {
    SortedKeysTwo(es, a, b);
    FlattenKeysTwo(Dict(es), a, b, prefix);
  }

  /** `None` yields nothing; a value that is neither `None` nor a dict is one pair at the current path. */
  lemma FlattenLeaf(v: Value, prefix: string)
    ensures v.Null? ==> Flatten(v, prefix) == []
    ensures IsLeaf(v) ==> Flatten(v, prefix) == [(prefix, v)]
  {
  }

  /** The path of a one-letter key below a one-letter path. */
  lemma ChildOfLetters(p: char, k: char)
    ensures Child([p], [k]) == [p, '.', k]
  {
    assert [p] + "." + [k] == [p, '.', k];
  }

  /** Inner level of the example below: `{"y": y, "x": x}` under `b`. */
  lemma FlattenExampleInner(x: Value, y: Value)
    requires IsLeaf(x) && IsLeaf(y)
    ensures Flatten(Dict([("y", y), ("x", x)]), "b") == [("b.x", x), ("b.y", y)]
  {
    assert LexLeq("x", "y");
    FlattenTwoEntries("y", y, "x", x, "b");
    ChildOfLetters('b', 'x');
    ChildOfLetters('b', 'y');
    FlattenLeaf(x, "b.x");
    FlattenLeaf(y, "b.y");
  }

  /** Outer level of the example below, for any inner value and any leaf under `a`. */
  lemma FlattenExampleOuter(inner: Value, z: Value)
    requires IsLeaf(z)
    ensures Flatten(Dict([("b", inner), ("a", z)]), "") == [("a", z)] + Flatten(inner, "b")
  {
    assert LexLeq("a", "b");
    FlattenTwoEntries("b", inner, "a", z, "");
    assert Child("", "a") == "a" && Child("", "b") == "b";
    FlattenLeaf(z, "a");
  }

  /**
   A two-level report, `{"b": {"y": 2, "x": 1}, "a": 0}`, for any
   three leaves: keys sorted at every level, paths dotted.
   */
  lemma FlattenExample(z: Value, x: Value, y: Value)
    requires IsLeaf(z) && IsLeaf(x) && IsLeaf(y)
    ensures Flatten(Dict([("b", Dict([("y", y), ("x", x)])), ("a", z)]), "")
         == [("a", z), ("b.x", x), ("b.y", y)]
  {
    FlattenExampleOuter(Dict([("y", y), ("x", x)]), z);
    FlattenExampleInner(x, y);
  }

  /** Top level of the example below: `a` is walked before `a.b`. */
  lemma DottedKeysOuter(x: Value, inner: Value)
    ensures Flatten(Dict([("a.b", x), ("a", inner)]), "") == Flatten(inner, "a") + Flatten(x, "a.b")
  {
    assert LexLeq("a", "a.b");
    FlattenTwoEntries("a.b", x, "a", inner, "");
    assert Child("", "a") == "a" && Child("", "a.b") == "a.b";
  }

  /** Lower level of the example below: `b` under `a` has the path `a.b`. */
  lemma DottedKeysInner(y: Value)
    requires IsLeaf(y)
    ensures Flatten(Dict([("b", y)]), "a") == [("a.b", y)]
  {
    FlattenOneEntry("b", y, "a");
    ChildOfLetters('a', 'b');
    FlattenLeaf(y, "a.b");
  }

  /** The key `a.b` and the key `b` nested under `a` reach the same path, for any two leaves. */
  lemma DottedKeysMeet(x: Value, y: Value)
    requires IsLeaf(x) && IsLeaf(y)
    ensures Flatten(Dict([("a.b", x), ("a", Dict([("b", y)]))]), "") == [("a.b", y), ("a.b", x)]
  {
    DottedKeysOuter(x, Dict([("b", y)]));
    DottedKeysInner(y);
    FlattenLeaf(x, "a.b");
  }

  /** A key holding a dot gives the same path as a nested key: paths are then ambiguous. */
  lemma DottedKeysCollide()
    ensures var r := Flatten(Dict([("a.b", Other("1")), ("a", Dict([("b", Other("2"))]))]), "");
      |r| == 2 && r[0].0 == "a.b" && r[1].0 == "a.b" && r[0].1 != r[1].1
  {
    DottedKeysMeet(Other("1"), Other("2"));
  }

  /** The path grows by `.` only when it is non-empty, not by depth: an empty key adds nothing. */
  lemma EmptyKeyAddsNothing(x: Value)
    requires IsLeaf(x)
    ensures Flatten(Dict([("", Dict([("x", x)]))]), "") == [("x", x)]
  {
    FlattenOneEntry("", Dict([("x", x)]), "");
    assert Child("", "") == "";
    FlattenOneEntry("x", x, "");
    assert Child("", "x") == "x";
    FlattenLeaf(x, "x");
  }
}
