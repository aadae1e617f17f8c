/**
 The JSON-like values a report is built from. A Python `dict` keeps its
 entries in insertion order, so it is an association list here; Python never
 holds the same key twice, which `DistinctKeys` states. Keys are
 modelled as strings. Every Python object that is not `None`, a `str`, a `list` or a
 `dict` (numbers, booleans, tuples, ...) is an opaque `Other`, known by a
 token such as its `repr`.
 */
module Values {

  datatype Value =
    | Null
    | Str(text: string)
    | List(items: seq<Value>)
    | Dict(entries: seq<(string, Value)>)
    | Other(token: string)

  /** The keys of a dict in insertion order. */
  function Keys(es: seq<(string, Value)>): (ks: seq<string>)
    ensures |ks| == |es| && forall i :: 0 <= i < |es| ==> ks[i] == es[i].0
  {
    if es == [] then [] else [es[0].0] + Keys(es[1..])
  }

  /** No key appears twice, as in every Python `dict`. */
  predicate DistinctKeys(es: seq<(string, Value)>) {
    forall i, j :: 0 <= i < j < |es| ==> es[i].0 != es[j].0
  }

  /** Every dict reachable through lists and dicts has distinct keys. */
  predicate WellFormed(v: Value) {
    match v
    case List(items) => forall i :: 0 <= i < |items| ==> WellFormed(items[i])
    case Dict(es) => DistinctKeys(es) && forall i :: 0 <= i < |es| ==> WellFormed(es[i].1)
    case _ => true
  }

  /** `d[k]`: the value stored under `k` (the first entry with that key). */
  function Lookup(es: seq<(string, Value)>, k: string): (v: Value)
    requires k in Keys(es)
    ensures (k, v) in es
  {
    if es[0].0 == k then es[0].1 else Lookup(es[1..], k)
  }

  /** With distinct keys, `d[k]` is the value of the one entry holding `k`. */
  lemma {:induction false} LookupEntry(es: seq<(string, Value)>, i: nat)
    requires DistinctKeys(es) && i < |es|
    ensures es[i].0 in Keys(es) && Lookup(es, es[i].0) == es[i].1
    decreases |es|
  {
    assert Keys(es)[i] == es[i].0;
    if i > 0 {
      assert es[1..][i - 1] == es[i];
      LookupEntry(es[1..], i - 1);
    }
  }

  /** A leaf of the report: anything but `None` and a dict (a list is a leaf). */
  predicate IsLeaf(v: Value) {
    !v.Null? && !v.Dict?
  }
}
