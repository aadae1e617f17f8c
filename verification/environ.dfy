/**
 `collect_from_environ()`: the report's view of the process environment. Only
 the variables on a fixed allow-list are copied, in the allow-list's order,
 and the working directory is added under `cwd`. The environment and the
 working directory are parameters.
 */
module Environ {
  import opened Values

  /** The variables copied into the report, in the order they are listed. */
  const AllowList: seq<string> := [
    "PYTHONPATH",
    "PYTHONHOME",
    "PYTHONSTARTUP",
    "PYTHONCASEOK",
    "PYTHONIOENCODING",
    "PYTHONFAULTHANDLER",
    "PYTHONHASHSEED",
    "PYTHONMALLOC",
    "PYTHONCOERCECLOCALE",
    "PYTHONBREAKPOINT",
    "PYTHONDEVMODE",
    "PATH"
  ]

  /**
   `{k: environ.get(k) for k in names if k in environ}`: the listed names that
   are set, each with its value, in the order of `names`.
   */
  function Present(names: seq<string>, environ: map<string, string>): seq<(string, Value)>
  {
    if names == [] then []
    else
      var rest := Present(names[1..], environ);
      if names[0] in environ then [(names[0], Str(environ[names[0]]))] + rest else rest
  }

  /** Every copied variable is listed and set, and holds its value from the environment. */
  lemma {:induction false} PresentEntries(names: seq<string>, environ: map<string, string>)
    ensures var es := Present(names, environ);
      |es| <= |names| &&
      forall i :: 0 <= i < |es| ==> es[i].0 in names && es[i].0 in environ && es[i].1 == Str(environ[es[i].0])
    decreases |names|
  {
    if names != [] {
      var rest := Present(names[1..], environ);
      PresentEntries(names[1..], environ);
      var es := Present(names, environ);
      forall i | 0 <= i < |es| ensures es[i].0 in names && es[i].0 in environ && es[i].1 == Str(environ[es[i].0]) {
        if names[0] in environ {
          if i > 0 {
            assert es[i] == rest[i - 1] && rest[i - 1].0 in names[1..];
          }
        } else {
          assert es[i] == rest[i] && rest[i].0 in names[1..];
        }
      }
    }
  }

  /** A name is copied exactly when it is listed and set. */
  lemma {:induction false} PresentKeys(names: seq<string>, environ: map<string, string>, k: string)
    ensures k in Keys(Present(names, environ)) <==> k in names && k in environ
    decreases |names|
  {
    var es := Present(names, environ);
    if names != [] {
      var rest := Present(names[1..], environ);
      PresentKeys(names[1..], environ, k);
      assert k in names <==> k == names[0] || k in names[1..];
      if names[0] in environ {
        assert Keys(es) == [names[0]] + Keys(rest);
      }
    }
  }

  /** No name is listed twice. */
  predicate Unique(names: seq<string>) {
    forall i, j :: 0 <= i < j < |names| ==> names[i] != names[j]
  }

  /** Where in `names` the `t`-th copied variable is listed. */
  function Origin(names: seq<string>, environ: map<string, string>, t: nat): (n: nat)
    requires t < |Present(names, environ)|
    ensures n < |names| && names[n] == Present(names, environ)[t].0
    decreases |names|
  {
    if names[0] in environ then
      if t == 0 then 0 else 1 + Origin(names[1..], environ, t - 1)
    else 1 + Origin(names[1..], environ, t)
  }

  /** The copied variables appear in the order in which `names` lists them. */
  lemma {:induction false} PresentInOrder(names: seq<string>, environ: map<string, string>, s: nat, t: nat)
    requires s < t < |Present(names, environ)|
    ensures Origin(names, environ, s) < Origin(names, environ, t)
    decreases |names|
  {
    OriginStep(names, environ, t);
    OriginStep(names, environ, s);
    if names[0] !in environ {
      PresentInOrder(names[1..], environ, s, t);
    } else if s > 0 {
      PresentInOrder(names[1..], environ, s - 1, t - 1);
    }
  }

  /** One step of `Origin`: past the first name, which is copied first when it is set. */
  lemma OriginStep(names: seq<string>, environ: map<string, string>, t: nat)
    requires t < |Present(names, environ)|
    ensures names != []
    ensures names[0] !in environ ==>
      t < |Present(names[1..], environ)| && Origin(names, environ, t) == 1 + Origin(names[1..], environ, t)
    ensures names[0] in environ && t == 0 ==> Origin(names, environ, t) == 0
    ensures names[0] in environ && t > 0 ==>
      t - 1 < |Present(names[1..], environ)| && Origin(names, environ, t) == 1 + Origin(names[1..], environ, t - 1)
  {
  }

  /** With no name listed twice, no variable is copied twice. */
  lemma PresentDistinct(names: seq<string>, environ: map<string, string>)
    requires Unique(names)
    ensures DistinctKeys(Present(names, environ))
  {
    var es := Present(names, environ);
    forall i, j | 0 <= i < j < |es| ensures es[i].0 != es[j].0 {
      PresentInOrder(names, environ, i, j);
    }
  }

  /**
   `d[k] = v` on a dict: an existing key keeps its place and takes the new
   value; a new key is appended at the end.
   */
  function SetItem(es: seq<(string, Value)>, k: string, v: Value): seq<(string, Value)>
  {
    if es == [] then [(k, v)]
    else if es[0].0 == k then [(k, v)] + es[1..]
    else [es[0]] + SetItem(es[1..], k, v)
  }

  /** A key the dict does not hold is appended after every existing entry. */
  lemma {:induction false} SetItemNew(es: seq<(string, Value)>, k: string, v: Value)
    requires k !in Keys(es)
    ensures SetItem(es, k, v) == es + [(k, v)]
    decreases |es|
  {
    if es != [] {
      assert Keys(es) == [es[0].0] + Keys(es[1..]);
      var rest := SetItem(es[1..], k, v);
      assert SetItem(es, k, v) == [es[0]] + rest;
      SetItemNew(es[1..], k, v);
      assert [es[0]] + (es[1..] + [(k, v)]) == ([es[0]] + es[1..]) + [(k, v)];
      assert [es[0]] + es[1..] == es;
    }
  }

  /** Setting a key the dict holds leaves its keys, and their order, as they were. */
  lemma {:induction false} SetItemExisting(es: seq<(string, Value)>, k: string, v: Value)
    requires k in Keys(es)
    ensures Keys(SetItem(es, k, v)) == Keys(es)
    decreases |es|
  {
    assert Keys(es) == [es[0].0] + Keys(es[1..]);
    var r := SetItem(es, k, v);
    if es[0].0 == k {
      assert Keys(r) == [k] + Keys(es[1..]);
    } else {
      SetItemExisting(es[1..], k, v);
      assert Keys(r) == [es[0].0] + Keys(SetItem(es[1..], k, v));
    }
  }

  /** Entries under other keys stay where they were, unchanged. */
  lemma {:induction false} SetItemOthers(es: seq<(string, Value)>, k: string, v: Value, i: nat)
    requires i < |es| && es[i].0 != k
    ensures i < |SetItem(es, k, v)| && SetItem(es, k, v)[i] == es[i]
    decreases |es|
  {
    if i > 0 && es[0].0 != k {
      SetItemOthers(es[1..], k, v, i - 1);
    }
  }

  /** After `d[k] = v`, `d[k]` is `v`. */
  lemma {:induction false} SetItemLookup(es: seq<(string, Value)>, k: string, v: Value)
    ensures k in Keys(SetItem(es, k, v)) && Lookup(SetItem(es, k, v), k) == v
    decreases |es|
  {
    var r := SetItem(es, k, v);
    assert Keys(r)[0] == r[0].0;
    if es != [] && es[0].0 != k {
      SetItemLookup(es[1..], k, v);
      assert r[1..] == SetItem(es[1..], k, v);
      assert Keys(r) == [r[0].0] + Keys(r[1..]);
    }
  }

  /** Adding a key the dict does not hold keeps every key distinct. */
  lemma AppendNewKey(es: seq<(string, Value)>, k: string, v: Value)
    requires DistinctKeys(es) && k !in Keys(es)
    ensures var r := es + [(k, v)];
      DistinctKeys(r) && (forall x :: x in Keys(r) <==> x in Keys(es) || x == k)
  {
    var r := es + [(k, v)];
    assert Keys(r) == Keys(es) + [k];
    forall i | 0 <= i < |es| ensures r[i].0 != k {
      assert Keys(es)[i] == es[i].0;
    }
  }

  /** `collect_from_environ()` for the given environment and working directory. */
  function CollectFromEnviron(environ: map<string, string>, cwd: string): (es: seq<(string, Value)>)
  {
    SetItem(Present(AllowList, environ), "cwd", Str(cwd))
  }

  lemma AllowListDistinct()
    ensures Unique(AllowList)
    ensures "cwd" !in AllowList
  {
  }

  /**
   The keys of the environment part of the report are exactly the
   allow-listed variables that are set, plus `cwd`, and no key repeats.
   */
  lemma CollectFromEnvironKeys(environ: map<string, string>, cwd: string, k: string)
    ensures var es := CollectFromEnviron(environ, cwd);
      DistinctKeys(es) && (k in Keys(es) <==> (k in AllowList && k in environ) || k == "cwd")
  {
    AllowListDistinct();
    var p := Present(AllowList, environ);
    PresentKeys(AllowList, environ, "cwd");
    PresentKeys(AllowList, environ, k);
    PresentDistinct(AllowList, environ);
    SetItemNew(p, "cwd", Str(cwd));
    AppendNewKey(p, "cwd", Str(cwd));
  }

  /**
   Every copied variable keeps its value from the environment, in the
   allow-list's order, and `cwd` comes last, holding the working directory.
   */
  lemma CollectFromEnvironEntries(environ: map<string, string>, cwd: string)
    ensures var es, p := CollectFromEnviron(environ, cwd), Present(AllowList, environ);
      es == p + [("cwd", Str(cwd))] &&
      (forall i :: 0 <= i < |p| ==> p[i].0 in AllowList && p[i].0 in environ && p[i].1 == Str(environ[p[i].0])) &&
      (forall i, j :: 0 <= i < j < |p| ==> Origin(AllowList, environ, i) < Origin(AllowList, environ, j))
  {
    AllowListDistinct();
    PresentKeys(AllowList, environ, "cwd");
    SetItemNew(Present(AllowList, environ), "cwd", Str(cwd));
    PresentEntries(AllowList, environ);
    forall i, j | 0 <= i < j < |Present(AllowList, environ)|
      ensures Origin(AllowList, environ, i) < Origin(AllowList, environ, j)
    {
      PresentInOrder(AllowList, environ, i, j);
    }
  }

  /**
   Variables off the allow-list, and their values, never reach the report;
   this includes a variable named `cwd`, whose entry comes from the working
   directory instead.
   */
  lemma OtherVariablesIgnored(environ: map<string, string>, cwd: string, k: string, v: string)
    requires k !in AllowList
    ensures CollectFromEnviron(environ[k := v], cwd) == CollectFromEnviron(environ, cwd)
  {
    PresentIgnores(AllowList, environ, k, v);
  }

  lemma {:induction false} PresentIgnores(names: seq<string>, environ: map<string, string>, k: string, v: string)
    requires k !in names
    ensures Present(names, environ[k := v]) == Present(names, environ)
    decreases |names|
  {
    if names != [] {
      PresentIgnores(names[1..], environ, k, v);
    }
  }
}
