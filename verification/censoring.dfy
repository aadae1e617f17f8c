/**
 `censor(data, bad_words)`: a structural copy of a report value in which every
 string has each (sensitive substring, placeholder) pair of the table applied
 in order with Python's `str.replace`. Lists are mapped element by element,
 dicts value by value with their keys untouched, and every other value is
 returned as it is.
 */
module Censoring {
  import opened Text
  import opened Values

  /** The censor table: (sensitive substring, placeholder) pairs, applied in order. */
  type Table = seq<(string, string)>

  /** The table the report is censored with: the user name, then the host name. */
  function ReportTable(user: string, host: string): Table {
    [(user, "$USER"), (host, "$HOST")]
  }

  /**
   The string branch of `censor`: a left fold of replace-all over the table,
   each pair working on what the pairs before it produced.
   */
  function ApplyTable(s: string, table: Table): string
    decreases |table|
  {
    if table == [] then s else ApplyTable(ReplaceAll(s, table[0].0, table[0].1), table[1..])
  }

  /** The value `censor(v, table)` returns. */
  function Censored(v: Value, table: Table): (r: Value)
    ensures r.Null? == v.Null? && r.Str? == v.Str? && r.List? == v.List? && r.Dict? == v.Dict?
    ensures v.Other? ==> r == v
    ensures v.List? ==> |r.items| == |v.items|
    ensures v.Dict? ==> Keys(r.entries) == Keys(v.entries)
  {
    match v
    case Null => Null
    case Str(s) => Str(ApplyTable(s, table))
    case List(items) => List(seq(|items|, i requires 0 <= i < |items| => Censored(items[i], table)))
    case Dict(es) =>
      var es' := seq(|es|, i requires 0 <= i < |es| => (es[i].0, Censored(es[i].1, table)));
      assert Keys(es') == Keys(es);
      Dict(es')
    case Other(_) => v
  }

  /** The loop over `bad_words` in the string branch of `censor`. */
  method CensorString(s: string, table: Table) returns (r: string)
    ensures r == ApplyTable(s, table)
  {
    r := s;
    for i := 0 to |table|
      invariant ApplyTable(r, table[i..]) == ApplyTable(s, table)
    {
      assert table[i..][1..] == table[i + 1..];
      r := ReplaceAll(r, table[i].0, table[i].1);
    }
  }

  /** `censor(data, bad_words)`. */
  method Censor(v: Value, table: Table) returns (r: Value)
    ensures r == Censored(v, table)
    decreases v
  {
    match v {
      case Null =>
        r := v;
      case Str(s) =>
        var t := CensorString(s, table);
        r := Str(t);
      case List(items) =>
        var out: seq<Value> := [];
        for i := 0 to |items|
          invariant |out| == i
          invariant forall j :: 0 <= j < i ==> out[j] == Censored(items[j], table)
        {
          var c := Censor(items[i], table);
          out := out + [c];
        }
        r := List(out);
      case Dict(es) =>
        var out: seq<(string, Value)> := [];
        for i := 0 to |es|
          invariant |out| == i
          invariant forall j :: 0 <= j < i ==> out[j] == (es[j].0, Censored(es[j].1, table))
        {
          var c := Censor(es[i].1, table);
          out := out + [(es[i].0, c)];
        }
        r := Dict(out);
      case Other(_) =>
        r := v;
    }
  }

  // ---------------------------------------------------------------------------
  // Properties of the table fold
  // ---------------------------------------------------------------------------

  /** Applying a table in two parts is applying the first part, then the second. */
  lemma {:induction false} ApplyTableAppend(s: string, t1: Table, t2: Table)
    ensures ApplyTable(s, t1 + t2) == ApplyTable(ApplyTable(s, t1), t2)
    decreases |t1|
  {
    if t1 == [] {
      assert t1 + t2 == t2;
    } else {
      assert (t1 + t2)[0] == t1[0] && (t1 + t2)[1..] == t1[1..] + t2;
      ApplyTableAppend(ReplaceAll(s, t1[0].0, t1[0].1), t1[1..], t2);
    }
  }

  /** A string with no occurrence of any sensitive substring of the table is left unchanged. */
  lemma {:induction false} ApplyTableFree(s: string, table: Table)
    requires forall i :: 0 <= i < |table| ==> Free(s, table[i].0)
    ensures ApplyTable(s, table) == s
    decreases |table|
  {
    if table != [] {
      ReplaceAllFree(s, table[0].0, table[0].1);
      ApplyTableFree(s, table[1..]);
    }
  }

  /** A placeholder inserted by an earlier pair is rewritten by a later one: order matters. */
  lemma ReportTableOrderMatters()
    ensures ApplyTable("alice", ReportTable("alice", "USER")) == "$$HOST"
    ensures ApplyTable("alice", [("USER", "$HOST"), ("alice", "$USER")]) == "$USER"
  {
    var t := ReportTable("alice", "USER");
    assert t == [("alice", "$USER"), ("USER", "$HOST")];
    assert "alice"[..5] == "alice";
    assert ReplaceAll("alice", "alice", "$USER") == "$USER" + ReplaceAll("", "alice", "$USER");
    assert ReplaceAll("alice", "alice", "$USER") == "$USER";
    assert "$USER"[..4] == "$USE" && "$USER"[1..] == "USER" && "USER"[..4] == "USER";
    assert ReplaceAll("USER", "USER", "$HOST") == "$HOST" + ReplaceAll("", "USER", "$HOST");
    assert ReplaceAll("$USER", "USER", "$HOST") == "$" + ReplaceAll("USER", "USER", "$HOST");
    assert t[1..] == [("USER", "$HOST")];
    assert ApplyTable("alice", t) == ApplyTable("$USER", [("USER", "$HOST")]);
    assert ApplyTable("$USER", [("USER", "$HOST")]) == ApplyTable("$$HOST", []);

    var u := [("USER", "$HOST"), ("alice", "$USER")];
    assert "alice"[0..4] == "alic" && "alice"[1..5] == "lice";
    assert Free("alice", "USER");
    ReplaceAllFree("alice", "USER", "$HOST");
    assert u[1..] == [("alice", "$USER")];
    assert ApplyTable("alice", u) == ApplyTable("alice", [("alice", "$USER")]);
    assert ApplyTable("alice", [("alice", "$USER")]) == ApplyTable("$USER", []);
  }

  /** Replace-all can leave the very substring it removed: `"aabb".replace("ab", "")` is `"ab"`. */
  lemma ReplaceCanLeaveSubstring()
    ensures ApplyTable("aabb", [("ab", "")]) == "ab"
    ensures OccursAt(ApplyTable("aabb", [("ab", "")]), "ab", 0)
  {
    assert ReplaceAll("aabb", "ab", "") == "a" + ReplaceAll("abb", "ab", "");
    assert ReplaceAll("abb", "ab", "") == "" + ReplaceAll("b", "ab", "");
  }

  // ---------------------------------------------------------------------------
  // Properties of censor
  // ---------------------------------------------------------------------------

  /** Every string reachable through lists and dicts has no occurrence of a sensitive substring. */
  predicate Clean(v: Value, table: Table) {
    match v
    case Str(s) => forall i :: 0 <= i < |table| ==> Free(s, table[i].0)
    case List(items) => forall i :: 0 <= i < |items| ==> Clean(items[i], table)
    case Dict(es) => forall i :: 0 <= i < |es| ==> Clean(es[i].1, table)
    case _ => true
  }

  /** A value none of whose strings contains a sensitive substring is censored to itself. */
  lemma {:induction false} CensorClean(v: Value, table: Table)
    requires Clean(v, table)
    ensures Censored(v, table) == v
    decreases v
  {
    match v
    case Str(s) =>
      ApplyTableFree(s, table);
    case List(items) =>
      forall i | 0 <= i < |items| ensures Censored(items[i], table) == items[i] {
        CensorClean(items[i], table);
      }
      assert Censored(v, table).items == items;
    case Dict(es) =>
      forall i | 0 <= i < |es| ensures Censored(es[i].1, table) == es[i].1 {
        CensorClean(es[i].1, table);
      }
      assert Censored(v, table).entries == es;
    case _ =>
  }

  /** With an empty table `censor` is the identity on every value. */
  lemma {:induction false} CensorEmptyTable(v: Value)
    ensures Censored(v, []) == v
    decreases v
  {
    match v
    case List(items) =>
      forall i | 0 <= i < |items| ensures Censored(items[i], []) == items[i] {
        CensorEmptyTable(items[i]);
      }
      assert Censored(v, []).items == items;
    case Dict(es) =>
      forall i | 0 <= i < |es| ensures Censored(es[i].1, []) == es[i].1 {
        CensorEmptyTable(es[i].1);
      }
      assert Censored(v, []).entries == es;
    case _ =>
  }

  /** The value with every string blanked out: what `censor` must not change. */
  function Skeleton(v: Value): Value {
    match v
    case Str(_) => Str("")
    case List(items) => List(seq(|items|, i requires 0 <= i < |items| => Skeleton(items[i])))
    case Dict(es) => Dict(seq(|es|, i requires 0 <= i < |es| => (es[i].0, Skeleton(es[i].1))))
    case _ => v
  }

  /**
   `censor` preserves shape at every depth: `None` stays `None`, lists keep
   their length, dicts keep their keys in their order, other values are
   unchanged; only the text of strings can differ.
   */
  lemma {:induction false} CensorKeepsSkeleton(v: Value, table: Table)
    ensures Skeleton(Censored(v, table)) == Skeleton(v)
    decreases v
  {
    match v
    case List(items) =>
      var c := Censored(v, table).items;
      forall i | 0 <= i < |items| ensures Skeleton(c[i]) == Skeleton(items[i]) {
        CensorKeepsSkeleton(items[i], table);
      }
      assert Skeleton(Censored(v, table)).items == Skeleton(v).items;
    case Dict(es) =>
      var c := Censored(v, table).entries;
      forall i | 0 <= i < |es| ensures Skeleton(c[i].1) == Skeleton(es[i].1) {
        CensorKeepsSkeleton(es[i].1, table);
      }
      assert Skeleton(Censored(v, table)).entries == Skeleton(v).entries;
    case _ =>
  }

  /** Censoring keeps every dict's keys, so it keeps them distinct. */
  lemma {:induction false} CensorKeepsWellFormed(v: Value, table: Table)
    requires WellFormed(v)
    ensures WellFormed(Censored(v, table))
    decreases v
  {
    match v
    case List(items) =>
      forall i | 0 <= i < |items| ensures WellFormed(Censored(items[i], table)) {
        CensorKeepsWellFormed(items[i], table);
      }
    case Dict(es) =>
      var c := Censored(v, table).entries;
      forall i | 0 <= i < |es| ensures WellFormed(c[i].1) {
        CensorKeepsWellFormed(es[i].1, table);
      }
      assert forall i :: 0 <= i < |es| ==> c[i].0 == es[i].0;
    case _ =>
  }

  /** One pair applied to a string that starts with its substring and has no other occurrence. */
  lemma ApplyPairLeading(k: string, rest: string, v: string)
    requires k != "" && Free(rest, k)
    ensures ApplyTable(k + rest, [(k, v)]) == v + rest
  {
    ReplaceAllLeading(k, rest, v);
    ReplaceAllFree(rest, k, v);
  }

  lemma CensorExampleSentence()
    ensures ApplyTable("alice logged in", [("alice", "$USER")]) == "$USER logged in"
  {
    FreeOfFirstChar(" logged in", "alice");
    ApplyPairLeading("alice", " logged in", "$USER");
    assert "alice" + " logged in" == "alice logged in";
    assert "$USER" + " logged in" == "$USER logged in";
  }

  lemma CensorExampleWords()
    ensures ApplyTable("alice", [("alice", "$USER")]) == "$USER"
    ensures ApplyTable("other", [("alice", "$USER")]) == "other"
  {
    assert "alice"[..5] == "alice";
    assert ReplaceAll("alice", "alice", "$USER") == "$USER" + ReplaceAll("", "alice", "$USER");
    assert "other"[..5] == "other";
    assert ReplaceAll("other", "alice", "$USER") == "o" + ReplaceAll("ther", "alice", "$USER");
  }

  /** A nested report with the user name in a dict value and in a list. */
  lemma CensorExample()
    ensures Censored(Dict([("a", Str("alice logged in")), ("b", List([Str("alice"), Str("other")]))]),
                     [("alice", "$USER")])
         == Dict([("a", Str("$USER logged in")), ("b", List([Str("$USER"), Str("other")]))])
  {
    var t := [("alice", "$USER")];
    CensorExampleSentence();
    CensorExampleWords();
    var inner := Censored(List([Str("alice"), Str("other")]), t);
    assert inner.items == [Str("$USER"), Str("other")];
    var outer := Censored(Dict([("a", Str("alice logged in")), ("b", List([Str("alice"), Str("other")]))]), t);
    assert outer.entries == [("a", Str("$USER logged in")), ("b", List([Str("$USER"), Str("other")]))];
  }
}
