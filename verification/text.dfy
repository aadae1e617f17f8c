/**
 The Python string operations the report code relies on, on `string` values
 (sequences of code points): `str.replace`, `str.split`, `str.join` and
 `str.ljust`.
 */
module Text {

  /** `k` occurs in `s` starting at index `i`. */
  predicate OccursAt(s: string, k: string, i: nat) {
    i + |k| <= |s| && s[i..i + |k|] == k
  }

  /** `s` has no occurrence of `k`; the empty string occurs in every string. */
  predicate Free(s: string, k: string) {
    forall i | 0 <= i <= |s| :: !OccursAt(s, k, i)
  }

  /** `s.replace("", v)`: Python puts `v` before every character and once more at the end. */
  function Interleave(s: string, v: string): (r: string)
    ensures |r| == |s| * (|v| + 1) + |v|
    ensures v <= r
  {
    if s == [] then v else v + [s[0]] + Interleave(s[1..], v)
  }

  /** The one-character pieces of `s`, as Python iterates over a string. */
  function Chars(s: string): seq<string> {
    seq(|s|, i requires 0 <= i < |s| => [s[i]])
  }

  /** `s.replace("", v)` is `v + v.join(s) + v`: `v` before every character and once at the end. */
  lemma {:induction false} InterleaveIsJoin(s: string, v: string)
    requires s != []
    ensures Interleave(s, v) == v + JoinWith(Chars(s), v) + v
    decreases |s|
  {
    var t := s[1..];
    assert Interleave(s, v) == v + [s[0]] + Interleave(t, v);
    if t == [] {
      assert Interleave(t, v) == v;
      assert Chars(s) == [[s[0]]];
    } else {
      InterleaveIsJoin(t, v);
      CharsStep(s);
      var j := JoinWith(Chars(t), v);
      assert v + [s[0]] + (v + j + v) == v + ([s[0]] + v + j) + v;
    }
  }

  /** Joining the characters of `s` puts `v` after its first character, then joins the rest. */
  lemma CharsStep(s: string)
    requires |s| >= 2
    ensures forall v :: JoinWith(Chars(s), v) == [s[0]] + v + JoinWith(Chars(s[1..]), v)
  {
    assert Chars(s)[1..] == Chars(s[1..]);
  }

  /**
   `s.replace(k, v)`: scanning left to right, every leftmost occurrence of `k`
   is replaced by `v` and the scan resumes after it, so occurrences never overlap.
   */
  function ReplaceAll(s: string, k: string, v: string): (r: string)
    decreases |s|
  {
    if k == "" then Interleave(s, v)
    else if |s| < |k| then s
    else if s[..|k|] == k then v + ReplaceAll(s[|k|..], k, v)
    else [s[0]] + ReplaceAll(s[1..], k, v)
  }

  /** `s.split(k)` for a non-empty separator (Python rejects an empty one). */
  function Split(s: string, k: string): (parts: seq<string>)
    requires k != ""
    ensures |parts| >= 1
  {
    SplitFrom(s, k, "")
  }

  /** `Split`, where `cur` holds the characters of the current piece already scanned. */
  function SplitFrom(s: string, k: string, cur: string): (parts: seq<string>)
    requires k != ""
    ensures |parts| >= 1
    decreases |s|
  {
    if |s| < |k| then [cur + s]
    else if s[..|k|] == k then [cur] + SplitFrom(s[|k|..], k, "")
    else SplitFrom(s[1..], k, cur + [s[0]])
  }

  /** `sep.join(parts)`. */
  function JoinWith(parts: seq<string>, sep: string): string {
    if |parts| == 0 then ""
    else if |parts| == 1 then parts[0]
    else parts[0] + sep + JoinWith(parts[1..], sep)
  }

  /** Total length of the pieces. */
  function TotalLength(parts: seq<string>): nat {
    if parts == [] then 0 else |parts[0]| + TotalLength(parts[1..])
  }

  /** `n` spaces. */
  function Spaces(n: nat): (r: string)
    ensures |r| == n && forall i :: 0 <= i < n ==> r[i] == ' '
  {
    if n == 0 then "" else [' '] + Spaces(n - 1)
  }

  /**
   `s.ljust(width)`: `s` padded on the right with spaces up to `width`
   characters; a longer `s` is returned whole, never truncated.
   */
  function LJust(s: string, width: nat): (r: string)
    ensures |r| == if |s| < width then width else |s|
    ensures s <= r
    ensures forall i :: |s| <= i < |r| ==> r[i] == ' '
  {
    if |s| < width then s + Spaces(width - |s|) else s
  }

  // ---------------------------------------------------------------------------
  // Properties of replace, split and join
  // ---------------------------------------------------------------------------

  /** A string with no occurrence of `k` comes back from `replace` unchanged. */
  lemma {:induction false} ReplaceAllFree(s: string, k: string, v: string)
    requires Free(s, k)
    ensures ReplaceAll(s, k, v) == s
    decreases |s|
  {
    assert !OccursAt(s, k, 0);
    if |s| >= |k| {
      forall i: nat ensures !OccursAt(s[1..], k, i) {
        if i + |k| <= |s| - 1 {
          assert s[1..][i..i + |k|] == s[i + 1..i + 1 + |k|];
          assert !OccursAt(s, k, i + 1);
        }
      }
      ReplaceAllFree(s[1..], k, v);
    }
  }

  /** An occurrence of `k` at the very start is the first one replaced. */
  lemma ReplaceAllLeading(k: string, rest: string, v: string)
    requires k != ""
    ensures ReplaceAll(k + rest, k, v) == v + ReplaceAll(rest, k, v)
  {
    assert (k + rest)[..|k|] == k && (k + rest)[|k|..] == rest;
  }

  /** A string lacking the first character of `k` has no occurrence of `k`. */
  lemma FreeOfFirstChar(s: string, k: string)
    requires k != "" && k[0] !in s
    ensures Free(s, k)
  {
    forall i | 0 <= i <= |s| ensures !OccursAt(s, k, i) {
      if i + |k| <= |s| {
        assert s[i..i + |k|][0] == s[i];
      }
    }
  }

  /** Python's `"".join` of one-character steps: interleaving nothing changes nothing. */
  lemma {:induction false} InterleaveEmpty(s: string)
    ensures Interleave(s, "") == s
  {
    if s != [] {
      InterleaveEmpty(s[1..]);
      assert [s[0]] + s[1..] == s;
    }
  }

  /** Replacing a substring by itself is the identity, the empty substring included. */
  lemma {:induction false} ReplaceAllSelf(s: string, k: string)
    ensures ReplaceAll(s, k, k) == s
    decreases |s|
  {
    if k == "" {
      InterleaveEmpty(s);
    } else if |s| < |k| {
    } else if s[..|k|] == k {
      ReplaceAllSelf(s[|k|..], k);
      assert s[..|k|] + s[|k|..] == s;
    } else {
      ReplaceAllSelf(s[1..], k);
      assert [s[0]] + s[1..] == s;
    }
  }

  lemma {:induction false} ReplaceFromSplit(s: string, k: string, v: string, cur: string)
    requires k != ""
    ensures cur + ReplaceAll(s, k, v) == JoinWith(SplitFrom(s, k, cur), v)
    decreases |s|
  {
    if |s| < |k| {
    } else if s[..|k|] == k {
      var rest := SplitFrom(s[|k|..], k, "");
      ReplaceFromSplit(s[|k|..], k, v, "");
      assert ([cur] + rest)[1..] == rest;
      assert cur + (v + ReplaceAll(s[|k|..], k, v)) == cur + v + JoinWith(rest, v);
    } else {
      ReplaceFromSplit(s[1..], k, v, cur + [s[0]]);
      assert cur + ([s[0]] + ReplaceAll(s[1..], k, v)) == (cur + [s[0]]) + ReplaceAll(s[1..], k, v);
    }
  }

  /**
   Python's identity `s.replace(k, v) == v.join(s.split(k))` for a non-empty
   `k`: replacement cuts `s` at the leftmost non-overlapping occurrences of `k`
   and glues the pieces back with `v`.
   */
  lemma ReplaceAllIsJoinOfSplit(s: string, k: string, v: string)
    requires k != ""
    ensures ReplaceAll(s, k, v) == JoinWith(Split(s, k), v)
  {
    ReplaceFromSplit(s, k, v, "");
    assert "" + ReplaceAll(s, k, v) == ReplaceAll(s, k, v);
  }

  lemma {:induction false} SplitFromFree(s: string, k: string, cur: string)
    requires k != ""
    requires forall j: nat :: j < |cur| ==> !OccursAt(cur + s, k, j)
    ensures forall i :: 0 <= i < |SplitFrom(s, k, cur)| ==> Free(SplitFrom(s, k, cur)[i], k)
    decreases |s|
  {
    var parts := SplitFrom(s, k, cur);
    if |s| < |k| {
      forall j: nat ensures !OccursAt(cur + s, k, j) {
        if j < |cur| {
        }
      }
    } else if s[..|k|] == k {
      forall j: nat ensures !OccursAt(cur, k, j) {
        if OccursAt(cur, k, j) {
          assert (cur + s)[j..j + |k|] == cur[j..j + |k|];
          assert OccursAt(cur + s, k, j);
        }
      }
      SplitFromFree(s[|k|..], k, "");
      assert parts == [cur] + SplitFrom(s[|k|..], k, "");
    } else {
      var cur' := cur + [s[0]];
      assert cur' + s[1..] == cur + s;
      forall j: nat | j < |cur'| ensures !OccursAt(cur' + s[1..], k, j) {
        if j == |cur| {
          assert (cur + s)[j..j + |k|] == s[..|k|];
        }
      }
      SplitFromFree(s[1..], k, cur');
    }
  }

  /** No piece produced by `s.split(k)` contains `k`. */
  lemma SplitPiecesFree(s: string, k: string)
    requires k != ""
    ensures forall i :: 0 <= i < |Split(s, k)| ==> Free(Split(s, k)[i], k)
  {
    SplitFromFree(s, k, "");
  }

  /** Round trip: `k.join(s.split(k)) == s`. */
  lemma JoinOfSplit(s: string, k: string)
    requires k != ""
    ensures JoinWith(Split(s, k), k) == s
  {
    ReplaceAllIsJoinOfSplit(s, k, k);
    ReplaceAllSelf(s, k);
  }

  /** The joined string is every piece plus one separator between each two. */
  lemma {:induction false} JoinWithLength(parts: seq<string>, sep: string)
    requires |parts| >= 1
    ensures |JoinWith(parts, sep)| == TotalLength(parts) + (|parts| - 1) * |sep|
    decreases |parts|
  {
    if |parts| > 1 {
      JoinWithLength(parts[1..], sep);
    }
  }

  /** Joining two non-empty runs of pieces puts one separator between them. */
  lemma {:induction false} JoinWithConcat(a: seq<string>, b: seq<string>, sep: string)
    requires |a| >= 1 && |b| >= 1
    ensures JoinWith(a + b, sep) == JoinWith(a, sep) + sep + JoinWith(b, sep)
    decreases |a|
  {
    assert (a + b)[0] == a[0];
    if |a| == 1 {
      assert (a + b)[1..] == b;
    } else {
      assert (a + b)[1..] == a[1..] + b;
      JoinWithConcat(a[1..], b, sep);
    }
  }

  /** `sep.join(parts)` starts with the first piece, followed by `sep` when more pieces come. */
  lemma JoinWithHead(parts: seq<string>, sep: string)
    requires |parts| >= 1
    ensures parts[0] <= JoinWith(parts, sep)
    ensures |parts| > 1 ==> parts[0] + sep <= JoinWith(parts, sep)
  {
  }

  /** The pieces before a cut, joined and followed by one separator, take their lengths plus one separator each. */
  lemma JoinedPrefixLength(pre: seq<string>, sep: string)
    requires |pre| >= 1
    ensures |JoinWith(pre, sep) + sep| == TotalLength(pre) + |pre| * |sep|
  {
    JoinWithLength(pre, sep);
  }

  /** Where piece `i` of `sep.join(parts)` starts: after the earlier pieces and `i` separators. */
  function PieceStart(parts: seq<string>, sep: string, i: nat): nat
    requires i <= |parts|
  {
    TotalLength(parts[..i]) + i * |sep|
  }

  /** What follows the first `i` pieces and their separators is the join of the remaining pieces. */
  lemma JoinWithSuffix(parts: seq<string>, sep: string, i: nat)
    requires i < |parts|
    ensures var at := PieceStart(parts, sep, i);
      at <= |JoinWith(parts, sep)| && JoinWith(parts, sep)[at..] == JoinWith(parts[i..], sep)
  {
    if i == 0 {
      assert parts[..0] == [] && parts[0..] == parts;
    } else {
      var pre, post := parts[..i], parts[i..];
      var left := JoinWith(pre, sep) + sep;
      assert JoinWith(parts, sep) == left + JoinWith(post, sep) by {
        assert pre + post == parts;
        JoinWithConcat(pre, post, sep);
      }
      assert |left| == PieceStart(parts, sep, i) by {
        JoinedPrefixLength(pre, sep);
        assert |pre| == i;
      }
    }
  }

  /**
   Layout of `sep.join(parts)`: piece `i` starts at `TotalLength(parts[..i]) + i * |sep|`,
   and, except after the last piece, is followed by one copy of `sep`.
   */
  lemma JoinWithLayout(parts: seq<string>, sep: string, i: nat)
    requires i < |parts|
    ensures var r, at := JoinWith(parts, sep), PieceStart(parts, sep, i);
      at + |parts[i]| <= |r| && r[at..at + |parts[i]|] == parts[i] &&
      (i + 1 < |parts| ==> OccursAt(r, sep, at + |parts[i]|))
  {
    JoinWithSuffix(parts, sep, i);
    JoinWithPieceAt(parts, sep, i, JoinWith(parts, sep), PieceStart(parts, sep, i));
  }

  lemma JoinWithPieceAt(parts: seq<string>, sep: string, i: nat, r: string, at: nat)
    requires i < |parts| && at <= |r| && r[at..] == JoinWith(parts[i..], sep)
    ensures at + |parts[i]| <= |r| && r[at..at + |parts[i]|] == parts[i]
    ensures i + 1 < |parts| ==> OccursAt(r, sep, at + |parts[i]|)
  {
    var rest := JoinWith(parts[i..], sep);
    var q := if i + 1 < |parts| then sep else "";
    assert parts[i] + q <= rest by {
      JoinWithHead(parts[i..], sep);
      assert parts[i..][0] == parts[i] && parts[i] + "" == parts[i];
    }
    PiecesAt(r, at, parts[i], q);
  }

  /** Where `r` continues at `at` with `p` and then `q`, `p` sits at `at` and `q` occurs right after it. */
  lemma PiecesAt(r: string, at: nat, p: string, q: string)
    requires at <= |r| && p + q <= r[at..]
    ensures at + |p| <= |r| && r[at..at + |p|] == p && OccursAt(r, q, at + |p|)
  {
    assert r[at..at + |p|] == r[at..][..|p|] == (p + q)[..|p|] == p;
    assert r[at + |p|..at + |p| + |q|] == r[at..][|p|..|p| + |q|] == (p + q)[|p|..] == q;
  }

  /** Scanning a run of characters that holds no separator extends the current piece. */
  lemma {:induction false} SplitFromPlain(p: string, rest: string, c: char, cur: string)
    requires c !in p
    ensures SplitFrom(p + rest, [c], cur) == SplitFrom(rest, [c], cur + p)
    decreases |p|
  {
    if p == [] {
      assert p + rest == rest && cur + p == cur;
    } else {
      var s := p + rest;
      assert s[..1] == [p[0]] != [c];
      assert s[1..] == p[1..] + rest;
      SplitFromPlain(p[1..], rest, c, cur + [p[0]]);
      assert cur + [p[0]] + p[1..] == cur + p;
    }
  }

  /**
   With a one-character separator that occurs in none of the pieces,
   `sep.join(parts).split(sep)` gives back `parts` (for at least one piece;
   joining no pieces gives `""`, whose split is `[""]`).
   */
  lemma {:induction false} SplitOfJoin(parts: seq<string>, c: char)
    requires |parts| >= 1 && forall i :: 0 <= i < |parts| ==> c !in parts[i]
    ensures Split(JoinWith(parts, [c]), [c]) == parts
    decreases |parts|
  {
    var k := [c];
    if |parts| == 1 {
      SplitFromPlain(parts[0], "", c, "");
      assert parts[0] + "" == parts[0] && "" + parts[0] == parts[0];
      assert parts == [parts[0]];
    } else {
      var tail := JoinWith(parts[1..], k);
      assert JoinWith(parts, k) == parts[0] + (k + tail);
      SplitFromPlain(parts[0], k + tail, c, "");
      assert "" + parts[0] == parts[0];
      assert (k + tail)[..1] == k && (k + tail)[1..] == tail;
      SplitOfJoin(parts[1..], c);
      assert parts == [parts[0]] + parts[1..];
    }
  }
}
