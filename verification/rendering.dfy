/**
 Turning report values into text: `join` and `join_paths`, which render a
 list of values as one line, and the key/value listing of `format_raw` (and
 of `print_dict` in the older single-module version), whose key column is as
 wide as the longest flattened path, but never wider than 40 characters.
 Python's `repr` and `str` of an opaque value are parameters.
 */
module Rendering {
  import opened Text
  import opened Values
  import opened Flattening

  datatype Option<T> = None | Some(value: T)

  datatype Result<T, E> = Ok(value: T) | Err(error: E)

  /** Why a listing could not be produced. */
  datatype RawError =
    /** `max()` of an empty sequence raises `ValueError`: the report flattened to no pairs. */
    | EmptyReport

  // ---------------------------------------------------------------------------
  // join and join_paths
  // ---------------------------------------------------------------------------

  /** How `join` renders one value: a `str` as itself, `None` as `None`, anything else by `repr`. */
  function Render(x: Value, repr: Value -> string): string {
    match x
    case Str(text) => text
    case Null => "None"
    case _ => repr(x)
  }

  /** The rendered values, in order. */
  function Pieces(values: seq<Value>, repr: Value -> string): seq<string> {
    seq(|values|, i requires 0 <= i < |values| => Render(values[i], repr))
  }

  /** `sep or ", "`: a missing or empty separator falls back to a comma and a space. */
  function EffectiveSep(sep: Option<string>): string {
    if sep.None? || sep.value == "" then ", " else sep.value
  }

  /** `join(values, sep)`. */
  function Join(values: seq<Value>, sep: Option<string>, repr: Value -> string): (r: string)
    ensures |values| == 0 ==> r == ""
    ensures |values| == 1 ==> r == Render(values[0], repr)
  {
    JoinWith(Pieces(values, repr), EffectiveSep(sep))
  }

  /** `join_paths(values)`: the values joined by the platform's path separator. */
  function JoinPaths(values: seq<Value>, pathsep: string, repr: Value -> string): string {
    Join(values, Some(pathsep), repr)
  }

  /** No separator, an empty one and `", "` itself give the same line. */
  lemma JoinDefaultSeparator(values: seq<Value>, repr: Value -> string)
    ensures Join(values, None, repr) == Join(values, Some(""), repr) == Join(values, Some(", "), repr)
  {
  }

  /**
   Layout of the joined line: the rendering of value `i` sits after the
   renderings before it and `i` separators, and every value but the last is
   followed by the separator, so `n` values hold `n - 1` joints.
   */
  lemma JoinLayout(values: seq<Value>, sep: Option<string>, repr: Value -> string, i: nat)
    requires i < |values|
    ensures var r, s, piece := Join(values, sep, repr), EffectiveSep(sep), Render(values[i], repr);
      var at := PieceStart(Pieces(values, repr), s, i);
      at + |piece| <= |r| && r[at..at + |piece|] == piece &&
      (i + 1 < |values| ==> OccursAt(r, s, at + |piece|))
  {
    JoinWithLayout(Pieces(values, repr), EffectiveSep(sep), i);
  }

  /** The joined line is exactly as long as its pieces and `n - 1` separators. */
  lemma JoinLength(values: seq<Value>, sep: Option<string>, repr: Value -> string)
    requires |values| >= 1
    ensures |Join(values, sep, repr)| == TotalLength(Pieces(values, repr)) + (|values| - 1) * |EffectiveSep(sep)|
  {
    JoinWithLength(Pieces(values, repr), EffectiveSep(sep));
  }

  /**
   With a one-character path separator that none of the renderings contains,
   splitting the joined paths on the separator gives back every rendering,
   which is how the report's `path` entry is taken apart again.
   */
  lemma JoinPathsSplit(values: seq<Value>, pathsep: char, repr: Value -> string)
    requires |values| >= 1
    requires forall i :: 0 <= i < |values| ==> pathsep !in Render(values[i], repr)
    ensures Split(JoinPaths(values, [pathsep], repr), [pathsep]) == Pieces(values, repr)
  {
    SplitOfJoin(Pieces(values, repr), pathsep);
  }

  // ---------------------------------------------------------------------------
  // format_raw and print_dict
  // ---------------------------------------------------------------------------

  /** The widest column the key may be padded to. */
  const MaxWidth: nat := 40

  /** `max(len(k) for k, _ in lines)`. */
  function LongestKey(lines: seq<(string, Value)>): (m: nat)
    requires |lines| >= 1
    ensures forall i :: 0 <= i < |lines| ==> |lines[i].0| <= m
    ensures exists i :: 0 <= i < |lines| && |lines[i].0| == m
  {
    if |lines| == 1 then |lines[0].0|
    else
      var rest := LongestKey(lines[1..]);
      assert forall i :: 1 <= i < |lines| ==> lines[i] == lines[1..][i - 1];
      if |lines[0].0| < rest then rest else |lines[0].0|
  }

  /**
   The key column: the longest key, capped at `MaxWidth`. Every key fits in
   it unless the cap applies, and some key is at least as long as it.
   */
  function ColumnWidth(lines: seq<(string, Value)>): (w: nat)
    requires |lines| >= 1
    ensures w <= MaxWidth
    ensures w == MaxWidth || forall i :: 0 <= i < |lines| ==> |lines[i].0| <= w
    ensures exists i :: 0 <= i < |lines| && w <= |lines[i].0|
  {
    var m := LongestKey(lines);
    if m > MaxWidth then MaxWidth else m
  }

  /** `print(k.ljust(width), v)`: the line printed for one pair. */
  function Row(line: (string, Value), width: nat, show: Value -> string): string {
    LJust(line.0, width) + " " + show(line.1)
  }

  /**
   A row is the key, spaces up to the column, one space and `str(v)`; a key
   longer than the column is kept whole rather than cut.
   */
  lemma RowLayout(line: (string, Value), width: nat, show: Value -> string)
    ensures var r, pad := Row(line, width, show), if |line.0| < width then width else |line.0|;
      |r| == pad + 1 + |show(line.1)| && line.0 <= r &&
      (forall i :: |line.0| <= i <= pad ==> r[i] == ' ') &&
      r[pad + 1..] == show(line.1)
  {
    var r, pad := Row(line, width, show), if |line.0| < width then width else |line.0|;
    var left := LJust(line.0, width);
    assert r == left + ([' '] + show(line.1));
    assert r[pad + 1..] == show(line.1);
  }

  /**
   `format_raw(data)`: one row per flattened pair, in flatten order, or
   `EmptyReport` when there is no pair to take the maximum over.
   */
  method FormatRaw(data: Value, show: Value -> string) returns (r: Result<seq<string>, RawError>)
    ensures r.Err? <==> Flatten(data, "") == []
    ensures r.Ok? ==> var lines := Flatten(data, "");
      |r.value| == |lines| &&
      forall i :: 0 <= i < |lines| ==> r.value[i] == Row(lines[i], ColumnWidth(lines), show)
  {
    var lines := Flatten(data, "");
    if |lines| == 0 {
      return Err(EmptyReport);
    }
    var maxKey := LongestKey(lines);
    if maxKey > MaxWidth {
      maxKey := MaxWidth;
    }
    assert maxKey == ColumnWidth(lines);
    var out := RowsOf(lines, maxKey, show);
    return Ok(out);
  }

  /** The loop of `format_raw`: one row per pair, in order, all padded to `width`. */
  method RowsOf(lines: seq<(string, Value)>, width: nat, show: Value -> string) returns (out: seq<string>)
    ensures |out| == |lines| && forall j :: 0 <= j < |lines| ==> out[j] == Row(lines[j], width, show)
  {
    out := [];
    for i := 0 to |lines|
      invariant |out| == i
      invariant forall j :: 0 <= j < i ==> out[j] == Row(lines[j], width, show)
    {
      out := out + [Row(lines[i], width, show)];
    }
  }

  /**
   When no flattened path is longer than `MaxWidth`, every value starts in
   the same column, one past the longest path.
   */
  lemma ShortKeysAligned(lines: seq<(string, Value)>, show: Value -> string, i: nat)
    requires i < |lines| && forall j :: 0 <= j < |lines| ==> |lines[j].0| <= MaxWidth
    ensures var w := LongestKey(lines);
      ColumnWidth(lines) == w && Row(lines[i], w, show)[w + 1..] == show(lines[i].1)
  {
    RowLayout(lines[i], LongestKey(lines), show);
  }

  /** A key longer than the column is printed whole and followed by a single space. */
  lemma LongKeyKept(line: (string, Value), width: nat, show: Value -> string)
    requires width <= |line.0|
    ensures Row(line, width, show) == line.0 + " " + show(line.1)
  {
    assert LJust(line.0, width) == line.0;
  }

  /**
   A report that flattens to nothing (a `None`, an empty dict, or dicts that
   hold only those) has no listing.
   */
  lemma EmptyDictHasNoListing()
    ensures Flatten(Dict([]), "") == [] && Flatten(Null, "") == []
  {
    assert SortedKeys([]) == [];
  }
}
