# reportabug, modelled in Dafny

reportabug collects facts about a Python installation into a nested report, a
dict of dicts, lists and strings. It censors the user name and the host name
out of every string. It then prints the report either as a flat two-column
listing of dotted paths and values, or as markdown. This project models the
core of that pipeline and proves properties of it:

- `censor(data, bad_words)`: a structural copy of the report in which every
  string has each (sensitive substring, placeholder) pair applied in order
  with `str.replace`. Dict keys, list lengths and non-string values are left
  as they are. Modelled in `censoring.dfy` on top of a model of `str.replace`
  in `text.dfy`.
- `flatten_dict(data, prefix)`: the (dotted path, leaf) pairs of a nested
  report. Each dict is walked in ascending key order, and a child's path is
  `key` when the current path is empty and `path.key` otherwise. Modelled in
  `flattening.dfy`, with Python's string order and `sorted` in
  `ordering.dfy`.
- `join`, `join_paths` and the key/value listing of `format_raw` (and its
  twin `print_dict`): modelled in `rendering.dfy`. The listing's key column
  is as wide as the longest path, capped at 40 characters. An empty report
  has no listing, because `max()` of nothing raises.
- `collect_from_environ()`: the allow-list filter over the environment, plus
  `cwd`. Modelled in `environ.dfy`.

The older single-module version, `src/reportabug.py`, holds a copy of
`flatten_dict` identical to the package's and a `print_dict` that computes
the same column and rows as `format_raw`. Both share the definitions above,
and the table below cites whichever copy a member was checked against.

Report values are the datatype `Values.Value`: `None`, `str`, `list`, `dict`
and `Other` for every other Python object. A `dict` is an association list
in insertion order, as Python keeps it. Its keys are strings, and they are
distinct in every real dict (`DistinctKeys`, `WellFormed`). `sorted()` is
modelled by insertion sort. `Ordering.SortedUnique` shows that any sort gives
the same list, so the algorithm does not matter.

`str.replace` is modelled in full (`Text.ReplaceAll`), including the empty
pattern, where Python inserts the replacement around every character. It is
related to an independent reference: `replace(k, v)` is
`v.join(s.split(k))` (`Text.ReplaceAllIsJoinOfSplit`).

One might expect every leaf to be reachable by exactly one path. The code
does not guarantee this, and the model follows the code:

- a key that contains `.` produces the same path as a nested key
  (`Flattening.DottedKeysCollide`);
- an empty key adds nothing to the path (`Flattening.EmptyKeyAddsNothing`).

What does hold is proved: when no key contains `.` and no key is empty, all
paths are different (`Flattening.FlattenPathsDistinct`).

Likewise, the censor table is not exhaustive:

- a later pair can rewrite the placeholder an earlier pair wrote
  (`Censoring.ReportTableOrderMatters`);
- one replacement can create a new occurrence of the pattern
  (`Censoring.ReplaceCanLeaveSubstring`).

So the model does not claim that no sensitive substring survives.

## Model

| member | source | states |
|---|---|---|
| Censoring.Censored | src/reportabug/__init__.py:146-161 | `None` stays `None`, a string stays a string, a list stays a list of the same length, a dict stays a dict with the same keys in the same order, and any other value is returned unchanged |
| Censoring.Censor | src/reportabug/__init__.py:146-161 | the recursive method returns exactly the censored value: strings censored by the table loop, lists element by element, dict values entry by entry, keys untouched |
| Censoring.CensorString | src/reportabug/__init__.py:150-153 | the loop that reassigns the string once per table pair yields the left fold of replace-all over the table, in table order |
| Censoring.ApplyTableAppend | src/reportabug/__init__.py:151-152 | applying a table made of two parts is applying the first part and then the second |
| Censoring.ApplyTableFree | src/reportabug/__init__.py:150-153 | a string with no occurrence of any table pattern is returned unchanged |
| Censoring.ReportTableOrderMatters | src/reportabug/__init__.py:283 | the pairs act in table order: the user `alice` on host `USER` gives `$$HOST`, while the reversed table gives `$USER` |
| Censoring.ReplaceCanLeaveSubstring | src/reportabug/__init__.py:152 | one pass of `replace` can leave the pattern in its output (`"aabb".replace("ab", "")` is `"ab"`) |
| Censoring.CensorClean | src/reportabug/__init__.py:146-161 | a value none of whose strings contains a table pattern is censored to itself |
| Censoring.CensorEmptyTable | src/reportabug/__init__.py:146-161 | with an empty table, `censor` is the identity on every value |
| Censoring.CensorKeepsSkeleton | src/reportabug/__init__.py:155-161 | at every depth, censoring changes only the text of strings: the `None`s, list lengths, dict keys and their order, and other values are the same |
| Censoring.CensorKeepsWellFormed | src/reportabug/__init__.py:158-159 | censoring keeps every dict's keys distinct |
| Censoring.ApplyPairLeading | src/reportabug/__init__.py:152 | a string that starts with the pattern and has no other occurrence becomes the placeholder followed by the rest |
| Censoring.CensorExampleSentence | src/reportabug/__init__.py:150-153 | `"alice logged in"` censored for user `alice` reads `"$USER logged in"` |
| Censoring.CensorExampleWords | src/reportabug/__init__.py:150-153 | the user name alone becomes `$USER`; a word without it is unchanged |
| Censoring.CensorExample | src/reportabug/__init__.py:146-161 | a nested report with the user name in a dict value and in a list has both censored, its keys and its list intact |
| Text.Interleave | src/reportabug/__init__.py:152 | `s.replace("", v)` starts with `v` and is `len(s) * (len(v) + 1) + len(v)` long |
| Text.InterleaveIsJoin | src/reportabug/__init__.py:152 | for a non-empty `s`, `s.replace("", v)` is `v + v.join(s) + v`: `v` before every character and once at the end |
| Text.ReplaceAllFree | src/reportabug/__init__.py:152 | `replace` leaves a string without the pattern unchanged |
| Text.ReplaceAllLeading | src/reportabug/__init__.py:152 | a leading occurrence of the pattern is replaced and the scan resumes after it |
| Text.ReplaceAllSelf | src/reportabug/__init__.py:152 | replacing a pattern by itself gives the string back, for every pattern including `""` |
| Text.InterleaveEmpty | src/reportabug/__init__.py:152 | `s.replace("", "")` is `s` |
| Text.ReplaceAllIsJoinOfSplit | src/reportabug/__init__.py:152 | `s.replace(k, v)` equals `v.join(s.split(k))` for every non-empty `k` |
| Text.SplitPiecesFree | src/reportabug/__init__.py:152 | no piece of `s.split(k)` contains `k`, so every occurrence was replaced in that one pass |
| Text.JoinOfSplit | src/reportabug/__init__.py:152 | `k.join(s.split(k))` is `s` |
| Text.LJust | src/reportabug/__init__.py:274 | `s.ljust(w)` starts with `s`, is `max(len(s), w)` long, pads with spaces only and never truncates |
| Text.JoinWithLength | src/reportabug/__init__.py:31-33 | `sep.join(parts)` is as long as the parts plus one separator between each two |
| Text.JoinWithLayout | src/reportabug/__init__.py:31-33 | part `i` starts after the earlier parts and `i` separators, and is followed by a separator unless it is last |
| Text.SplitOfJoin | src/reportabug/__init__.py:36-37 | for a one-character separator that no part contains, `sep.join(parts).split(sep)` is `parts` |
| Ordering.Sort | src/reportabug/__init__.py:172 | `sorted(keys)` is a permutation of the keys in ascending order |
| Ordering.SortedUnique | src/reportabug/__init__.py:172 | two ascending permutations of the same keys are equal, so the sort used does not matter |
| Ordering.LexLeqTotal | src/reportabug/__init__.py:172 | any two keys are comparable |
| Ordering.LexLeqAntisymmetric | src/reportabug/__init__.py:172 | two keys each at most the other are equal |
| Ordering.LexLeqTransitive | src/reportabug/__init__.py:172 | string order is transitive |
| Ordering.SortKeepsDistinct | src/reportabug/__init__.py:172 | sorting the distinct keys of a dict gives distinct keys |
| Values.LookupEntry | src/reportabug/__init__.py:173 | with distinct keys, `d[k]` is the value of the one entry holding `k` |
| Flattening.SortedKeys | src/reportabug/__init__.py:172 | the keys are visited in ascending order, each key of the dict exactly once |
| Flattening.FlattenShape | src/reportabug/__init__.py:164-175 | every yielded value is a leaf (neither `None` nor a dict), and every path extends the prefix, by `prefix.` when a dict is walked below a non-empty prefix |
| Flattening.Child | src/reportabug/__init__.py:174 | a child's path extends its parent's path |
| Flattening.FlattenLength | src/reportabug/__init__.py:164-175 | the number of pairs is the number of leaves reachable through dicts, lists counting as one leaf and `None` as none |
| Flattening.KeysLeafCountSort | src/reportabug/__init__.py:172 | visiting the keys in sorted order visits the same leaves as insertion order |
| Flattening.PermutedKeys | src/reportabug/__init__.py:172 | reordering a dict's entries reorders its keys the same way |
| Flattening.FlattenInsertionOrder | src/reportabug/__init__.py:170-175 | two values equal up to the insertion order of their dicts, at every depth, flatten to the same pairs |
| Flattening.SameUpToOrderRefl | src/reportabug/__init__.py:170-175 | every well-formed report value is equal up to order to itself |
| Flattening.EntriesPermuted | src/reportabug/__init__.py:172 | two well-formed dicts holding the same entries in any order are equal up to order |
| Flattening.NestedReorder | src/reportabug/__init__.py:170-175 | reordering the entries of a nested dict, `{a: {x: X, y: Y}}` against `{a: {y: Y, x: X}}`, does not change the pairs |
| Flattening.FlattenLeafDict | src/reportabug/__init__.py:172-175 | a dict of leaves yields one pair per key, `(path of k, d[k])`, in ascending key order, and the paths come out ascending |
| Flattening.ChildOrdered | src/reportabug/__init__.py:174 | children of one prefix are ordered as their keys are |
| Flattening.FlattenUnder | src/reportabug/__init__.py:174-175 | every path yielded below a non-empty path `q` is `q` or starts with `q.` |
| Flattening.FlattenPathsDistinct | src/reportabug/__init__.py:164-175 | when no key contains `.` and no key is empty, all yielded paths are different |
| Flattening.FlattenLeaf | src/reportabug.py:86-91 | a value that is neither `None` nor a dict yields exactly `(prefix, value)`, and `None` yields nothing |
| Flattening.FlattenOneEntry | src/reportabug/__init__.py:172-175 | a one-entry dict yields its value's pairs under the child path |
| Flattening.FlattenTwoEntries | src/reportabug.py:94-97 | the dict `{k0: v0, k1: v1}` yields the smaller key's pairs first, whichever was inserted first |
| Flattening.FlattenExample | src/reportabug/__init__.py:164-175 | `{"b": {"y": y, "x": x}, "a": z}` yields `(a, z)`, `(b.x, x)`, `(b.y, y)` in that order, for any three leaves |
| Flattening.DottedKeysMeet | src/reportabug/__init__.py:174 | the key `a.b` and the key `b` nested under `a` yield the same path |
| Flattening.DottedKeysCollide | src/reportabug/__init__.py:174 | so two different leaves can share one path |
| Flattening.EmptyKeyAddsNothing | src/reportabug/__init__.py:174 | an empty key at top level leaves the path empty, so `{"": {"x": v}}` yields `(x, v)` as if `x` were at top level |
| Rendering.Join | src/reportabug/__init__.py:30-33 | an empty input gives `""`; one value gives that value's rendering with no separator |
| Rendering.JoinDefaultSeparator | src/reportabug/__init__.py:31 | no separator, the empty separator and `", "` give the same line |
| Rendering.JoinLayout | src/reportabug/__init__.py:30-33 | rendering `i` sits after the earlier renderings and `i` separators, and `n` values hold `n-1` separators between them |
| Rendering.JoinLength | src/reportabug/__init__.py:30-33 | the line is as long as the renderings plus `n-1` separators |
| Rendering.JoinPathsSplit | src/reportabug/__init__.py:36-37 | splitting the joined paths on a one-character separator that no path contains gives back every path |
| Rendering.LongestKey | src/reportabug.py:103 | the maximum key length bounds every key and is attained by one |
| Rendering.ColumnWidth | src/reportabug/__init__.py:268-271 | the key column is at most 40 wide, fits every key unless the cap applies, and some key is at least as long |
| Rendering.RowLayout | src/reportabug/__init__.py:274 | a row is the key, spaces up to the column, one space and the value's text; a longer key is kept whole |
| Rendering.FormatRaw | src/reportabug/__init__.py:265-274 | there is no listing exactly when the report flattens to nothing; otherwise one row per pair, in flatten order, each padded to the capped column |
| Rendering.RowsOf | src/reportabug/__init__.py:273-274 | the loop over the pairs produces exactly one row per pair, in order, each padded to the given width |
| Rendering.ShortKeysAligned | src/reportabug.py:103-109 | when no path exceeds 40 characters, every value starts in the same column, one past the longest path |
| Rendering.LongKeyKept | src/reportabug.py:109 | a key longer than the column is printed whole, followed by one space |
| Rendering.EmptyDictHasNoListing | src/reportabug.py:101-103 | `None` and `{}` flatten to nothing, so they have no listing |
| Environ.PresentEntries | src/reportabug/__init__.py:104-121 | every copied variable is listed, set, and holds its value from the environment |
| Environ.PresentKeys | src/reportabug/__init__.py:104-121 | a name is copied exactly when it is listed and set |
| Environ.Origin | src/reportabug/__init__.py:104-121 | the `t`-th copied variable is the name listed at position `Origin(t)` |
| Environ.PresentInOrder | src/reportabug/__init__.py:106-120 | the copied variables come in the order of the list: a later copy comes from a later position |
| Environ.PresentDistinct | src/reportabug/__init__.py:104-121 | with no name listed twice, no variable is copied twice |
| Environ.SetItemNew | src/reportabug/__init__.py:122 | `d[k] = v` with a key `d` does not hold appends `(k, v)` after every existing entry |
| Environ.SetItemExisting | src/reportabug/__init__.py:122 | `d[k] = v` with a key `d` holds leaves the keys and their order as they were |
| Environ.SetItemOthers | src/reportabug/__init__.py:122 | `d[k] = v` leaves every entry under another key in its place, unchanged |
| Environ.SetItemLookup | src/reportabug/__init__.py:122 | after `d[k] = v`, `d` holds `k` and `d[k]` is `v` |
| Environ.AppendNewKey | src/reportabug/__init__.py:122 | adding a key the dict does not hold keeps all keys distinct |
| Environ.AllowListDistinct | src/reportabug/__init__.py:106-119 | the allow-list names no variable twice and does not contain `cwd` |
| Environ.CollectFromEnvironKeys | src/reportabug/__init__.py:103-124 | the keys are exactly the allow-listed variables that are set, plus `cwd`, with none repeated |
| Environ.CollectFromEnvironEntries | src/reportabug/__init__.py:103-124 | the result is the copied variables followed by `cwd` holding the working directory; each copied variable is allow-listed, set, and keeps its environment value, in allow-list order |
| Environ.OtherVariablesIgnored | src/reportabug/__init__.py:104-121 | setting a variable off the allow-list, `cwd` included, does not change the result |

## Left out

- I/O is not modelled. The environment, the working directory, the user name and the host name are parameters. `format_raw` and `print_dict` return their lines instead of printing them. The `file` argument of `print_dict` is not modelled.
- `repr` and `str` of an arbitrary Python object are not modelled. They are function parameters (`repr` of `join`, `show` of the listing). Every object other than `None`, `str`, `list` and `dict` is an opaque `Other`; tuples are among them and pass through `censor` unchanged, as the code does.
- Dict keys are modelled as strings, so `str(k)` in the path is the key itself. A module's `_reportabug_info` hook can merge a mapping with keys of any type into the report. The model then loses three behaviours:
  - `sorted` orders int keys numerically;
  - the path of a non-string key is its `str`;
  - `sorted` raises `TypeError` on keys of mixed types.
- `os.path.pathsep` is a parameter.
- `censor_word` is not modelled, because MD5 and the Unicode category table are outside the model.
- `collect_from_module` imports and runs foreign code, so it is not modelled.
- `from_namespace` works by reflection over `dir`/`getattr`, so it is not modelled.
- `collect_from_sys`, `collect_from_platform` and `collect_from_sys_path` are ambient reads of `sys`, `platform` and the filesystem, so they are not modelled.
- `format_markdown` and both `main` functions are print layout, clock and argv plumbing, so they are not modelled.
- `collect_from_environ` in src/reportabug.py is a plain copy of the whole environment, so it is not modelled.
- Environ.CollectFromEnviron: environment names are compared case-sensitively, as on POSIX. Windows' case-insensitive environment is not modelled.
- setup.py, tests/test_basic.py and conftest.py are packaging and test plumbing, so they are not modelled.
- Flattening.FlattenInsertionOrder: dicts inside lists are compared as stored, since lists are leaves that flattening never enters. Two reports that differ only in the order of such a dict's entries yield leaves that Python's `==` treats as equal but the model does not.
- Flattening.Flatten: Python's recursion limit is not modelled. Reports are finite values.
- Censoring.Censor: the model does not claim that the output contains no sensitive substring. This is false in general; see `ReportTableOrderMatters` and `ReplaceCanLeaveSubstring`.
