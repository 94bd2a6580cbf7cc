/** The Python `str` operations the document generator relies on (`in`, `find`,
    `split(sep, 1)`, `replace`, `join`, `strip`, `lstrip(chars)`), written on
    `seq<char>` with Python's semantics, together with the facts the rest of the
    model uses about them. */
module Strings {

  datatype Option<+T> = None | Some(value: T)

  /** `pat` occurs in `s` at index `i`. */
  predicate OccursAt(s: string, pat: string, i: int) {
    0 <= i && i + |pat| <= |s| && s[i..i + |pat|] == pat
  }

  /** `s.find(pat)`: the lowest index at which `pat` occurs in `s`, if any. */
  function IndexOf(s: string, pat: string): (r: Option<nat>)
    ensures r.Some? ==> OccursAt(s, pat, r.value)
    ensures r.Some? ==> forall j :: 0 <= j < r.value ==> !OccursAt(s, pat, j)
    ensures r.None? ==> forall j :: !OccursAt(s, pat, j)
    decreases |s|
  {
    if |s| < |pat| then None
    else if s[..|pat|] == pat then Some(0)
    else
      match IndexOf(s[1..], pat)
      case None =>
        assert forall j :: 1 <= j ==> OccursAt(s, pat, j) == OccursAt(s[1..], pat, j - 1);
        None
      case Some(k) =>
        assert forall j :: 1 <= j ==> OccursAt(s, pat, j) == OccursAt(s[1..], pat, j - 1);
        Some(k + 1)
  }

  /** Python's `pat in s`. */
  predicate Contains(s: string, pat: string) {
    IndexOf(s, pat).Some?
  }

  /** `s.split(sep, 1)`: `[s]` when `sep` does not occur, otherwise the text
      before and the text after the first occurrence of `sep`. Python raises
      on an empty separator. */
  function SplitOnce(s: string, sep: string): (parts: seq<string>)
    requires sep != []
    ensures |parts| == (if Contains(s, sep) then 2 else 1)
    ensures |parts| == 1 ==> parts[0] == s
    ensures |parts| == 2 ==> s == parts[0] + sep + parts[1]
    ensures |parts| == 2 ==> forall j :: 0 <= j < |parts[0]| ==> !OccursAt(s, sep, j)
  {
    match IndexOf(s, sep)
    case None => [s]
    case Some(i) =>
      assert s == s[..i] + sep + s[i + |sep|..];
      [s[..i], s[i + |sep|..]]
  }

  /** `s.split(sep)`: the pieces of `s` between the successive non-overlapping
      occurrences of `sep`, found left to right. */
  function SplitAll(s: string, sep: string): (parts: seq<string>)
    requires sep != []
    ensures |parts| >= 1
    decreases |s|
  {
    match IndexOf(s, sep)
    case None => [s]
    case Some(i) => [s[..i]] + SplitAll(s[i + |sep|..], sep)
  }

  /** `glue.join(parts)`. */
  function Join(parts: seq<string>, glue: string): string {
    if |parts| == 0 then []
    else if |parts| == 1 then parts[0]
    else parts[0] + glue + Join(parts[1..], glue)
  }

  /** `s.replace(pat, v)`: scanning left to right, every non-overlapping
      occurrence of `pat` is replaced by `v`; an empty `pat` inserts `v` before
      every character and at the end. */
  function ReplaceAll(s: string, pat: string, v: string): string
    decreases |s|
  {
    if pat == [] then
      (if s == [] then v else v + [s[0]] + ReplaceAll(s[1..], pat, v))
    else if |s| < |pat| then s
    else if s[..|pat|] == pat then v + ReplaceAll(s[|pat|..], pat, v)
    else [s[0]] + ReplaceAll(s[1..], pat, v)
  }

  /** Splitting and re-joining with the separator gives back the string. */
  lemma {:induction false} SplitAllJoin(s: string, sep: string)
    requires sep != []
    ensures Join(SplitAll(s, sep), sep) == s
    decreases |s|
  {
    match IndexOf(s, sep)
    case None =>
    case Some(i) =>
      var rest := s[i + |sep|..];
      var parts := SplitAll(s, sep);
      SplitAllJoin(rest, sep);
      assert parts[0] == s[..i] && parts[1..] == SplitAll(rest, sep);
      assert Join(parts, sep) == s[..i] + sep + Join(SplitAll(rest, sep), sep);
      assert s == s[..i] + sep + rest;
  }

  /** No piece of a split contains the separator. */
  lemma {:induction false} SplitAllPiecesFree(s: string, sep: string)
    requires sep != []
    ensures forall k, j :: 0 <= k < |SplitAll(s, sep)| ==> !OccursAt(SplitAll(s, sep)[k], sep, j)
    decreases |s|
  {
    var parts := SplitAll(s, sep);
    match IndexOf(s, sep)
    case None =>
    case Some(i) =>
      var rest := s[i + |sep|..];
      SplitAllPiecesFree(rest, sep);
      PrefixBeforeFirst(s, sep, i);
      assert parts[1..] == SplitAll(rest, sep);
      forall k, j | 0 <= k < |parts| ensures !OccursAt(parts[k], sep, j) {
        if k > 0 {
          assert parts[k] == SplitAll(rest, sep)[k - 1];
        }
      }
  }

  /** The text before the first occurrence of `pat` does not contain `pat`. */
  lemma PrefixBeforeFirst(s: string, pat: string, i: nat)
    requires pat != [] && IndexOf(s, pat) == Some(i)
    ensures forall j :: !OccursAt(s[..i], pat, j)
  {
    forall j | OccursAt(s[..i], pat, j) ensures false {
      assert s[..i][j..j + |pat|] == s[j..j + |pat|];
      assert OccursAt(s, pat, j);
    }
  }

  /** `s.replace(pat, v)` is the text before the first occurrence, then `v`, then
      the replacement of the rest. */
  lemma ReplaceAtFirst(s: string, pat: string, v: string, i: nat)
    requires pat != [] && IndexOf(s, pat) == Some(i)
    ensures ReplaceAll(s, pat, v) == s[..i] + v + ReplaceAll(s[i + |pat|..], pat, v)
  {
    ReplaceAtOccurrence(s, pat, v, i);
  }

  /** `ReplaceAtFirst`, stated on an occurrence with none before it. */
  lemma ReplaceAtOccurrence(s: string, pat: string, v: string, i: nat)
    requires pat != [] && OccursAt(s, pat, i)
    requires forall j :: 0 <= j < i ==> !OccursAt(s, pat, j)
    ensures ReplaceAll(s, pat, v) == s[..i] + v + ReplaceAll(s[i + |pat|..], pat, v)
  {
    var head, tail := s[..i], s[i..];
    assert s == head + tail;
    ReplaceAtSplit(head, tail, pat, v);
    assert tail[|pat|..] == s[i + |pat|..];
  }

  /** `ReplaceAtFirst` on the text cut at its first occurrence. */
  lemma ReplaceAtSplit(head: string, tail: string, pat: string, v: string)
    requires pat != [] && OccursAt(head + tail, pat, |head|)
    requires forall j :: 0 <= j < |head| ==> !OccursAt(head + tail, pat, j)
    ensures |pat| <= |tail|
    ensures ReplaceAll(head + tail, pat, v) == head + v + ReplaceAll(tail[|pat|..], pat, v)
  {
    ReplaceSkip(head, tail, pat, v);
    assert tail[..|pat|] == (head + tail)[|head|..|head| + |pat|];
    ReplaceAtStart(tail, pat, v);
  }

  /** A prefix in which no occurrence starts is copied unchanged. */
  lemma {:induction false} ReplaceSkip(a: string, b: string, pat: string, v: string)
    requires pat != []
    requires forall j :: 0 <= j < |a| ==> !OccursAt(a + b, pat, j)
    ensures ReplaceAll(a + b, pat, v) == a + ReplaceAll(b, pat, v)
    decreases |a|
  {
    if a != [] {
      SkipFirst(a, b, pat);
      calc {
        ReplaceAll(a + b, pat, v);
        { ReplaceKeepsFirst(a + b, pat, v); }
        [a[0]] + ReplaceAll((a + b)[1..], pat, v);
        [a[0]] + ReplaceAll(a[1..] + b, pat, v);
        { ReplaceSkip(a[1..], b, pat, v); }
        [a[0]] + (a[1..] + ReplaceAll(b, pat, v));
        { assert a == [a[0]] + a[1..]; }
        a + ReplaceAll(b, pat, v);
      }
    } else {
      assert a + b == b;
    }
  }

  /** Dropping the first character of a prefix free of occurrence starts
      leaves a shorter such prefix. */
  lemma SkipFirst(a: string, b: string, pat: string)
    requires a != []
    requires forall j :: 0 <= j < |a| ==> !OccursAt(a + b, pat, j)
    ensures (a + b)[0] == a[0] && (a + b)[1..] == a[1..] + b
    ensures forall j :: 0 <= j < |a[1..]| ==> !OccursAt(a[1..] + b, pat, j)
  {
    var s := a + b;
    assert s[1..] == a[1..] + b;
    forall j | 0 <= j < |a| - 1 ensures !OccursAt(s[1..], pat, j) {
      OccursInTail(s, pat, j);
    }
  }

  /** An occurrence in the text without its first character is one further
      along in the text. */
  lemma OccursInTail(s: string, pat: string, j: nat)
    requires s != []
    ensures OccursAt(s[1..], pat, j) == OccursAt(s, pat, j + 1)
  {
    if j + 1 + |pat| <= |s| {
      assert s[1..][j..j + |pat|] == s[j + 1..j + 1 + |pat|];
    }
  }

  /** Where no occurrence starts at the front, replacement keeps the first
      character and goes on with the rest. */
  lemma ReplaceKeepsFirst(s: string, pat: string, v: string)
    requires pat != [] && s != [] && !OccursAt(s, pat, 0)
    ensures ReplaceAll(s, pat, v) == [s[0]] + ReplaceAll(s[1..], pat, v)
  {
    if |s| < |pat| {
      ReplaceShort(s, pat, v);
      ReplaceShort(s[1..], pat, v);
      assert s == [s[0]] + s[1..];
    } else {
      assert s[..|pat|] == s[0..|pat|];
      ReplaceStep(s, pat, v);
    }
  }

  /** A text shorter than the pattern is left as it is. */
  lemma ReplaceShort(s: string, pat: string, v: string)
    requires pat != [] && |s| < |pat|
    ensures ReplaceAll(s, pat, v) == s
  {
  }

  /** Where `pat` starts the text, replacement puts `v` for it and goes on
      after it. */
  lemma ReplaceAtStart(s: string, pat: string, v: string)
    requires pat != [] && OccursAt(s, pat, 0)
    ensures ReplaceAll(s, pat, v) == v + ReplaceAll(s[|pat|..], pat, v)
  {
    assert s[..|pat|] == s[0..|pat|];
  }

  /** Where `pat` does not start the text, replacement keeps the first
      character and goes on with the rest. */
  lemma ReplaceStep(s: string, pat: string, v: string)
    requires pat != [] && |s| >= |pat| && s[..|pat|] != pat
    ensures ReplaceAll(s, pat, v) == [s[0]] + ReplaceAll(s[1..], pat, v)
  {
  }

  /** Replacing a pattern that does not occur changes nothing. */
  lemma {:induction false} ReplaceAbsent(s: string, pat: string, v: string)
    requires !Contains(s, pat)
    ensures ReplaceAll(s, pat, v) == s
    decreases |s|
  {
    if |s| >= |pat| {
      assert s[..|pat|] != pat;
      ReplaceAbsent(s[1..], pat, v);
      assert [s[0]] + s[1..] == s;
    }
  }

  /** Python's `str.replace` agrees with `v.join(s.split(pat))`. */
  lemma {:induction false} ReplaceIsJoinOfSplit(s: string, pat: string, v: string)
    requires pat != []
    ensures ReplaceAll(s, pat, v) == Join(SplitAll(s, pat), v)
    decreases |s|
  {
    match IndexOf(s, pat)
    case None =>
      ReplaceAbsent(s, pat, v);
    case Some(i) =>
      var rest := s[i + |pat|..];
      ReplaceAtFirst(s, pat, v, i);
      ReplaceIsJoinOfSplit(rest, pat, v);
      var parts := SplitAll(s, pat);
      assert parts[1..] == SplitAll(rest, pat);
  }

  /** An occurrence with none before it is the one `IndexOf` finds. */
  lemma FirstOccurrence(s: string, pat: string, i: nat)
    requires OccursAt(s, pat, i)
    requires forall j :: 0 <= j < i ==> !OccursAt(s, pat, j)
    ensures IndexOf(s, pat) == Some(i)
  {
  }

  /** The first character of `pat` appears nowhere else in it, so no two
      occurrences of `pat` can overlap. */
  predicate Solo(pat: string) {
    pat != [] && pat[0] !in pat[1..]
  }

  /** Whether `pat` occurs in `a + b` at an index where it lies within `a`,
      or starts in `b`, is whether it occurs there in that part. */
  lemma OccursInParts(a: string, b: string, pat: string, j: int)
    ensures 0 <= j && j + |pat| <= |a| ==> OccursAt(a + b, pat, j) == OccursAt(a, pat, j)
    ensures j >= |a| ==> OccursAt(a + b, pat, j) == OccursAt(b, pat, j - |a|)
  {
    var s := a + b;
    if 0 <= j && j + |pat| <= |a| {
      assert s[j..j + |pat|] == a[j..j + |pat|];
    }
    if j >= |a| && j + |pat| <= |s| {
      assert s[j..j + |pat|] == b[j - |a|..j - |a| + |pat|];
    }
  }

  /** In a pattern whose first character appears nowhere else, no later
      character equals the first. */
  lemma SoloAt(pat: string, k: int)
    requires Solo(pat) && 0 < k < |pat|
    ensures pat[k] != pat[0]
  {
    assert pat[1..][k - 1] == pat[k];
  }

  /** When `pat` does not occur in `a` and its first character appears
      nowhere else in it, the first occurrence of `pat` in `a + pat + b` is
      the one right after `a`: an earlier one would lie within `a` or reach
      into the middle copy, whose first character it would have to match
      at a later position. */
  lemma FirstAfterPrefix(a: string, pat: string, b: string)
    requires Solo(pat) && !Contains(a, pat)
    ensures IndexOf(a + pat + b, pat) == Some(|a|)
    ensures (a + pat + b)[..|a|] == a && (a + pat + b)[|a| + |pat|..] == b
  {
    var s := a + pat + b;
    assert s[|a|..|a| + |pat|] == pat;
    assert s == a + (pat + b);
    forall j | 0 <= j < |a| ensures !OccursAt(s, pat, j) {
      if j + |pat| <= |a| {
        OccursInParts(a, pat + b, pat, j);
      } else {
        SoloAt(pat, |a| - j);
        assert s[j + (|a| - j)] == pat[0];
      }
    }
    FirstOccurrence(s, pat, |a|);
  }

  /** A pattern absent from `a` and from `b` is absent from `a + m + b` when
      it cannot start inside `m` (its first character is not in `m`) and
      cannot reach into `m` from `a` (the first character of `m` appears in
      the pattern at most at its start). */
  lemma AbsentAcross(a: string, m: string, b: string, pat: string)
    requires pat != [] && m != []
    requires pat[0] !in m && m[0] !in pat[1..]
    requires !Contains(a, pat) && !Contains(b, pat)
    ensures !Contains(a + m + b, pat)
  {
    var s := a + m + b;
    assert s == a + (m + b) && s == (a + m) + b;
    forall j | 0 <= j ensures !OccursAt(s, pat, j) {
      if j + |pat| <= |a| {
        OccursInParts(a, m + b, pat, j);
      } else if j >= |a| + |m| {
        OccursInParts(a + m, b, pat, j);
      } else if j >= |a| {
        assert s[j] == m[j - |a|];
      } else if j + |pat| <= |s| {
        assert pat[1..][|a| - j - 1] == pat[|a| - j];
        assert s[j + (|a| - j)] == m[0];
      }
    }
  }

  /** The characters for which Python's `str.isspace` holds; `str.strip()`
      with no argument removes exactly these. U+3000, the ideographic space,
      is among them. */
  const Whitespace: set<char> := {
    '\t', '\n', '\U{0B}', '\U{0C}', '\r',
    '\U{1C}', '\U{1D}', '\U{1E}', '\U{1F}', ' ',
    '\U{85}', '\U{A0}', '\U{1680}',
    '\U{2000}', '\U{2001}', '\U{2002}', '\U{2003}', '\U{2004}', '\U{2005}',
    '\U{2006}', '\U{2007}', '\U{2008}', '\U{2009}', '\U{200A}',
    '\U{2028}', '\U{2029}', '\U{202F}', '\U{205F}', '\U{3000}'
  }

  /** How many characters at the start of `s` belong to `cs`. */
  function LeadingCount(s: string, cs: set<char>): (k: nat)
    ensures k <= |s|
    ensures forall i :: 0 <= i < k ==> s[i] in cs
    ensures k < |s| ==> s[k] !in cs
  {
    if s == [] || s[0] !in cs then 0 else 1 + LeadingCount(s[1..], cs)
  }

  /** How many characters at the end of `s` belong to `cs`. */
  function TrailingCount(s: string, cs: set<char>): (k: nat)
    ensures k <= |s|
    ensures forall i :: |s| - k <= i < |s| ==> s[i] in cs
    ensures k < |s| ==> s[|s| - 1 - k] !in cs
  {
    if s == [] || s[|s| - 1] !in cs then 0 else 1 + TrailingCount(s[..|s| - 1], cs)
  }

  /** `s.lstrip(chars)`: the longest suffix of `s` that does not start with a
      character of `cs`. */
  function LStrip(s: string, cs: set<char>): (r: string)
    ensures |r| <= |s| && r == s[|s| - |r|..]
    ensures forall j :: 0 <= j < |s| - |r| ==> s[j] in cs
    ensures r == [] || r[0] !in cs
  {
    s[LeadingCount(s, cs)..]
  }

  /** `s.rstrip(chars)`: the longest prefix of `s` that does not end with a
      character of `cs`. */
  function RStrip(s: string, cs: set<char>): (r: string)
    ensures |r| <= |s| && r == s[..|r|]
    ensures forall j :: |r| <= j < |s| ==> s[j] in cs
    ensures r == [] || r[|r| - 1] !in cs
  {
    s[..|s| - TrailingCount(s, cs)]
  }

  /** `lstrip` removes a prefix made only of stripped characters, and stops
      at a character it does not strip. */
  lemma {:induction false} LStripPrefix(p: string, b: string, cs: set<char>)
    requires forall k :: 0 <= k < |p| ==> p[k] in cs
    requires b == [] || b[0] !in cs
    ensures LStrip(p + b, cs) == b
    decreases |p|
  {
    if p != [] {
      assert (p + b)[1..] == p[1..] + b;
      LStripPrefix(p[1..], b, cs);
    }
  }

  /** `r` is `s[i..i + |r|]` and everything around it in `s` is in `cs`. */
  predicate TrimmedAt(s: string, cs: set<char>, r: string, i: int) {
    && 0 <= i && i + |r| <= |s| && s[i..i + |r|] == r
    && (forall j :: 0 <= j < i ==> s[j] in cs)
    && (forall j :: i + |r| <= j < |s| ==> s[j] in cs)
  }

  /** `s.strip()`: `s` without its leading and trailing whitespace. */
  function Strip(s: string): (r: string)
    ensures exists i :: TrimmedAt(s, Whitespace, r, i)
    ensures r == [] || (r[0] !in Whitespace && r[|r| - 1] !in Whitespace)
  {
    var l := LStrip(s, Whitespace);
    var r := RStrip(l, Whitespace);
    assert s[|s| - |l|..][..|r|] == s[|s| - |l|..|s| - |l| + |r|];
    assert TrimmedAt(s, Whitespace, r, |s| - |l|);
    r
  }
}
