/** The Python string operations the entry layer relies on: `str.isspace`,
    `str.strip`, `str.replace`, `str.split` with a one-character separator,
    `str.join`, and ASCII lower-casing (`bytes.lower`). */
module Strings {
  import opened Wrappers

  /** Python's `str.isspace()` for one character; the str-regex class `\s` matches the same set. */
  predicate IsSpace(c: char) {
    || c == ' '
    || '\t' <= c <= '\r'
    || '\U{1C}' <= c <= '\U{1F}'
    || c == '\U{85}' || c == '\U{A0}' || c == '\U{1680}'
    || '\U{2000}' <= c <= '\U{200A}'
    || c == '\U{2028}' || c == '\U{2029}' || c == '\U{202F}' || c == '\U{205F}' || c == '\U{3000}'
  }

  /** Every character of `s` from index `lo` up to (not including) `hi` is whitespace. */
  predicate SpaceBetween(s: string, lo: int, hi: int) {
    forall k :: lo <= k < hi && 0 <= k < |s| ==> IsSpace(s[k])
  }

  /** `t` occurs in `s` starting at index `i`. */
  predicate OccursAt(s: string, t: string, i: int) {
    0 <= i && i + |t| <= |s| && s[i..i + |t|] == t
  }

  ghost predicate Contains(s: string, t: string) {
    exists i :: OccursAt(s, t, i)
  }

  // ---------------------------------------------------------------------------
  // str.strip()

  /** The number of whitespace characters `s` starts with. */
  function LeadingSpaces(s: string): (n: nat)
    ensures n <= |s| && SpaceBetween(s, 0, n)
    ensures n < |s| ==> !IsSpace(s[n])
  {
    if |s| > 0 && IsSpace(s[0]) then 1 + LeadingSpaces(s[1..]) else 0
  }

  /** The index at which the whitespace `s` ends with begins. */
  function TrailingSpaceStart(s: string): (m: nat)
    ensures m <= |s| && SpaceBetween(s, m, |s|)
    ensures m > 0 ==> !IsSpace(s[m - 1])
  {
    if |s| > 0 && IsSpace(s[|s| - 1]) then TrailingSpaceStart(s[..|s| - 1]) else |s|
  }

  /** Python's `str.strip()`: the result is a slice of `s` with only whitespace
      cut from either side, and it neither starts nor ends with whitespace. */
  function Trim(s: string): (r: string)
    ensures exists i :: OccursAt(s, r, i) && SpaceBetween(s, 0, i) && SpaceBetween(s, i + |r|, |s|)
    ensures |r| > 0 ==> !IsSpace(r[0]) && !IsSpace(r[|r| - 1])
  {
    var i := LeadingSpaces(s);
    if i == |s| then
      assert OccursAt(s, [], i);
      []
    else
      var j := TrailingSpaceStart(s);
      assert i < j;
      assert OccursAt(s, s[i..j], i);
      s[i..j]
  }

  lemma TrimIdempotent(s: string)
    ensures Trim(Trim(s)) == Trim(s)
  {
  }

  // ---------------------------------------------------------------------------
  // str.replace(src, tgt)

  /** Python's `str.replace(src, tgt)` with the count argument left out. Replacing
      a string by itself changes nothing (an empty `src` included), a
      replacement at least as long as what it replaces never shortens the
      string, and an empty `src` puts `tgt` in each of the `|s| + 1` gaps. */
  function Replace(s: string, src: string, tgt: string): (r: string)
    ensures src == tgt ==> r == s
    ensures |tgt| >= |src| ==> |r| >= |s|
    ensures src == [] ==> |r| == |s| + (|s| + 1) * |tgt|
  {
    if src == [] then InsertAround(s, tgt) else ReplaceOccurrences(s, src, tgt)
  }

  /** `s.replace("", tgt)`: `tgt` before every character and once at the end. */
  function InsertAround(s: string, tgt: string): (r: string)
    ensures |r| == |s| + (|s| + 1) * |tgt|
    ensures tgt == [] ==> r == s
  {
    if s == [] then tgt
    else
      assert s == [s[0]] + s[1..];
      tgt + [s[0]] + InsertAround(s[1..], tgt)
  }

  /** Left-to-right, non-overlapping replacement of a non-empty `src`. */
  function ReplaceOccurrences(s: string, src: string, tgt: string): (r: string)
    requires src != []
    ensures src == tgt ==> r == s
    ensures |tgt| >= |src| ==> |r| >= |s|
    decreases |s|
  {
    if |s| == 0 then []
    else if src <= s then
      assert s == src + s[|src|..];
      tgt + ReplaceOccurrences(s[|src|..], src, tgt)
    else
      assert s == [s[0]] + s[1..];
      [s[0]] + ReplaceOccurrences(s[1..], src, tgt)
  }

  /** A string in which `src` does not occur comes back from `replace` unchanged. */
  lemma {:induction false} ReplaceAbsent(s: string, src: string, tgt: string)
    requires src != []
    requires !Contains(s, src)
    ensures Replace(s, src, tgt) == s
    decreases |s|
  {
    if |s| > 0 {
      assert !OccursAt(s, src, 0);
      forall i
        ensures !OccursAt(s[1..], src, i)
      {
        assert !OccursAt(s, src, i + 1);
        if 0 <= i && i + |src| <= |s| - 1 {
          assert s[i + 1..i + 1 + |src|] == s[1..][i..i + |src|];
        }
      }
      ReplaceAbsent(s[1..], src, tgt);
    }
  }

  // ---------------------------------------------------------------------------
  // sep.join(parts) and s.split(sep) for a one-character separator

  /** Python's `sep.join(parts)`. */
  function Join(parts: seq<string>, sep: char): string
  {
    if |parts| == 0 then []
    else if |parts| == 1 then parts[0]
    else parts[0] + [sep] + Join(parts[1..], sep)
  }

  /** Python's `s.split(sep)`: never empty, no piece holds the separator, and
      joining the pieces back with the separator gives `s`. */
  function Split(s: string, sep: char): (r: seq<string>)
    ensures |r| >= 1
    ensures forall i :: 0 <= i < |r| ==> sep !in r[i]
    ensures Join(r, sep) == s
    decreases |s|
  {
    if |s| == 0 then [[]]
    else
      var rest := Split(s[1..], sep);
      if s[0] == sep then
        assert ([[]] + rest)[1..] == rest;
        [[]] + rest
      else
        var r := [[s[0]] + rest[0]] + rest[1..];
        assert r[1..] == rest[1..];
        assert s == [s[0]] + s[1..];
        r
  }

  lemma SplitWithoutSeparator(a: string, sep: char)
    requires sep !in a
    ensures Split(a, sep) == [a]
  {
  }

  lemma {:induction false} SplitAfterFirstPiece(a: string, sep: char, t: string)
    requires sep !in a
    ensures Split(a + [sep] + t, sep) == [a] + Split(t, sep)
    decreases |a|
  {
    var s := a + [sep] + t;
    if |a| == 0 {
      assert s[1..] == t;
    } else {
      assert s[1..] == a[1..] + [sep] + t;
      SplitAfterFirstPiece(a[1..], sep, t);
      assert a == [a[0]] + a[1..];
    }
  }

  /** Splitting a join gives back the pieces, provided none of them holds the separator. */
  lemma {:induction false} SplitJoin(parts: seq<string>, sep: char)
    requires |parts| >= 1
    requires forall i :: 0 <= i < |parts| ==> sep !in parts[i]
    ensures Split(Join(parts, sep), sep) == parts
    decreases |parts|
  {
    if |parts| == 1 {
      SplitWithoutSeparator(parts[0], sep);
    } else {
      SplitAfterFirstPiece(parts[0], sep, Join(parts[1..], sep));
      SplitJoin(parts[1..], sep);
      assert parts == [parts[0]] + parts[1..];
    }
  }

  // ---------------------------------------------------------------------------
  // str.replace against split and join

  /** Python's `sep.join(parts)` for a separator string of any length. */
  function JoinWith(parts: seq<string>, sep: string): string
  {
    if |parts| == 0 then []
    else if |parts| == 1 then parts[0]
    else parts[0] + sep + JoinWith(parts[1..], sep)
  }

  /** Python's `list(s)`: each character as a one-character string. */
  function Chars(s: string): (r: seq<string>)
    ensures |r| == |s|
    ensures forall i :: 0 <= i < |s| ==> r[i] == [s[i]]
  {
    seq(|s|, i requires 0 <= i < |s| => [s[i]])
  }

  /** Gluing a string onto the first piece of a join glues it onto the join. */
  lemma JoinWithFirstPiece(a: string, parts: seq<string>, sep: string)
    requires |parts| >= 1
    ensures JoinWith([a + parts[0]] + parts[1..], sep) == a + JoinWith(parts, sep)
  {
    var glued := [a + parts[0]] + parts[1..];
    assert glued[1..] == parts[1..];
  }

  /** For a one-character source, `s.replace(c, tgt) == tgt.join(s.split(c))`:
      every occurrence of `c` becomes `tgt` and every other character stays,
      in order. */
  lemma {:induction false} ReplaceCharIsSplitJoin(s: string, c: char, tgt: string)
    ensures Replace(s, [c], tgt) == JoinWith(Split(s, c), tgt)
    decreases |s|
  {
    if |s| > 0 {
      ReplaceCharIsSplitJoin(s[1..], c, tgt);
      var rest := Split(s[1..], c);
      if s[0] == c {
        assert [c] <= s;
        assert ([[]] + rest)[1..] == rest;
      } else {
        assert !([c] <= s);
        JoinWithFirstPiece([s[0]], rest, tgt);
      }
    }
  }

  /** `s.replace("", tgt)` is `tgt.join([""] + list(s) + [""])`: `tgt` goes into
      each gap, before every character and once at the end. */
  lemma ReplaceEmptyIsJoinOfChars(s: string, tgt: string)
    ensures Replace(s, [], tgt) == JoinWith([[]] + Chars(s) + [[]], tgt)
  {
    InsertAroundChars(s, tgt);
    var parts := [[]] + Chars(s) + [[]];
    assert parts[1..] == Chars(s) + [[]];
  }

  lemma {:induction false} InsertAroundChars(s: string, tgt: string)
    ensures InsertAround(s, tgt) == tgt + JoinWith(Chars(s) + [[]], tgt)
    decreases |s|
  {
    if s != [] {
      InsertAroundChars(s[1..], tgt);
      var parts := Chars(s) + [[]];
      assert parts[0] == [s[0]];
      assert parts[1..] == Chars(s[1..]) + [[]];
    }
  }

  // ---------------------------------------------------------------------------
  // searching and case

  /** Index of the first occurrence of `c` in `s`, if any. */
  function IndexOf(s: string, c: char): (r: Option<nat>)
    ensures r.None? <==> c !in s
    ensures r.Some? ==> r.value < |s| && s[r.value] == c && c !in s[..r.value]
  {
    if |s| == 0 then None
    else if s[0] == c then Some(0)
    else
      match IndexOf(s[1..], c)
      case None => None
      case Some(i) =>
        assert s[..i + 1] == [s[0]] + s[1..][..i];
        Some(i + 1)
  }

  function LowerChar(c: char): char {
    if 'A' <= c <= 'Z' then (c as int + 32) as char else c
  }

  /** Lower-casing of the ASCII letters only, as `bytes.lower()` does. */
  function AsciiLower(s: string): (r: string)
    ensures |r| == |s|
    ensures forall i :: 0 <= i < |s| ==> r[i] == LowerChar(s[i])
  {
    seq(|s|, i requires 0 <= i < |s| => LowerChar(s[i]))
  }
}
