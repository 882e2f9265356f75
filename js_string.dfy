/** The ECMAScript string operations the core relies on, with their exact edge cases:
    `slice` with negative and out-of-range indices, `trim` and the `\s` class,
    `indexOf`, `split` and `join` on a separator, and `replaceAll`. */
module JsString {

  // ---------------------------------------------------------------------------
  // String.prototype.slice
  // ---------------------------------------------------------------------------

  /** How `slice` normalises an index: a negative one counts from the end, and
      the result is clamped to `[0, len]`. */
  function RelativeIndex(len: nat, x: int): (r: nat)
    ensures r <= len
  {
    if x < 0 then (if len + x < 0 then 0 else len + x) else if x > len then len else x
  }

  /** `s.slice(start, end)` on a string or an array; `s.slice(start)` is `Slice(s, start, |s|)`.
      The indices are normalised first, then the elements are taken one by one. */
  function Slice<T>(s: seq<T>, start: int, end: int): seq<T>
    decreases if 0 <= start <= |s| && 0 <= end <= |s| then 0 else 1, end - start
  {
    if !(0 <= start <= |s| && 0 <= end <= |s|) then Slice(s, RelativeIndex(|s|, start), RelativeIndex(|s|, end))
    else if start < end then [s[start]] + Slice(s, start + 1, end)
    else []
  }

  lemma {:induction false} SliceInBounds<T>(s: seq<T>, start: nat, end: nat)
    requires start <= |s| && end <= |s|
    ensures Slice(s, start, end) == if start < end then s[start..end] else []
    decreases end - start
  {
    if start < end {
      SliceInBounds(s, start + 1, end);
      assert s[start..end] == [s[start]] + s[start + 1..end];
    }
  }

  /** A forward range inside the bounds is the plain subsequence. */
  lemma SliceWithin<T>(s: seq<T>, start: nat, end: nat)
    requires start <= end <= |s|
    ensures Slice(s, start, end) == s[start..end]
  {
    SliceInBounds(s, start, end);
  }

  /** `slice` never grows the input; inside the bounds it is the plain subsequence; a
      range that does not go forward is empty; a negative index counts from the end. */
  lemma SliceFacts<T>(s: seq<T>, start: int, end: int)
    ensures |Slice(s, start, end)| <= |s|
    ensures 0 <= start <= end <= |s| ==> Slice(s, start, end) == s[start..end]
    ensures 0 <= end <= start ==> Slice(s, start, end) == []
    ensures -|s| <= start < 0 && 0 <= end <= |s| && |s| + start <= end ==>
              Slice(s, start, end) == s[|s| + start..end]
    ensures -|s| <= end < 0 && 0 <= start <= |s| + end ==> Slice(s, start, end) == s[start..|s| + end]
  {
    SliceInBounds(s, RelativeIndex(|s|, start), RelativeIndex(|s|, end));
  }

  // ---------------------------------------------------------------------------
  // Whitespace: the `\s` class, `trim`, `/^\s+/` and `/\s+$/`
  // ---------------------------------------------------------------------------

  /** ECMAScript WhiteSpace and LineTerminator code points, the set matched by `\s`
      and removed by `trim`. */
  predicate IsWhitespace(c: char) {
    c == '\t' || c == '\n' || c == '\U{000B}' || c == '\U{000C}' || c == '\r' || c == ' '
    || c == '\U{00A0}' || c == '\U{1680}' || ('\U{2000}' <= c <= '\U{200A}')
    || c == '\U{2028}' || c == '\U{2029}' || c == '\U{202F}' || c == '\U{205F}'
    || c == '\U{3000}' || c == '\U{FEFF}'
  }

  /** The line terminators, which `.` in a regular expression does not match. */
  predicate IsLineTerminator(c: char) {
    c == '\n' || c == '\r' || c == '\U{2028}' || c == '\U{2029}'
  }

  predicate IsBlank(s: string) {
    forall i :: 0 <= i < |s| ==> IsWhitespace(s[i])
  }

  /** Length of the match of `/^\s+/` (0 when it does not match). */
  function LeadingWhitespace(s: string): (r: nat)
    ensures r <= |s|
  {
    if |s| > 0 && IsWhitespace(s[0]) then 1 + LeadingWhitespace(s[1..]) else 0
  }

  /** The leading run is whitespace, and is the longest such prefix. */
  lemma {:induction false} LeadingWhitespaceMeaning(s: string)
    ensures IsBlank(s[..LeadingWhitespace(s)])
    ensures LeadingWhitespace(s) < |s| ==> !IsWhitespace(s[LeadingWhitespace(s)])
  {
    if |s| > 0 && IsWhitespace(s[0]) {
      var r := LeadingWhitespace(s);
      LeadingWhitespaceMeaning(s[1..]);
      assert s[..r] == [s[0]] + s[1..][..r - 1];
      assert r < |s| ==> s[r] == s[1..][r - 1];
    }
  }

  /** Length of the match of `/\s+$/` (0 when it does not match). */
  function TrailingWhitespace(s: string): (r: nat)
    ensures r <= |s|
  {
    if |s| > 0 && IsWhitespace(s[|s| - 1]) then 1 + TrailingWhitespace(s[..|s| - 1]) else 0
  }

  /** The trailing run is whitespace, and is the longest such suffix. */
  lemma {:induction false} TrailingWhitespaceMeaning(s: string)
    ensures IsBlank(s[|s| - TrailingWhitespace(s)..])
    ensures TrailingWhitespace(s) < |s| ==> !IsWhitespace(s[|s| - TrailingWhitespace(s) - 1])
  {
    if |s| > 0 && IsWhitespace(s[|s| - 1]) {
      var r := TrailingWhitespace(s);
      var init := s[..|s| - 1];
      TrailingWhitespaceMeaning(init);
      assert s[|s| - r..] == init[|init| - (r - 1)..] + [s[|s| - 1]];
      assert r < |s| ==> s[|s| - r - 1] == init[|init| - (r - 1) - 1];
    }
  }

  /** `s.trim()`: the leading run is removed first, then the trailing run of what is left. */
  function Trim(s: string): string {
    var t := s[LeadingWhitespace(s)..];
    t[..|t| - TrailingWhitespace(t)]
  }

  /** `s.trim()` is empty exactly when `s` consists of whitespace only. */
  lemma TrimEmptyIffBlank(s: string)
    ensures Trim(s) == "" <==> IsBlank(s)
  {
    var l := LeadingWhitespace(s);
    var t := s[l..];
    LeadingWhitespaceMeaning(s);
    TrailingWhitespaceMeaning(t);
    if l < |s| {
      assert !IsWhitespace(t[0]);
      assert !IsBlank(s) by { assert !IsWhitespace(s[l]); }
      assert TrailingWhitespace(t) < |t|;
      assert |Trim(s)| > 0;
    } else {
      assert s == s[..l];
      assert |t| == 0;
    }
  }

  /** `trim` leaves no whitespace at either end of a non-empty result. */
  lemma TrimEdges(s: string)
    requires Trim(s) != ""
    ensures !IsWhitespace(Trim(s)[0]) && !IsWhitespace(Trim(s)[|Trim(s)| - 1])
  {
    var t := s[LeadingWhitespace(s)..];
    LeadingWhitespaceMeaning(s);
    TrailingWhitespaceMeaning(t);
    assert Trim(s)[0] == t[0] == s[LeadingWhitespace(s)];
    assert Trim(s)[|Trim(s)| - 1] == t[|t| - TrailingWhitespace(t) - 1];
  }

  // ---------------------------------------------------------------------------
  // Searching
  // ---------------------------------------------------------------------------

  predicate OccursAt(s: string, sub: string, i: int) {
    0 <= i && i + |sub| <= |s| && s[i..i + |sub|] == sub
  }

  predicate Contains(s: string, sub: string) {
    exists i :: 0 <= i <= |s| && OccursAt(s, sub, i)
  }

  predicate StartsWith(s: string, prefix: string) {
    |prefix| <= |s| && s[..|prefix|] == prefix
  }

  predicate EndsWith(s: string, suffix: string) {
    |suffix| <= |s| && s[|s| - |suffix|..] == suffix
  }

  /** `s.indexOf(sub, from)` for `0 <= from`: the first occurrence at or after `from`, or -1. */
  function IndexOf(s: string, sub: string, from: nat): (r: int)
    ensures r == -1 || (from <= r && OccursAt(s, sub, r))
    ensures forall j :: from <= j && (r == -1 || j < r) ==> !OccursAt(s, sub, j)
    decreases |s| - from
  {
    if from + |sub| > |s| then -1
    else if s[from..from + |sub|] == sub then from
    else IndexOf(s, sub, from + 1)
  }

  // ---------------------------------------------------------------------------
  // split / join / replaceAll
  // ---------------------------------------------------------------------------

  /** `s.split(sep)` for a non-empty separator. */
  function Split(s: string, sep: string): (r: seq<string>)
    requires |sep| > 0
    ensures |r| >= 1
    decreases |s|
  {
    var i := IndexOf(s, sep, 0);
    if i == -1 then [s] else [s[..i]] + Split(s[i + |sep|..], sep)
  }

  /** `parts.join(sep)`. */
  function Join(parts: seq<string>, sep: string): string {
    if |parts| == 0 then ""
    else if |parts| == 1 then parts[0]
    else parts[0] + sep + Join(parts[1..], sep)
  }

  /** Joining the pieces of a split with the same separator gives back the input. */
  lemma {:induction false} SplitJoin(s: string, sep: string)
    requires |sep| > 0
    ensures Join(Split(s, sep), sep) == s
    decreases |s|
  {
    var i := IndexOf(s, sep, 0);
    if i != -1 {
      var rest := s[i + |sep|..];
      var tail := Split(rest, sep);
      SplitJoin(rest, sep);
      var parts := [s[..i]] + tail;
      assert Split(s, sep) == parts;
      assert parts[0] == s[..i] && parts[1..] == tail;
      assert Join(parts, sep) == s[..i] + sep + rest;
      assert s == s[..i] + s[i..i + |sep|] + rest;
    }
  }

  /** An occurrence inside a prefix is an occurrence in the whole string. */
  lemma OccursInPrefix(s: string, sub: string, i: nat, j: int)
    requires i <= |s| && OccursAt(s[..i], sub, j)
    ensures OccursAt(s, sub, j)
  {
    forall k | 0 <= k < |sub| ensures s[j..j + |sub|][k] == sub[k] {
      assert s[..i][j..j + |sub|][k] == sub[k];
    }
  }

  /** The text before the first occurrence does not contain the separator. */
  lemma FirstPieceFree(s: string, sep: string)
    requires |sep| > 0 && IndexOf(s, sep, 0) != -1
    ensures !Contains(s[..IndexOf(s, sep, 0)], sep)
  {
    var i := IndexOf(s, sep, 0);
    forall j | 0 <= j <= i && OccursAt(s[..i], sep, j) ensures false {
      OccursInPrefix(s, sep, i, j);
    }
  }

  /** No piece of a split contains the separator. */
  lemma {:induction false} SplitPiecesFree(s: string, sep: string)
    requires |sep| > 0
    ensures forall k :: 0 <= k < |Split(s, sep)| ==> !Contains(Split(s, sep)[k], sep)
    decreases |s|
  {
    var i := IndexOf(s, sep, 0);
    if i == -1 {
      assert Split(s, sep) == [s];
    } else {
      var rest := s[i + |sep|..];
      SplitPiecesFree(rest, sep);
      var parts := Split(s, sep);
      assert parts == [s[..i]] + Split(rest, sep);
      FirstPieceFree(s, sep);
      forall k | 0 <= k < |parts| ensures !Contains(parts[k], sep) {
        if k > 0 {
          assert parts[k] == Split(rest, sep)[k - 1];
        }
      }
    }
  }

  /** `s.replaceAll(c, with)` for a one-character pattern. */
  function ReplaceChar(s: string, c: char, with: string): (r: string)
    ensures c !in s ==> r == s
  {
    if |s| == 0 then ""
    else (if s[0] == c then with else [s[0]]) + ReplaceChar(s[1..], c, with)
  }

  lemma ReplaceCharAppend(a: string, b: string, c: char, with: string)
    ensures ReplaceChar(a + b, c, with) == ReplaceChar(a, c, with) + ReplaceChar(b, c, with)
  {
    if |a| > 0 {
      assert (a + b)[1..] == a[1..] + b;
      ReplaceCharAppend(a[1..], b, c, with);
    } else {
      assert a + b == b;
    }
  }
}
