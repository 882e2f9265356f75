/** Width-preserving masking of template source, shared by the text extractor
    (src/ast/visitors/text-extractor.js) and the older helper rule
    (src/ast/rules/mark-used-helpers.js), which carry the same code: a span of the
    array of source lines is overwritten with a `__TT…__` placeholder of exactly the
    span's width, so that every other offset of the file keeps its line and column. */
module SourceMarker {
  import opened Wrappers
  import opened Ast
  import opened JsString

  const MarkerStart: string := "__TT"
  const MarkerEnd: string := "__"
  const MinMarkerWidth: int := |MarkerStart| + |MarkerEnd|

  const WidthError: Error := Thrown("Unexpected string width")
  const StateError: Error := Thrown("Unexpected state")
  /** What reading `.slice` or `.length` of a missing array entry (`undefined`) raises. */
  const SliceOfUndefined: Error := TypeError("Cannot read properties of undefined (reading 'slice')")
  const LengthOfUndefined: Error := TypeError("Cannot read properties of undefined (reading 'length')")

  // ---------------------------------------------------------------------------
  // Markers
  // ---------------------------------------------------------------------------

  function Dots(n: nat): (r: string)
    ensures |r| == n && forall i :: 0 <= i < n ==> r[i] == '.'
  {
    if n == 0 then "" else Dots(n - 1) + "."
  }

  /** `__TT`, then only dots, then `__`. */
  predicate IsMarker(s: string) {
    && |s| >= MinMarkerWidth
    && StartsWith(s, MarkerStart)
    && EndsWith(s, MarkerEnd)
    && forall i :: |MarkerStart| <= i < |s| - |MarkerEnd| ==> s[i] == '.'
  }

  /** `markerOfWidth`: throws below the minimum width, otherwise a marker of exactly `width`. */
  function MarkerOfWidth(width: int): (r: Result<string>)
    ensures r.Ok? <==> width >= MinMarkerWidth
    ensures r.Ok? ==> |r.value| == width && IsMarker(r.value)
    ensures r.Err? ==> r.error == WidthError
  {
    if width < MinMarkerWidth then Err(WidthError)
    else if width == MinMarkerWidth then Ok(MarkerStart + MarkerEnd)
    else Ok(MarkerStart + Dots(width - MinMarkerWidth) + MarkerEnd)
  }

  /** A marker is determined by its width. */
  lemma MarkerUnique(s: string)
    requires IsMarker(s)
    ensures MarkerOfWidth(|s|) == Ok(s)
  {
    var m := MarkerOfWidth(|s|).value;
    assert |m| == |s|;
    forall i | 0 <= i < |s| ensures m[i] == s[i] {
      if i < |MarkerStart| {
        assert m[i] == m[..|MarkerStart|][i] && s[i] == s[..|MarkerStart|][i];
      } else if i >= |s| - |MarkerEnd| {
        assert m[i] == m[|s| - |MarkerEnd|..][i - (|s| - |MarkerEnd|)];
        assert s[i] == s[|s| - |MarkerEnd|..][i - (|s| - |MarkerEnd|)];
      }
    }
    assert m == s;
  }

  /** `isLocSame`: same line and same column. */
  function IsLocSame(left: Position, right: Position): (r: bool)
    ensures r <==> left == right
  {
    left.line == right.line && left.column == right.column
  }

  // ---------------------------------------------------------------------------
  // markSource, as a function of the lines before the call
  // ---------------------------------------------------------------------------

  /** The lines after a `markSource` call and whether it returned or threw. A throw can
      come after some lines were already written; those writes are kept. */
  datatype Marked = Marked(lines: seq<string>, outcome: Outcome)

  /** `lines[i - 1]`, which is `undefined` outside the array. */
  function LineAt(lines: seq<string>, i: int): Option<string> {
    if 1 <= i <= |lines| then Some(lines[i - 1]) else None
  }

  function SegStart(startLine: int, startColumn: int, i: int): int {
    if i == startLine then startColumn else 0
  }

  function SegEnd(line: string, endLine: int, endColumn: int, i: int): int {
    if i == endLine then endColumn else |line|
  }

  /** The single-line case: the marker replaces `[startColumn, endColumn)` of the line,
      the line is written, and only then is its length checked. */
  function MarkSingle(lines: seq<string>, lineNo: int, startColumn: int, endColumn: int): Marked {
    match LineAt(lines, lineNo)
    case None => Marked(lines, Fail(SliceOfUndefined))
    case Some(line) =>
      match MarkerOfWidth(endColumn - startColumn)
      case Err(e) => Marked(lines, Fail(e))
      case Ok(marker) =>
        var written := Slice(line, 0, startColumn) + marker + Slice(line, endColumn, |line|);
        var out := lines[lineNo - 1 := written];
        if |line| != |written| then Marked(out, Fail(StateError)) else Marked(out, Pass)
  }

  /** Pass 1 of the multi-line case from line `i` on, with `width` summed so far. The length
      of every line but the last is read, so a missing one throws. */
  function Pass1(lines: seq<string>, startLine: int, startColumn: int, endLine: int, endColumn: int,
                 i: int, width: int): Result<int>
    decreases endLine - i + 1
  {
    if i > endLine then Ok(width)
    else if i != endLine && LineAt(lines, i).None? then Err(LengthOfUndefined)
    else
      var e := if i == endLine then endColumn else |LineAt(lines, i).value|;
      Pass1(lines, startLine, startColumn, endLine, endColumn, i + 1, width + e - SegStart(startLine, startColumn, i))
  }

  /** Pass 2 of the multi-line case from line `i` on, `markerIndex` characters of the
      marker already placed. */
  function Pass2(lines: seq<string>, marker: string, startLine: int, startColumn: int, endLine: int, endColumn: int,
                 i: int, markerIndex: int): Marked
    decreases endLine - i + 1
  {
    if i > endLine then Marked(lines, Pass)
    else match LineAt(lines, i)
      case None => Marked(lines, Fail(SliceOfUndefined))
      case Some(line) =>
        var s := SegStart(startLine, startColumn, i);
        var e := SegEnd(line, endLine, endColumn, i);
        Pass2(lines[i - 1 := WriteSegment(line, marker, s, e, markerIndex)], marker,
              startLine, startColumn, endLine, endColumn, i + 1, markerIndex + e - s)
  }

  /** The line pass 2 writes: the line's text before `s`, the next `e - s` characters of the
      marker from `markerIndex`, the line's text from `e`. */
  function WriteSegment(line: string, marker: string, s: int, e: int, markerIndex: int): string {
    Slice(line, 0, s) + Slice(marker, markerIndex, markerIndex + e - s) + Slice(line, e, |line|)
  }

  /** `markSource(start, end)` applied to `lines`. */
  function MarkSpan(lines: seq<string>, start: Position, end: Position): Marked {
    if start.line == end.line then MarkSingle(lines, start.line, start.column, end.column)
    else match Pass1(lines, start.line, start.column, end.line, end.column, start.line, 0)
      case Err(e) => Marked(lines, Fail(e))
      case Ok(width) =>
        match MarkerOfWidth(width)
        case Err(e) => Marked(lines, Fail(e))
        case Ok(marker) => Pass2(lines, marker, start.line, start.column, end.line, end.column, start.line, 0)
  }

  /** `markSource` with its two loops over a local copy of the lines. */
  method MarkLines(lines: seq<string>, start: Position, end: Position) returns (m: Marked)
    ensures m == MarkSpan(lines, start, end)
  {
    var startLine, startColumn := start.line, start.column;
    var endLine, endColumn := end.line, end.column;

    if startLine == endLine {
      if !(1 <= startLine <= |lines|) {
        return Marked(lines, Fail(SliceOfUndefined));
      }
      var line := lines[startLine - 1];
      var marker := MarkerOfWidth(endColumn - startColumn);
      if marker.Err? {
        return Marked(lines, Fail(marker.error));
      }
      var written := Slice(line, 0, startColumn) + marker.value + Slice(line, endColumn, |line|);
      var out := lines[startLine - 1 := written];
      if |line| != |written| {
        return Marked(out, Fail(StateError));
      }
      return Marked(out, Pass);
    }

    var markerWidth := 0;
    var i := startLine;
    while i <= endLine
      invariant Pass1(lines, startLine, startColumn, endLine, endColumn, startLine, 0)
             == Pass1(lines, startLine, startColumn, endLine, endColumn, i, markerWidth)
      decreases endLine - i + 1
    {
      if i != endLine && !(1 <= i <= |lines|) {
        return Marked(lines, Fail(LengthOfUndefined));
      }
      var startingIndex := if i == startLine then startColumn else 0;
      var endingIndex := if i == endLine then endColumn else |lines[i - 1]|;
      markerWidth := markerWidth + endingIndex - startingIndex;
      i := i + 1;
    }

    var marker := MarkerOfWidth(markerWidth);
    if marker.Err? {
      return Marked(lines, Fail(marker.error));
    }
    var markerIndex := 0;
    var current := lines;
    i := startLine;
    while i <= endLine
      invariant Pass2(lines, marker.value, startLine, startColumn, endLine, endColumn, startLine, 0)
             == Pass2(current, marker.value, startLine, startColumn, endLine, endColumn, i, markerIndex)
      decreases endLine - i + 1
    {
      if !(1 <= i <= |current|) {
        return Marked(current, Fail(SliceOfUndefined));
      }
      var line := current[i - 1];
      var startingIndex := if i == startLine then startColumn else 0;
      var endingIndex := if i == endLine then endColumn else |line|;
      var width := endingIndex - startingIndex;
      current := current[i - 1 := WriteSegment(line, marker.value, startingIndex, endingIndex, markerIndex)];
      markerIndex := markerIndex + width;
      i := i + 1;
    }
    return Marked(current, Pass);
  }

  // ---------------------------------------------------------------------------
  // What markSource does
  // ---------------------------------------------------------------------------

  /** Whatever happens, the array keeps its size and only entries `start.line..end.line`
      may change. */
  lemma MarkSpanFrame(lines: seq<string>, start: Position, end: Position)
    ensures |MarkSpan(lines, start, end).lines| == |lines|
    ensures forall k :: 0 <= k < |lines| && !(start.line <= k + 1 <= end.line) ==>
              MarkSpan(lines, start, end).lines[k] == lines[k]
  {
    if start.line != end.line {
      var p1 := Pass1(lines, start.line, start.column, end.line, end.column, start.line, 0);
      if p1.Ok? && MarkerOfWidth(p1.value).Ok? {
        Pass2Frame(lines, MarkerOfWidth(p1.value).value, start.line, start.column, end.line, end.column, start.line, 0);
      }
    }
  }

  lemma {:induction false} Pass2Frame(lines: seq<string>, marker: string, startLine: int, startColumn: int,
                                      endLine: int, endColumn: int, i: int, markerIndex: int)
    ensures var r := Pass2(lines, marker, startLine, startColumn, endLine, endColumn, i, markerIndex);
      && |r.lines| == |lines|
      && forall k :: 0 <= k < |lines| && !(i <= k + 1 <= endLine) ==> r.lines[k] == lines[k]
    decreases endLine - i + 1
  {
    if i <= endLine && LineAt(lines, i).Some? {
      var line := lines[i - 1];
      var s := SegStart(startLine, startColumn, i);
      var e := SegEnd(line, endLine, endColumn, i);
      Pass2Frame(lines[i - 1 := WriteSegment(line, marker, s, e, markerIndex)], marker,
                 startLine, startColumn, endLine, endColumn, i + 1, markerIndex + e - s);
    }
  }

  /** Single line, columns inside the line: the call succeeds exactly when the span is at
      least the minimum marker width, and then the line keeps its length, its text before
      `startColumn` and from `endColumn` on, and holds the marker in between. */
  lemma MarkSingleLine(lines: seq<string>, start: Position, end: Position)
    requires start.line == end.line && 1 <= start.line <= |lines|
    requires 0 <= start.column <= end.column <= |lines[start.line - 1]|
    ensures var r := MarkSpan(lines, start, end); var line := lines[start.line - 1];
      && (r.outcome.Pass? <==> end.column - start.column >= MinMarkerWidth)
      && (r.outcome.Fail? ==> r.outcome.error == WidthError && r.lines == lines)
      && (r.outcome.Pass? ==>
            && |r.lines[start.line - 1]| == |line|
            && r.lines[start.line - 1]
               == line[..start.column] + MarkerOfWidth(end.column - start.column).value + line[end.column..])
  {
    var line := lines[start.line - 1];
    SliceFacts(line, 0, start.column);
    SliceFacts(line, end.column, |line|);
  }

  /** Single line, any columns: a call that returns has kept the line's length; the
      `Unexpected state` throw comes after the line was overwritten with a different length. */
  lemma MarkSingleLineChecked(lines: seq<string>, start: Position, end: Position)
    requires start.line == end.line && 1 <= start.line <= |lines|
    ensures var r := MarkSpan(lines, start, end);
      && (r.outcome.Pass? ==> |r.lines[start.line - 1]| == |lines[start.line - 1]|)
      && (r.outcome == Fail(StateError) ==> |r.lines[start.line - 1]| != |lines[start.line - 1]|)
  {
  }

  // ---------------------------------------------------------------------------
  // The multi-line case
  // ---------------------------------------------------------------------------

  /** A multi-line span whose lines exist and whose columns lie inside their lines. */
  predicate SpanInRange(lines: seq<string>, start: Position, end: Position) {
    && 1 <= start.line < end.line <= |lines|
    && 0 <= start.column <= |lines[start.line - 1]|
    && 0 <= end.column <= |lines[end.line - 1]|
  }

  /** The part of line `i` a multi-line span covers: from `start.column` on the first line,
      the whole of an inner line, up to `end.column` on the last line. */
  function Segment(lines: seq<string>, start: Position, end: Position, i: int): string
    requires SpanInRange(lines, start, end) && start.line <= i <= end.line
  {
    var line := lines[i - 1];
    line[SegStart(start.line, start.column, i)..SegEnd(line, end.line, end.column, i)]
  }

  /** The covered parts of lines `i..end.line`, in line order. */
  function Segments(lines: seq<string>, start: Position, end: Position, i: int): seq<string>
    requires SpanInRange(lines, start, end) && start.line <= i
    decreases end.line - i + 1
  {
    if i > end.line then [] else [Segment(lines, start, end, i)] + Segments(lines, start, end, i + 1)
  }

  function Concat(parts: seq<string>): string {
    if |parts| == 0 then "" else parts[0] + Concat(parts[1..])
  }

  /** The covered parts from line `i` are line `i`'s part followed by the rest. */
  lemma SegmentsCons(lines: seq<string>, start: Position, end: Position, i: int)
    requires SpanInRange(lines, start, end) && start.line <= i <= end.line
    ensures Segments(lines, start, end, i) == [Segment(lines, start, end, i)] + Segments(lines, start, end, i + 1)
    ensures Concat(Segments(lines, start, end, i)) == Segment(lines, start, end, i) + Concat(Segments(lines, start, end, i + 1))
  {
    var parts := Segments(lines, start, end, i);
    assert parts[1..] == Segments(lines, start, end, i + 1);
  }

  /** The covered part of line `i` of a span inside the lines lies inside that line. */
  lemma SegmentBounds(lines: seq<string>, start: Position, end: Position, i: int)
    requires SpanInRange(lines, start, end) && start.line <= i <= end.line
    ensures 0 <= SegStart(start.line, start.column, i) <= SegEnd(lines[i - 1], end.line, end.column, i) <= |lines[i - 1]|
  {
  }

  /** The total width of the covered parts of lines `i..end.line`: what pass 1 sums. */
  function SpanWidth(lines: seq<string>, start: Position, end: Position, i: int): int
    requires 1 <= i && end.line <= |lines|
    decreases end.line - i + 1
  {
    if i > end.line then 0
    else SegEnd(lines[i - 1], end.line, end.column, i) - SegStart(start.line, start.column, i)
         + SpanWidth(lines, start, end, i + 1)
  }

  lemma {:induction false} SpanWidthBounds(lines: seq<string>, start: Position, end: Position, i: int, j: int)
    requires SpanInRange(lines, start, end) && start.line <= i <= j
    ensures 0 <= SpanWidth(lines, start, end, j) <= SpanWidth(lines, start, end, i)
    decreases end.line - i + 1
  {
    if i <= end.line {
      SegmentBounds(lines, start, end, i);
      SpanWidthBounds(lines, start, end, i + 1, if i < j then j else i + 1);
    }
  }

  /** The covered parts, read in line order, are as wide as the span. */
  lemma {:induction false} ConcatSegmentsWidth(lines: seq<string>, start: Position, end: Position, i: int)
    requires SpanInRange(lines, start, end) && start.line <= i
    ensures |Concat(Segments(lines, start, end, i))| == SpanWidth(lines, start, end, i)
    decreases end.line - i + 1
  {
    if i <= end.line {
      SegmentsCons(lines, start, end, i);
      SegmentBounds(lines, start, end, i);
      ConcatSegmentsWidth(lines, start, end, i + 1);
    }
  }

  /** Pass 1 sums the widths of the covered parts. */
  lemma {:induction false} Pass1Sums(lines: seq<string>, start: Position, end: Position, i: int, width: int)
    requires SpanInRange(lines, start, end) && start.line <= i <= end.line + 1
    ensures Pass1(lines, start.line, start.column, end.line, end.column, i, width)
         == Ok(width + SpanWidth(lines, start, end, i))
    decreases end.line - i + 1
  {
    if i <= end.line {
      var e := SegEnd(lines[i - 1], end.line, end.column, i);
      Pass1Sums(lines, start, end, i + 1, width + e - SegStart(start.line, start.column, i));
    }
  }

  /** Two arrays of lines that agree in length line by line. */
  predicate SameShape(a: seq<string>, b: seq<string>) {
    |a| == |b| && forall k :: 0 <= k < |a| ==> |a[k]| == |b[k]|
  }

  /** Overwriting `[s, e)` of a line with as many characters keeps the rest of the line. */
  lemma WriteStep(line: string, placed: string, s: int, e: int)
    requires 0 <= s <= e <= |line| && |placed| == e - s
    ensures var written := line[..s] + placed + line[e..];
      && |written| == |line| && written[..s] == line[..s] && written[e..] == line[e..]
      && written[s..e] == placed
  {
    var written := line[..s] + placed + line[e..];
    assert written[..s] == line[..s];
    assert written[s..e] == placed;
    assert written[e..] == line[e..];
  }

  /** Inside the line and the marker, `WriteSegment` overwrites `[s, e)` with the next
      `e - s` marker characters and keeps the rest of the line. */
  lemma WriteSegmentInRange(line: string, marker: string, s: int, e: int, markerIndex: int)
    requires 0 <= s <= e <= |line| && 0 <= markerIndex && markerIndex + e - s <= |marker|
    ensures var written := WriteSegment(line, marker, s, e, markerIndex);
      && |written| == |line| && written[..s] == line[..s] && written[e..] == line[e..]
      && written[s..e] == marker[markerIndex..markerIndex + e - s]
  {
    var placed := marker[markerIndex..markerIndex + e - s];
    WriteSegmentIs(line, marker, s, e, markerIndex);
    WriteStep(line, placed, s, e);
  }

  /** Inside the line and the marker, the three slices of `WriteSegment` are plain
      subsequences. */
  lemma WriteSegmentIs(line: string, marker: string, s: int, e: int, markerIndex: int)
    requires 0 <= s <= e <= |line| && 0 <= markerIndex && markerIndex + e - s <= |marker|
    ensures WriteSegment(line, marker, s, e, markerIndex)
         == line[..s] + marker[markerIndex..markerIndex + e - s] + line[e..]
  {
    SliceWithin(line, 0, s);
    assert line[0..s] == line[..s];
    SliceWithin(marker, markerIndex, markerIndex + e - s);
    SliceWithin(line, e, |line|);
    assert line[e..|line|] == line[e..];
  }

  /** Pass 2 over lines that all exist returns and keeps the array's size. */
  lemma {:induction false} Pass2Returns(cur: seq<string>, marker: string, start: Position, end: Position,
                                        i: int, markerIndex: int)
    requires 1 <= i && end.line <= |cur|
    ensures var r := Pass2(cur, marker, start.line, start.column, end.line, end.column, i, markerIndex);
      r.outcome == Pass && |r.lines| == |cur|
    decreases end.line - i + 1
  {
    if i <= end.line {
      var line := cur[i - 1];
      var s, e := SegStart(start.line, start.column, i), SegEnd(line, end.line, end.column, i);
      Pass2Returns(cur[i - 1 := WriteSegment(line, marker, s, e, markerIndex)], marker, start, end, i + 1, markerIndex + e - s);
    }
  }

  /** Writing a line before line `i` does not change the width of the span from line `i` on. */
  lemma {:induction false} SpanWidthUpdate(lines: seq<string>, p: int, x: string, start: Position, end: Position, i: int)
    requires 0 <= p < i - 1 && p < |lines| && end.line <= |lines|
    ensures SpanWidth(lines[p := x], start, end, i) == SpanWidth(lines, start, end, i)
    decreases end.line - i + 1
  {
    if i <= end.line {
      SpanWidthUpdate(lines, p, x, start, end, i + 1);
    }
  }

  /** What pass 2 leaves at index `k` of the array (line `k + 1`) when it starts at line `i`
      with `markerIndex` marker characters placed, for a line from `i` to the last: its
      covered part overwritten from marker offset `markerIndex` plus the widths of the
      covered parts before it. (`Pass2Frame` says every other entry is kept.) */
  lemma {:induction false} Pass2At(lines: seq<string>, marker: string, start: Position, end: Position,
                                   i: int, markerIndex: int, k: int)
    requires 1 <= i && end.line <= |lines| && i - 1 <= k < end.line
    ensures var r := Pass2(lines, marker, start.line, start.column, end.line, end.column, i, markerIndex);
      && k < |r.lines|
      && r.lines[k] == WriteSegment(lines[k], marker, SegStart(start.line, start.column, k + 1),
                                    SegEnd(lines[k], end.line, end.column, k + 1),
                                    markerIndex + SpanWidth(lines, start, end, i) - SpanWidth(lines, start, end, k + 1))
    decreases end.line - i + 1
  {
    var line := lines[i - 1];
    var s, e := SegStart(start.line, start.column, i), SegEnd(line, end.line, end.column, i);
    var next := lines[i - 1 := WriteSegment(line, marker, s, e, markerIndex)];
    if k == i - 1 {
      Pass2Frame(next, marker, start.line, start.column, end.line, end.column, i + 1, markerIndex + e - s);
    } else {
      Pass2At(next, marker, start, end, i + 1, markerIndex + e - s, k);
      SpanWidthUpdate(lines, i - 1, next[i - 1], start, end, i + 1);
      SpanWidthUpdate(lines, i - 1, next[i - 1], start, end, k + 1);
    }
  }

  /** Line `k + 1` of `r` has the length of line `k + 1` of `orig` and the same text
      outside the part of it the span covers. */
  predicate KeepsOutside(orig: seq<string>, r: seq<string>, start: Position, end: Position, k: int)
    requires 0 <= k < |orig| && |r| == |orig|
  {
    var line := orig[k];
    var s, e := SegStart(start.line, start.column, k + 1), SegEnd(line, end.line, end.column, k + 1);
    && |r[k]| == |line|
    && 0 <= s <= e <= |line|
    && r[k][..s] == line[..s] && r[k][e..] == line[e..]
  }

  /** The covered part of line `k + 1` of `r` holds the marker characters that come after
      the covered parts of the lines before it. */
  predicate PlacedAt(orig: seq<string>, r: seq<string>, marker: string, start: Position, end: Position, k: int)
    requires SpanInRange(orig, start, end) && start.line - 1 <= k < end.line
  {
    var a, b := |marker| - SpanWidth(orig, start, end, k + 1), |marker| - SpanWidth(orig, start, end, k + 2);
    var s, e := SegStart(start.line, start.column, k + 1), SegEnd(orig[k], end.line, end.column, k + 1);
    && 0 <= a <= b <= |marker| && k < |r| && 0 <= s <= e <= |r[k]|
    && r[k][s..e] == marker[a..b]
  }

  /** Lines whose covered parts hold consecutive slices of `marker` spell `marker` from the
      offset of line `j` on. */
  lemma {:induction false} SegmentsSpell(orig: seq<string>, r: seq<string>, marker: string,
                                         start: Position, end: Position, j: int)
    requires SpanInRange(orig, start, end) && SameShape(orig, r) && start.line <= j <= end.line + 1
    requires SpanWidth(orig, start, end, start.line) == |marker|
    requires forall k :: j - 1 <= k < end.line ==> PlacedAt(orig, r, marker, start, end, k)
    ensures SpanInRange(r, start, end)
    ensures 0 <= SpanWidth(orig, start, end, j) <= |marker|
    ensures Concat(Segments(r, start, end, j)) == marker[|marker| - SpanWidth(orig, start, end, j)..]
    decreases end.line - j + 1
  {
    SpanWidthBounds(orig, start, end, start.line, j);
    if j <= end.line {
      SegmentsSpell(orig, r, marker, start, end, j + 1);
      SegmentsCons(r, start, end, j);
      assert PlacedAt(orig, r, marker, start, end, j - 1);
      var a := |marker| - SpanWidth(orig, start, end, j);
      var b := |marker| - SpanWidth(orig, start, end, j + 1);
      assert Segment(r, start, end, j) == marker[a..b];
      assert marker[a..] == marker[a..b] + marker[b..];
    } else {
      assert marker[|marker|..] == [];
    }
  }

  /** Pass 2 writes line `k + 1` of a span inside the lines at its offset into the marker. */
  predicate WrittenAt(lines: seq<string>, written: seq<string>, marker: string, start: Position, end: Position, k: int)
    requires SpanInRange(lines, start, end) && 0 <= k < |lines|
  {
    && |written| == |lines|
    && written[k] == WriteSegment(lines[k], marker, SegStart(start.line, start.column, k + 1),
                                  SegEnd(lines[k], end.line, end.column, k + 1),
                                  |marker| - SpanWidth(lines, start, end, k + 1))
  }

  /** A covered line written by pass 2 keeps its length and its text outside the covered part. */
  lemma CoveredLineKeeps(lines: seq<string>, written: seq<string>, marker: string, start: Position, end: Position, k: int)
    requires SpanInRange(lines, start, end) && start.line - 1 <= k < end.line
    requires |marker| == SpanWidth(lines, start, end, start.line)
    requires WrittenAt(lines, written, marker, start, end, k)
    ensures KeepsOutside(lines, written, start, end, k)
  {
    SpanWidthBounds(lines, start, end, start.line, k + 1);
    SpanWidthBounds(lines, start, end, k + 1, k + 2);
    SegmentBounds(lines, start, end, k + 1);
    var s, e := SegStart(start.line, start.column, k + 1), SegEnd(lines[k], end.line, end.column, k + 1);
    WriteSegmentInRange(lines[k], marker, s, e, |marker| - SpanWidth(lines, start, end, k + 1));
  }

  /** A covered line written by pass 2 holds its share of the marker in the covered part. */
  lemma CoveredLinePlaced(lines: seq<string>, written: seq<string>, marker: string, start: Position, end: Position, k: int)
    requires SpanInRange(lines, start, end) && start.line - 1 <= k < end.line
    requires |marker| == SpanWidth(lines, start, end, start.line)
    requires WrittenAt(lines, written, marker, start, end, k)
    ensures PlacedAt(lines, written, marker, start, end, k)
  {
    SpanWidthBounds(lines, start, end, start.line, k + 1);
    SpanWidthBounds(lines, start, end, k + 1, k + 2);
    SegmentBounds(lines, start, end, k + 1);
    var s, e := SegStart(start.line, start.column, k + 1), SegEnd(lines[k], end.line, end.column, k + 1);
    WriteSegmentInRange(lines[k], marker, s, e, |marker| - SpanWidth(lines, start, end, k + 1));
  }

  /** One line after a successful multi-line pass 2: it keeps its length; a covered line keeps
      its text outside the covered part and holds its share of the marker in it. */
  lemma MarkedLine(lines: seq<string>, start: Position, end: Position, k: int)
    requires SpanInRange(lines, start, end) && SpanWidth(lines, start, end, start.line) >= MinMarkerWidth
    requires 0 <= k < |lines|
    ensures var marker := MarkerOfWidth(SpanWidth(lines, start, end, start.line)).value;
      var r := Pass2(lines, marker, start.line, start.column, end.line, end.column, start.line, 0);
      && |r.lines| == |lines| && |r.lines[k]| == |lines[k]|
      && (start.line - 1 <= k < end.line ==>
            KeepsOutside(lines, r.lines, start, end, k) && PlacedAt(lines, r.lines, marker, start, end, k))
  {
    var marker := MarkerOfWidth(SpanWidth(lines, start, end, start.line)).value;
    var r := Pass2(lines, marker, start.line, start.column, end.line, end.column, start.line, 0);
    Pass2Returns(lines, marker, start, end, start.line, 0);
    Pass2Frame(lines, marker, start.line, start.column, end.line, end.column, start.line, 0);
    if start.line - 1 <= k < end.line {
      Pass2At(lines, marker, start, end, start.line, 0, k);
      assert WrittenAt(lines, r.lines, marker, start, end, k);
      CoveredLineKeeps(lines, r.lines, marker, start, end, k);
      CoveredLinePlaced(lines, r.lines, marker, start, end, k);
    }
  }

  /** Multi-line span inside the lines: the marker width is the sum of the covered parts'
      widths; the call succeeds exactly when that reaches the minimum marker width (and
      changes nothing when it does not); on success every line keeps its length, every
      covered line keeps its text outside the covered part, and the covered parts read in
      line order spell the marker. */
  lemma MarkMultiLine(lines: seq<string>, start: Position, end: Position)
    requires SpanInRange(lines, start, end)
    ensures var width := SpanWidth(lines, start, end, start.line);
      var r := MarkSpan(lines, start, end);
      && width == |Concat(Segments(lines, start, end, start.line))|
      && Pass1(lines, start.line, start.column, end.line, end.column, start.line, 0) == Ok(width)
      && (r.outcome.Pass? <==> width >= MinMarkerWidth)
      && (r.outcome.Fail? ==> r.outcome.error == WidthError && r.lines == lines)
      && (r.outcome.Pass? ==>
            && SameShape(lines, r.lines)
            && SpanInRange(r.lines, start, end)
            && (forall k :: start.line - 1 <= k < end.line ==> KeepsOutside(lines, r.lines, start, end, k))
            && Concat(Segments(r.lines, start, end, start.line)) == MarkerOfWidth(width).value)
  {
    var width := SpanWidth(lines, start, end, start.line);
    ConcatSegmentsWidth(lines, start, end, start.line);
    Pass1Sums(lines, start, end, start.line, 0);
    if width >= MinMarkerWidth {
      MarkMultiLinePassed(lines, start, end);
    }
  }

  /** The success half of `MarkMultiLine`: a wide enough span is overwritten line by line
      with the marker. */
  lemma MarkMultiLinePassed(lines: seq<string>, start: Position, end: Position)
    requires SpanInRange(lines, start, end) && SpanWidth(lines, start, end, start.line) >= MinMarkerWidth
    ensures var marker := MarkerOfWidth(SpanWidth(lines, start, end, start.line)).value;
      var r := Pass2(lines, marker, start.line, start.column, end.line, end.column, start.line, 0);
      && r.outcome.Pass?
      && SameShape(lines, r.lines)
      && SpanInRange(r.lines, start, end)
      && (forall k :: start.line - 1 <= k < end.line ==> KeepsOutside(lines, r.lines, start, end, k))
      && Concat(Segments(r.lines, start, end, start.line)) == marker
  {
    var marker := MarkerOfWidth(SpanWidth(lines, start, end, start.line)).value;
    var r := Pass2(lines, marker, start.line, start.column, end.line, end.column, start.line, 0);
    Pass2Returns(lines, marker, start, end, start.line, 0);
    forall k | 0 <= k < |lines|
      ensures |r.lines[k]| == |lines[k]|
      ensures start.line - 1 <= k < end.line ==>
                KeepsOutside(lines, r.lines, start, end, k) && PlacedAt(lines, r.lines, marker, start, end, k)
    {
      MarkedLine(lines, start, end, k);
    }
    SegmentsSpell(lines, r.lines, marker, start, end, start.line);
  }

  // ---------------------------------------------------------------------------
  // BlockStatement
  // ---------------------------------------------------------------------------

  datatype Span = Span(start: Position, end: Position)

  /** Both ends of `inner` are on lines of `outer`. */
  predicate LinesWithin(outer: SourceLocation, inner: SourceLocation) {
    && outer.start.line <= inner.start.line <= outer.end.line
    && outer.start.line <= inner.end.line <= outer.end.line
  }

  /** A block's branches lie within the block's own lines. */
  predicate BranchesInside(node: Node) {
    node.BlockStatement? ==>
      (node.program.Some? ==> LinesWithin(node.loc, node.program.value.loc))
      && (node.inverse.Some? ==> LinesWithin(node.loc, node.inverse.value.loc))
  }

  /** The spans `BlockStatement` masks: the open tag and, when there is an else branch, the
      separator between the branches; the closing tag unless the else branch ends where the
      block ends (an `else` chained into another block has no closing tag of its own). */
  function BlockSpans(loc: SourceLocation, program: Option<Program>, inverse: Option<Program>): (r: Result<seq<Span>>)
    ensures r.Err? <==> program.None? && inverse.None?
    ensures r.Err? ==> r.error == StateError
    ensures r.Ok? ==> 2 <= |r.value| <= 3 && r.value[0].start == loc.start
    ensures r.Ok? && |r.value| == 3 ==> program.Some? && inverse.Some? && r.value[2].end == loc.end
    ensures r.Ok? && (program.None? || inverse.None?) ==> |r.value| == 2 && r.value[1].end == loc.end
    ensures program.Some? && inverse.Some? ==>
              (|r.value| == 2 <==> inverse.value.loc.end == loc.end)
  {
    match (program, inverse)
    case (Some(ifTrue), Some(ifFalse)) =>
      Ok([Span(loc.start, ifTrue.loc.start), Span(ifTrue.loc.end, ifFalse.loc.start)]
         + (if !IsLocSame(ifFalse.loc.end, loc.end) then [Span(ifFalse.loc.end, loc.end)] else []))
    case (Some(ifTrue), None) =>
      Ok([Span(loc.start, ifTrue.loc.start), Span(ifTrue.loc.end, loc.end)])
    case (None, Some(ifFalse)) =>
      Ok([Span(loc.start, ifFalse.loc.start), Span(ifFalse.loc.end, loc.end)])
    case (None, None) =>
      Err(StateError)
  }

  /** A branch's body never falls inside a masked span: when the block and its branches
      are laid out in order, the masked spans are ordered, do not overlap, and each ends
      no later than the next branch body begins. */
  lemma BlockSpansAvoidBranches(loc: SourceLocation, program: Option<Program>, inverse: Option<Program>)
    requires program.Some? || inverse.Some?
    requires program.Some? ==> PosLe(loc.start, program.value.loc.start)
                               && PosLe(program.value.loc.start, program.value.loc.end)
                               && PosLe(program.value.loc.end, loc.end)
    requires inverse.Some? ==> PosLe(loc.start, inverse.value.loc.start)
                               && PosLe(inverse.value.loc.start, inverse.value.loc.end)
                               && PosLe(inverse.value.loc.end, loc.end)
    requires program.Some? && inverse.Some? ==> PosLe(program.value.loc.end, inverse.value.loc.start)
    ensures var spans := BlockSpans(loc, program, inverse).value;
      && (forall k :: 0 <= k < |spans| ==> PosLe(spans[k].start, spans[k].end))
      && (forall k :: 0 <= k < |spans| - 1 ==> PosLe(spans[k].end, spans[k + 1].start))
      && (forall b :: b in [program, inverse] && b.Some? ==>
            forall k :: 0 <= k < |spans| ==>
              PosLe(spans[k].end, b.value.loc.start) || PosLe(b.value.loc.end, spans[k].start))
  {
  }

  /** The spans marked one after another, stopping at the first throw. */
  function MarkAll(lines: seq<string>, spans: seq<Span>): Marked
    decreases |spans|
  {
    if |spans| == 0 then Marked(lines, Pass)
    else
      var m := MarkSpan(lines, spans[0].start, spans[0].end);
      if m.outcome.Fail? then m else MarkAll(m.lines, spans[1..])
  }

  /** Marking several spans keeps the array's size and changes no line outside them. */
  lemma {:induction false} MarkAllFrame(lines: seq<string>, spans: seq<Span>)
    ensures |MarkAll(lines, spans).lines| == |lines|
    ensures forall k :: 0 <= k < |lines| && (forall q :: 0 <= q < |spans| ==> !(spans[q].start.line <= k + 1 <= spans[q].end.line))
              ==> MarkAll(lines, spans).lines[k] == lines[k]
    decreases |spans|
  {
    if |spans| > 0 {
      var m := MarkSpan(lines, spans[0].start, spans[0].end);
      MarkSpanFrame(lines, spans[0].start, spans[0].end);
      MarkAllFrame(m.lines, spans[1..]);
      forall k | 0 <= k < |lines| && (forall q :: 0 <= q < |spans| ==> !(spans[q].start.line <= k + 1 <= spans[q].end.line))
        ensures MarkAll(lines, spans).lines[k] == lines[k]
      {
        assert !(spans[0].start.line <= k + 1 <= spans[0].end.line);
        forall q | 0 <= q < |spans[1..]| ensures !(spans[1..][q].start.line <= k + 1 <= spans[1..][q].end.line) {
          assert spans[1..][q] == spans[q + 1];
        }
      }
    }
  }

  /** The loop of `markSource` calls a handler makes. */
  method MarkSpans(lines: seq<string>, spans: seq<Span>) returns (m: Marked)
    ensures m == MarkAll(lines, spans)
  {
    var current := lines;
    var k := 0;
    while k < |spans|
      invariant 0 <= k <= |spans|
      invariant MarkAll(lines, spans) == MarkAll(current, spans[k..])
    {
      assert spans[k..][1..] == spans[k + 1..];
      var step := MarkLines(current, spans[k].start, spans[k].end);
      if step.outcome.Fail? {
        return step;
      }
      current := step.lines;
      k := k + 1;
    }
    return Marked(current, Pass);
  }
}
