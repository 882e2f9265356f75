/** The debugging helper (src/ast/debug.js). `debugGetSource` reads back the text a span
    covers in a line store: a rule's masked lines, its original lines, or a plain array of
    lines. A module-level flag chooses between a rule's two line stores. The function is
    the exact reference for what `markSource` overwrites: the lemmas below tie its result
    to the covered parts the marker is written over. */
module Debug {
  import opened Wrappers
  import opened Ast
  import opened JsString
  import opened SourceMarker

  /** The first argument: a rule, with its masked and its original lines, or an array of
      lines. */
  datatype Instance =
    | Rule(sourceLines: seq<string>, originalSourceLines: seq<string>)
    | LineArray(lines: seq<string>)

  /** The second argument: a node, of which only `loc` is read, or a start position. */
  datatype Target = NodeArg(loc: SourceLocation) | StartArg(start: Position)

  /** The text of `[start, end)` in `store`: the lines `start.line..end.line` are sliced out,
      the last one is cut at `end.column` first, then the first one from `start.column`, and
      the lines are joined with `'\n'`. When the slice is empty, reading its last entry
      gives `undefined` and `.slice` on it throws. */
  function SourceOf(store: seq<string>, start: Position, end: Position): Result<string> {
    var lines := Slice(store, start.line - 1, end.line);
    if |lines| == 0 then Err(SliceOfUndefined)
    else
      var cutEnd := lines[|lines| - 1 := Slice(lines[|lines| - 1], 0, end.column)];
      var cutStart := cutEnd[0 := Slice(cutEnd[0], start.column, |cutEnd[0]|)];
      Ok(Join(cutStart, "\n"))
  }

  /** A span on one line gives `line[start.column .. end.column)`, both columns counted on
      the line as it was, because the end is cut first. */
  lemma SourceSingleLine(store: seq<string>, start: Position, end: Position)
    requires start.line == end.line && 1 <= start.line <= |store|
    requires 0 <= start.column <= end.column <= |store[start.line - 1]|
    ensures SourceOf(store, start, end) == Ok(store[start.line - 1][start.column..end.column])
  {
    var line := store[start.line - 1];
    SliceFacts(store, start.line - 1, end.line);
    assert store[start.line - 1..end.line] == [line];
    SliceFacts(line, 0, end.column);
    SliceFacts(line[..end.column], start.column, end.column);
    assert line[..end.column][start.column..end.column] == line[start.column..end.column];
  }

  /** The covered parts from line `i` on, one per line. */
  lemma {:induction false} SegmentsAt(store: seq<string>, start: Position, end: Position, i: int)
    requires SpanInRange(store, start, end) && start.line <= i <= end.line + 1
    ensures |Segments(store, start, end, i)| == end.line - i + 1
    ensures forall k :: 0 <= k < |Segments(store, start, end, i)| ==>
              Segments(store, start, end, i)[k] == Segment(store, start, end, i + k)
    decreases end.line - i + 1
  {
    if i <= end.line {
      SegmentsAt(store, start, end, i + 1);
      SegmentsCons(store, start, end, i);
    }
  }

  /** A span over several lines gives the first line from `start.column`, the inner lines
      whole and the last line up to `end.column`, joined with `'\n'`: exactly the covered
      parts `markSource` overwrites. */
  lemma SourceMultiLine(store: seq<string>, start: Position, end: Position)
    requires SpanInRange(store, start, end)
    ensures SourceOf(store, start, end) == Ok(Join(Segments(store, start, end, start.line), "\n"))
  {
    var lines := Slice(store, start.line - 1, end.line);
    SliceFacts(store, start.line - 1, end.line);
    assert lines == store[start.line - 1..end.line];
    var n := |lines|;
    var first := lines[0];
    var last := lines[n - 1];
    SliceFacts(last, 0, end.column);
    var cutEnd := lines[n - 1 := Slice(last, 0, end.column)];
    SliceFacts(first, start.column, |first|);
    var cutStart := cutEnd[0 := Slice(first, start.column, |first|)];
    var parts := Segments(store, start, end, start.line);
    SegmentsAt(store, start, end, start.line);
    forall k | 0 <= k < n ensures cutStart[k] == parts[k] {
      var i := start.line + k;
      assert lines[k] == store[i - 1];
      SegmentBounds(store, start, end, i);
      if k == 0 {
        assert cutStart[k] == first[start.column..];
      } else if k == n - 1 {
        assert cutStart[k] == last[..end.column];
      } else {
        assert cutStart[k] == store[i - 1];
        assert store[i - 1][0..|store[i - 1]|] == store[i - 1];
      }
    }
    assert cutStart == parts;
  }

  /** Lines that are missing (a start past the last line, or an end before the start) leave
      the slice empty, and the call throws a `TypeError`. */
  lemma SourceMissingLines(store: seq<string>, start: Position, end: Position)
    requires 1 <= start.line && 0 <= end.line
    requires start.line > |store| || end.line < start.line
    ensures SourceOf(store, start, end) == Err(SliceOfUndefined)
  {
    var a := RelativeIndex(|store|, start.line - 1);
    var b := RelativeIndex(|store|, end.line);
    SliceInBounds(store, a, b);
    assert Slice(store, start.line - 1, end.line) == Slice(store, a, b);
  }

  /** A single-line span at least as wide as the shortest marker is marked, and then what
      `debugGetSource` reports for it is the marker itself. */
  lemma SourceShowsSingleMarker(lines: seq<string>, start: Position, end: Position)
    requires start.line == end.line && 1 <= start.line <= |lines|
    requires 0 <= start.column <= end.column <= |lines[start.line - 1]|
    requires end.column - start.column >= MinMarkerWidth
    ensures MarkSpan(lines, start, end).outcome.Pass? && MarkerOfWidth(end.column - start.column).Ok?
    ensures SourceOf(MarkSpan(lines, start, end).lines, start, end)
            == Ok(MarkerOfWidth(end.column - start.column).value)
  {
    var r := MarkSpan(lines, start, end);
    var line := lines[start.line - 1];
    MarkSingleLine(lines, start, end);
    MarkSpanFrame(lines, start, end);
    var marker := MarkerOfWidth(end.column - start.column).value;
    var written := r.lines[start.line - 1];
    assert written == line[..start.column] + marker + line[end.column..];
    SourceSingleLine(r.lines, start, end);
    assert written[start.column..end.column] == marker;
  }

  /** A multi-line span at least as wide as the shortest marker is marked, and then
      `debugGetSource` reports parts that, read without the line breaks, spell the marker. */
  lemma SourceShowsMultiMarker(lines: seq<string>, start: Position, end: Position)
    requires SpanInRange(lines, start, end) && SpanWidth(lines, start, end, start.line) >= MinMarkerWidth
    ensures var r := MarkSpan(lines, start, end);
      var width := SpanWidth(lines, start, end, start.line);
      && r.outcome.Pass? && SpanInRange(r.lines, start, end) && MarkerOfWidth(width).Ok?
      && SourceOf(r.lines, start, end) == Ok(Join(Segments(r.lines, start, end, start.line), "\n"))
      && Concat(Segments(r.lines, start, end, start.line)) == MarkerOfWidth(width).value
  {
    MarkMultiLine(lines, start, end);
    SourceMultiLine(MarkSpan(lines, start, end).lines, start, end);
  }

  /** The module-level `debugOriginalSource` flag. */
  class DebugSettings {
    var debugOriginalSource: bool

    constructor ()
      ensures !debugOriginalSource
    {
      debugOriginalSource := false;
    }

    /** `setDebugOriginalSource(value)`, with the truthiness of `value` given. */
    method SetDebugOriginalSource(value: bool)
      modifies this
      ensures debugOriginalSource == value
    {
      debugOriginalSource := value;
    }

    /** The line store read: the array itself when one is passed, otherwise the rule's
        original lines when the flag is set, and its masked lines when not. */
    function LineStore(instance: Instance): seq<string>
      reads this
    {
      match instance
      case LineArray(lines) => lines
      case Rule(sourceLines, originalSourceLines) =>
        if debugOriginalSource then originalSourceLines else sourceLines
    }

    /** `debugGetSource(instance, nodeOrStart, end)`: with `end` given, `nodeOrStart` is the
        start position; without it, the node's own `loc` is read. */
    function DebugGetSource(instance: Instance, nodeOrStart: Target, end: Option<Position>): (r: Result<string>)
      requires end.Some? <==> nodeOrStart.StartArg?
      reads this
      ensures var store := LineStore(instance);
        match nodeOrStart
        case StartArg(start) => r == SourceOf(store, start, end.value)
        case NodeArg(loc) => r == SourceOf(store, loc.start, loc.end)
    {
      var loc := match nodeOrStart
        case StartArg(start) => SourceLocation("", start, end.value)
        case NodeArg(loc) => loc;
      SourceOf(LineStore(instance), loc.start, loc.end)
    }

    /** With the flag set, a rule is read in its original lines; the masks written since
        are not seen. Otherwise its masked lines are read. */
    lemma FlagSelectsStore(sourceLines: seq<string>, originalSourceLines: seq<string>, start: Position, end: Position)
      ensures DebugGetSource(Rule(sourceLines, originalSourceLines), StartArg(start), Some(end))
              == SourceOf(if debugOriginalSource then originalSourceLines else sourceLines, start, end)
    {
    }
  }
}
