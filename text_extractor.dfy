/** The text extractor (src/ast/visitors/text-extractor.js): every template construct is
    masked in the visitor's copy of the source lines with a placeholder of the same width,
    the masked source is handed to a markup parser, and each text node is split on the
    placeholders; every non-blank piece is trimmed, located in the original file, and
    appended to the shared `textToTranslate` map. */
module TextExtractor {
  import opened Wrappers
  import opened Ast
  import opened JsString
  import opened OrderedMaps
  import opened LocationResolvers
  import opened SourceMarker
  import opened Contexts

  // ---------------------------------------------------------------------------
  // MARKER_REGEX
  // ---------------------------------------------------------------------------

  /** The fewest filler characters the placeholder pattern accepts: the pattern as
      written, `__TT[.\n]+__`, needs one; the corrected `__TT[.\n]*__` needs none. */
  const AsWrittenFill: nat := 1
  const CorrectedFill: nat := 0
  /** The pattern the extractor below uses: `MARKER_REGEX` as written. */
  const MarkerFill: nat := AsWrittenFill

  /** The class `[.\n]`: a literal dot or a newline. */
  predicate IsFiller(c: char) {
    c == '.' || c == '\n'
  }

  /** Length of the run of filler characters starting at `j`. */
  function FillerRun(s: string, j: nat): (r: nat)
    ensures j <= |s| ==> j + r <= |s|
    decreases |s| - j
  {
    if j < |s| && IsFiller(s[j]) then 1 + FillerRun(s, j + 1) else 0
  }

  /** The run is the longest one: every character in it is a filler, the next is not. */
  lemma {:induction false} FillerRunMeaning(s: string, j: nat)
    ensures forall k :: j <= k < j + FillerRun(s, j) ==> k < |s| && IsFiller(s[k])
    ensures j + FillerRun(s, j) < |s| ==> !IsFiller(s[j + FillerRun(s, j)])
    decreases |s| - j
  {
    if j < |s| && IsFiller(s[j]) {
      FillerRunMeaning(s, j + 1);
      forall k | j <= k < j + FillerRun(s, j) ensures k < |s| && IsFiller(s[k]) {
        if k > j {
          assert j + 1 <= k < j + 1 + FillerRun(s, j + 1);
        }
      }
    } else {
      assert FillerRun(s, j) == 0;
    }
  }

  /** `__TT` occurs at `i`. */
  predicate StartTagAt(s: string, i: int) {
    0 <= i && i + 4 <= |s| && s[i] == '_' && s[i + 1] == '_' && s[i + 2] == 'T' && s[i + 3] == 'T'
  }

  /** `__` occurs at `i`. */
  predicate EndTagAt(s: string, i: int) {
    0 <= i && i + 2 <= |s| && s[i] == '_' && s[i + 1] == '_'
  }

  /** The length of the match of the placeholder pattern that starts exactly at `i`, or 0.
      The filler class cannot match `_`, so the greedy run never gives characters back:
      there is a match exactly when the whole run is long enough and is followed by `__`. */
  function MatchLength(s: string, fill: nat, i: int): (r: nat)
    ensures r > 0 ==> 0 <= i && i + r <= |s| && r >= MinMarkerWidth + fill
  {
    if !StartTagAt(s, i) then 0
    else
      var n := FillerRun(s, i + 4);
      if n >= fill && EndTagAt(s, i + 4 + n) then 6 + n else 0
  }

  /** Text the pattern matches as a whole: `__TT`, at least `fill` filler characters, `__`. */
  predicate IsMatchText(m: string, fill: nat) {
    && |m| >= MinMarkerWidth + fill
    && StartTagAt(m, 0)
    && EndTagAt(m, |m| - 2)
    && forall k :: 4 <= k < |m| - 2 ==> IsFiller(m[k])
  }

  /** A match at `i` of length `len` is exactly an occurrence of matched text there. */
  lemma MatchLengthMeaning(s: string, fill: nat, i: nat, len: nat)
    requires len > 0 && i + len <= |s|
    ensures MatchLength(s, fill, i) == len <==> IsMatchText(s[i..i + len], fill)
  {
    var m := s[i..i + len];
    if IsMatchText(m, fill) {
      assert StartTagAt(s, i) by {
        assert s[i] == m[0] && s[i + 1] == m[1] && s[i + 2] == m[2] && s[i + 3] == m[3];
      }
      var n := FillerRun(s, i + 4);
      FillerRunMeaning(s, i + 4);
      forall k | i + 4 <= k < i + len - 2 ensures IsFiller(s[k]) {
        assert s[k] == m[k - i];
      }
      assert s[i + len - 2] == m[len - 2] == '_';
      assert n == len - 6;
      assert s[i + len - 1] == m[len - 1];
    }
    if MatchLength(s, fill, i) == len {
      FillerRunMeaning(s, i + 4);
      forall k | 4 <= k < len - 2 ensures IsFiller(m[k]) {
        assert m[k] == s[i + k];
      }
    }
  }

  /** Every placeholder `markerOfWidth` makes is matched as a whole by the corrected
      pattern; the pattern as written matches it exactly when it is wider than six. */
  lemma MarkerMatched(marker: string)
    requires IsMarker(marker)
    ensures IsMatchText(marker, CorrectedFill)
    ensures IsMatchText(marker, AsWrittenFill) <==> |marker| > MinMarkerWidth
  {
    assert marker[..4] == MarkerStart;
    assert marker[0] == MarkerStart[0] && marker[1] == MarkerStart[1];
    assert marker[2] == MarkerStart[2] && marker[3] == MarkerStart[3];
    assert marker[|marker| - 2..] == MarkerEnd;
    assert marker[|marker| - 2] == MarkerEnd[0] && marker[|marker| - 1] == MarkerEnd[1];
  }

  datatype Match = Match(index: nat, length: nat)

  /** No match of the pattern starts in `[a, b)`. */
  predicate NoMatchIn(s: string, fill: nat, a: int, b: int)
    decreases b - a
  {
    a >= b || (MatchLength(s, fill, a) == 0 && NoMatchIn(s, fill, a + 1, b))
  }

  lemma {:induction false} NoMatchInMeaning(s: string, fill: nat, a: int, b: int)
    ensures NoMatchIn(s, fill, a, b) <==> forall j :: a <= j < b ==> MatchLength(s, fill, j) == 0
    decreases b - a
  {
    if a < b {
      NoMatchInMeaning(s, fill, a + 1, b);
    }
  }

  /** `MARKER_REGEX.exec(text)` with the expression's `lastIndex` at `from`: the leftmost
      match starting at or after `from`. */
  function NextMatch(s: string, fill: nat, from: nat): (r: Option<Match>)
    ensures r.Some? ==> from <= r.value.index && r.value.length == MatchLength(s, fill, r.value.index) > 0
    ensures NoMatchIn(s, fill, from, if r.Some? then r.value.index else |s|)
    decreases |s| - from
  {
    if from >= |s| then None
    else if MatchLength(s, fill, from) > 0 then Some(Match(from, MatchLength(s, fill, from)))
    else NextMatch(s, fill, from + 1)
  }

  /** The successive matches of the global expression from `lastIndex == from` on: each
      search resumes where the previous match ended. */
  function Matches(s: string, fill: nat, from: nat): seq<Match>
    requires from <= |s|
    decreases |s| - from
  {
    match NextMatch(s, fill, from)
    case None => []
    case Some(m) => [m] + Matches(s, fill, m.index + m.length)
  }

  /** `ms` are the successive leftmost matches from `from`: each is a whole match, nothing
      matches between them, and nothing matches after the last. */
  predicate Successive(s: string, fill: nat, from: int, ms: seq<Match>)
    decreases |ms|
  {
    if |ms| == 0 then NoMatchIn(s, fill, from, |s|)
    else
      && from <= ms[0].index
      && ms[0].length == MatchLength(s, fill, ms[0].index) > 0
      && NoMatchIn(s, fill, from, ms[0].index)
      && Successive(s, fill, ms[0].index + ms[0].length, ms[1..])
  }

  lemma {:induction false} MatchesSuccessive(s: string, fill: nat, from: nat)
    requires from <= |s|
    ensures Successive(s, fill, from, Matches(s, fill, from))
    decreases |s| - from
  {
    match NextMatch(s, fill, from)
    case None =>
    case Some(m) =>
      var rest := Matches(s, fill, m.index + m.length);
      MatchesSuccessive(s, fill, m.index + m.length);
      assert ([m] + rest)[0] == m && ([m] + rest)[1..] == rest;
  }

  /** The text from `from` on with the matches `ms` cut out. */
  function CutOut(s: string, from: int, ms: seq<Match>): string
    decreases |ms|
  {
    if |ms| == 0 then Slice(s, from, |s|)
    else Slice(s, from, ms[0].index) + CutOut(s, ms[0].index + ms[0].length, ms[1..])
  }

  /** `text.replaceAll(MARKER_REGEX, '')`: the text with every match removed. */
  function Strip(s: string, fill: nat): string {
    CutOut(s, 0, Matches(s, fill, 0))
  }

  // ---------------------------------------------------------------------------
  // The pieces analyzeTextBlock hands to storeText
  // ---------------------------------------------------------------------------

  /** The offsets `[start, end)` of a piece of a text block. */
  datatype Piece = Piece(start: int, end: int)

  /** The non-empty stretches between the matches `ms`, from `from` on. */
  function Gaps(s: string, from: int, ms: seq<Match>): seq<Piece>
    decreases |ms|
  {
    if |ms| == 0 then (if from != |s| then [Piece(from, |s|)] else [])
    else (if ms[0].index == from then [] else [Piece(from, ms[0].index)])
         + Gaps(s, ms[0].index + ms[0].length, ms[1..])
  }

  /** The pieces the loop of `analyzeTextBlock` stores from `lastIndex == from` on: the text
      before each match when it is not empty, then the tail after the last match. (At the
      end of the text with no match the loop would throw; it never gets there, because it
      breaks as soon as a match or the tail reaches the end.) */
  function Scan(s: string, fill: nat, from: nat): seq<Piece>
    requires from <= |s|
  {
    Gaps(s, from, Matches(s, fill, from))
  }

  /** One turn of the loop that stores a piece: the piece before the leftmost match when
      it is not empty, or the tail when there is no match, then the pieces after it. */
  lemma ScanPiece(s: string, fill: nat, from: nat, end: int, next: int)
    requires from < |s|
    requires NextMatch(s, fill, from).Some? ==>
               && end == NextMatch(s, fill, from).value.index != from
               && next == NextMatch(s, fill, from).value.index + NextMatch(s, fill, from).value.length
    requires NextMatch(s, fill, from).None? ==> end == next == |s|
    ensures from < end <= next <= |s|
    ensures Scan(s, fill, from) == [Piece(from, end)] + Scan(s, fill, next)
  {
    var ms := Matches(s, fill, from);
    if NextMatch(s, fill, from).Some? {
      assert ms[0] == NextMatch(s, fill, from).value && ms[1..] == Matches(s, fill, next);
    } else {
      assert ms == [] && Scan(s, fill, next) == [];
    }
  }

  /** The piece a turn stores lies inside the text, and the next turn starts after it. */
  lemma PieceEnds(s: string, fill: nat, from: nat, end: int, next: int)
    requires from < |s|
    requires NextMatch(s, fill, from).Some? ==>
               && end == NextMatch(s, fill, from).value.index != from
               && next == NextMatch(s, fill, from).value.index + NextMatch(s, fill, from).value.length
    requires NextMatch(s, fill, from).None? ==> end == next == |s|
    ensures from < end <= next <= |s|
  {
  }

  /** One turn of the loop that skips a match right at `from`. */
  lemma ScanSkip(s: string, fill: nat, from: nat, next: int)
    requires from <= |s| && NextMatch(s, fill, from).Some?
    requires NextMatch(s, fill, from).value.index == from
    requires next == from + NextMatch(s, fill, from).value.length
    ensures from < next <= |s|
    ensures Scan(s, fill, from) == Scan(s, fill, next)
  {
    var ms := Matches(s, fill, from);
    assert ms[1..] == Matches(s, fill, next);
    assert [] + Gaps(s, next, ms[1..]) == Gaps(s, next, ms[1..]);
  }

  /** Nothing is left to store at the end of the text. */
  lemma ScanEnd(s: string, fill: nat)
    ensures Scan(s, fill, |s|) == []
  {
  }

  /** The texts of the pieces, concatenated. */
  function PiecesText(s: string, pieces: seq<Piece>): string
    decreases |pieces|
  {
    if |pieces| == 0 then "" else Slice(s, pieces[0].start, pieces[0].end) + PiecesText(s, pieces[1..])
  }

  /** The pieces are non-empty and lie in `[from, |s|]` in order. */
  predicate InOrder(s: string, from: int, pieces: seq<Piece>)
    decreases |pieces|
  {
    |pieces| == 0
    || (&& from <= pieces[0].start < pieces[0].end <= |s|
        && InOrder(s, pieces[0].end, pieces[1..]))
  }

  /** No match of the pattern starts inside any piece, and consecutive pieces are at least
      one placeholder's width apart. */
  predicate MatchFree(s: string, fill: nat, pieces: seq<Piece>)
    decreases |pieces|
  {
    |pieces| == 0
    || (&& NoMatchIn(s, fill, pieces[0].start, pieces[0].end)
        && (|pieces| > 1 ==> pieces[0].end + MinMarkerWidth <= pieces[1].start)
        && MatchFree(s, fill, pieces[1..]))
  }

  lemma {:induction false} GapsShape(s: string, fill: nat, from: int, ms: seq<Match>)
    requires from <= |s| && Successive(s, fill, from, ms)
    ensures InOrder(s, from, Gaps(s, from, ms))
    ensures MatchFree(s, fill, Gaps(s, from, ms))
    ensures |Gaps(s, from, ms)| > 0 ==> Gaps(s, from, ms)[0].start >= from
    decreases |ms|
  {
    if |ms| > 0 {
      var m := ms[0];
      var next := m.index + m.length;
      assert from <= m.index && m.length == MatchLength(s, fill, m.index) > 0;
      assert NoMatchIn(s, fill, from, m.index) && Successive(s, fill, next, ms[1..]);
      assert m.index + MinMarkerWidth <= next <= |s|;
      var rest := Gaps(s, next, ms[1..]);
      GapsShape(s, fill, next, ms[1..]);
      assert Gaps(s, from, ms) == (if m.index == from then [] else [Piece(from, m.index)]) + rest;
      if m.index != from {
        var g := [Piece(from, m.index)] + rest;
        assert g[0] == Piece(from, m.index) && g[1..] == rest;
      } else {
        assert [] + rest == rest;
      }
    }
  }

  /** The stored pieces are ordered, separated by placeholders, and free of matches. */
  lemma ScanShape(s: string, fill: nat, from: nat)
    requires from <= |s|
    ensures InOrder(s, from, Scan(s, fill, from))
    ensures MatchFree(s, fill, Scan(s, fill, from))
  {
    MatchesSuccessive(s, fill, from);
    GapsShape(s, fill, from, Matches(s, fill, from));
  }

  lemma {:induction false} GapsSpell(s: string, from: int, ms: seq<Match>)
    ensures PiecesText(s, Gaps(s, from, ms)) == CutOut(s, from, ms)
    decreases |ms|
  {
    if |ms| == 0 {
      if from != |s| {
        assert PiecesText(s, [Piece(from, |s|)]) == Slice(s, from, |s|) + PiecesText(s, []);
      } else {
        assert Slice(s, from, from) == [];
      }
    } else {
      var next := ms[0].index + ms[0].length;
      var rest := Gaps(s, next, ms[1..]);
      GapsSpell(s, next, ms[1..]);
      if ms[0].index != from {
        var g := [Piece(from, ms[0].index)] + rest;
        assert g[0] == Piece(from, ms[0].index) && g[1..] == rest;
        assert PiecesText(s, g) == Slice(s, from, ms[0].index) + PiecesText(s, rest);
      } else {
        assert Slice(s, from, from) == [];
        assert [] + rest == rest;
      }
    }
  }

  /** The stored pieces, read in order, are exactly the text with every match removed. */
  lemma ScanSpellsStrip(s: string, fill: nat)
    ensures PiecesText(s, Scan(s, fill, 0)) == Strip(s, fill)
  {
    GapsSpell(s, 0, Matches(s, fill, 0));
  }

  // ---------------------------------------------------------------------------
  // What storeText records
  // ---------------------------------------------------------------------------

  /** A trimmed piece of text and where it was found. */
  datatype Found = Found(text: string, loc: SourceLocation)

  /** The offset of a piece's first character once leading whitespace is skipped. */
  function TrimmedStart(raw: string, start: int): int {
    start + LeadingWhitespace(raw)
  }

  /** The offset just after a piece's last character once trailing whitespace is dropped. */
  function TrimmedEnd(raw: string, end: int): int {
    end - TrailingWhitespace(raw[LeadingWhitespace(raw)..])
  }

  /** The trimmed text of a non-blank piece spans `[TrimmedStart, TrimmedEnd)`. */
  lemma TrimmedBounds(raw: string, start: int, end: int)
    requires |raw| == end - start && Trim(raw) != ""
    ensures start <= TrimmedStart(raw, start) < TrimmedEnd(raw, end) <= end
    ensures TrimmedEnd(raw, end) - TrimmedStart(raw, start) == |Trim(raw)|
  {
  }

  /** What `storeText` records for the piece `raw` found at `[start, end)` of a block with
      newline list `nl`: its trimmed text at the positions of its trimmed ends, or nothing
      for a blank piece. */
  function FoundIn(fileName: string, nl: seq<int>, startLine: int, startCol: int,
                   raw: string, start: int, end: int): seq<Found>
  {
    if Trim(raw) == "" then []
    else [Found(Trim(raw), SourceLocation(fileName,
                                          PositionOf(nl, startLine, startCol, TrimmedStart(raw, start)),
                                          PositionOf(nl, startLine, startCol, TrimmedEnd(raw, end))))]
  }

  /** What the pieces of `text` record, in order. */
  function Locate(fileName: string, text: string, startLine: int, startCol: int, pieces: seq<Piece>): seq<Found>
    decreases |pieces|
  {
    if |pieces| == 0 then []
    else
      var p := pieces[0];
      FoundIn(fileName, NewlinesFrom(text, 0), startLine, startCol, Slice(text, p.start, p.end), p.start, p.end)
      + Locate(fileName, text, startLine, startCol, pieces[1..])
  }

  lemma LocateCons(fileName: string, text: string, startLine: int, startCol: int, p: Piece, rest: seq<Piece>)
    ensures Locate(fileName, text, startLine, startCol, [p] + rest)
         == FoundIn(fileName, NewlinesFrom(text, 0), startLine, startCol, Slice(text, p.start, p.end), p.start, p.end)
            + Locate(fileName, text, startLine, startCol, rest)
  {
    assert ([p] + rest)[0] == p && ([p] + rest)[1..] == rest;
  }

  /** `analyzeTextBlock(text, {startLine, startCol})`: nothing when the text is blank once
      the placeholders are removed, otherwise what its pieces record. */
  function TextBlockFound(fileName: string, text: string, fill: nat, startLine: int, startCol: int): seq<Found> {
    if Trim(Strip(text, fill)) == "" then [] else Locate(fileName, text, startLine, startCol, Scan(text, fill, 0))
  }

  /** Every recorded text is non-empty and has no whitespace at either end. */
  predicate AllTrimmed(fs: seq<Found>) {
    forall k :: 0 <= k < |fs| ==>
      fs[k].text != "" && !IsWhitespace(fs[k].text[0]) && !IsWhitespace(fs[k].text[|fs[k].text| - 1])
  }

  lemma {:induction false} LocateTrimmed(fileName: string, text: string, startLine: int, startCol: int, pieces: seq<Piece>)
    ensures AllTrimmed(Locate(fileName, text, startLine, startCol, pieces))
    decreases |pieces|
  {
    if |pieces| > 0 {
      var p := pieces[0];
      LocateTrimmed(fileName, text, startLine, startCol, pieces[1..]);
      var raw := Slice(text, p.start, p.end);
      if Trim(raw) != "" {
        TrimEdges(raw);
      }
    }
  }

  /** Each location runs forward and begins no earlier than `bound`, then no earlier than
      the previous location ends. */
  predicate Chained(fs: seq<Found>, bound: Position)
    decreases |fs|
  {
    |fs| == 0
    || (&& PosLe(bound, fs[0].loc.start)
        && PosLe(fs[0].loc.start, fs[0].loc.end)
        && Chained(fs[1..], fs[0].loc.end))
  }

  lemma ChainedWeaken(fs: seq<Found>, a: Position, b: Position)
    requires Chained(fs, b) && PosLe(a, b)
    ensures Chained(fs, a)
  {
  }

  /** The locations recorded for ordered pieces are chained from the first piece's start. */
  lemma {:induction false} LocateOrdered(fileName: string, text: string, startLine: int, startCol: int,
                                         from: int, pieces: seq<Piece>)
    requires 0 <= from && InOrder(text, from, pieces)
    ensures Chained(Locate(fileName, text, startLine, startCol, pieces),
                    PositionOf(NewlinesFrom(text, 0), startLine, startCol, from))
    decreases |pieces|
  {
    if |pieces| > 0 {
      var nl := NewlinesFrom(text, 0);
      NewlinesFromExact(text, 0);
      var p := pieces[0];
      LocateOrdered(fileName, text, startLine, startCol, p.end, pieces[1..]);
      var tail := Locate(fileName, text, startLine, startCol, pieces[1..]);
      var raw := Slice(text, p.start, p.end);
      var head := FoundIn(fileName, nl, startLine, startCol, raw, p.start, p.end);
      assert Locate(fileName, text, startLine, startCol, pieces) == head + tail;
      var low := PositionOf(nl, startLine, startCol, from);
      var high := PositionOf(nl, startLine, startCol, p.end);
      PositionOfMonotone(nl, startLine, startCol, from, p.end);
      if Trim(raw) != "" {
        SliceFacts(text, p.start, p.end);
        FoundInChained(fileName, nl, startLine, startCol, raw, from, p.start, p.end, tail);
      } else {
        assert head + tail == tail;
        ChainedWeaken(tail, low, high);
      }
    }
  }

  /** One found text, then a chain that starts after the piece, makes a chain. */
  lemma FoundInChained(fileName: string, nl: seq<int>, startLine: int, startCol: int,
                       raw: string, from: int, start: int, end: int, tail: seq<Found>)
    requires Increasing(nl) && from <= start && |raw| == end - start && Trim(raw) != ""
    requires Chained(tail, PositionOf(nl, startLine, startCol, end))
    ensures Chained(FoundIn(fileName, nl, startLine, startCol, raw, start, end) + tail,
                    PositionOf(nl, startLine, startCol, from))
  {
    var a, b := TrimmedStart(raw, start), TrimmedEnd(raw, end);
    TrimmedBounds(raw, start, end);
    PositionOfMonotone(nl, startLine, startCol, from, a);
    PositionOfMonotone(nl, startLine, startCol, a, b);
    PositionOfMonotone(nl, startLine, startCol, b, end);
    ChainedWeaken(tail, PositionOf(nl, startLine, startCol, b), PositionOf(nl, startLine, startCol, end));
    var head := FoundIn(fileName, nl, startLine, startCol, raw, start, end);
    assert (head + tail)[0] == head[0] && (head + tail)[1..] == tail;
  }

  /** The texts a block records are trimmed and non-empty, and their locations run forward
      in order from the start of the block. */
  lemma TextBlockShape(fileName: string, text: string, fill: nat, startLine: int, startCol: int)
    ensures AllTrimmed(TextBlockFound(fileName, text, fill, startLine, startCol))
    ensures Chained(TextBlockFound(fileName, text, fill, startLine, startCol),
                    PositionOf(NewlinesFrom(text, 0), startLine, startCol, 0))
  {
    ScanShape(text, fill, 0);
    LocateTrimmed(fileName, text, startLine, startCol, Scan(text, fill, 0));
    LocateOrdered(fileName, text, startLine, startCol, 0, Scan(text, fill, 0));
  }

  /** The pieces a non-blank block records are its text with the placeholders removed,
      cut at the placeholders. */
  lemma TextBlockPieces(fileName: string, text: string, fill: nat, startLine: int, startCol: int)
    ensures PiecesText(text, Scan(text, fill, 0)) == Strip(text, fill)
    ensures Trim(Strip(text, fill)) == "" <==> IsBlank(Strip(text, fill))
    ensures IsBlank(Strip(text, fill)) ==> TextBlockFound(fileName, text, fill, startLine, startCol) == []
  {
    ScanSpellsStrip(text, fill);
    TrimEmptyIffBlank(Strip(text, fill));
  }

  /** A text without any match is kept whole: it is one piece. */
  lemma NoMatchKeepsText(s: string, fill: nat)
    requires |s| > 0 && NextMatch(s, fill, 0) == None
    ensures Strip(s, fill) == s && Scan(s, fill, 0) == [Piece(0, |s|)]
  {
    assert Matches(s, fill, 0) == [];
    SliceFacts(s, 0, |s|);
  }

  /** A text that is one whole match leaves nothing and has no piece. */
  lemma WholeMatchLeavesNothing(s: string, fill: nat)
    requires |s| > 0 && MatchLength(s, fill, 0) == |s|
    ensures Strip(s, fill) == "" && Scan(s, fill, 0) == []
  {
    assert Matches(s, fill, |s|) == [];
    assert Matches(s, fill, 0) == [Match(0, |s|)];
    SliceFacts(s, 0, 0);
    SliceFacts(s, |s|, |s|);
    assert CutOut(s, |s|, []) == "";
    assert Gaps(s, 0, [Match(0, |s|)]) == [] + Gaps(s, |s|, []);
  }

  /** The pattern as written needs a filler character, so the six-wide placeholder that
      masks a construct such as `{{ab}}` is not removed: a text node holding only that
      placeholder records the placeholder itself as text to translate. */
  lemma AsWrittenKeepsNarrowMarker()
    ensures MatchLength("__TT__", AsWrittenFill, 0) == 0
    ensures Strip("__TT__", AsWrittenFill) == "__TT__"
    ensures var fs := TextBlockFound("index.hbs", "__TT__", AsWrittenFill, 1, 0);
      |fs| == 1 && fs[0].text == "__TT__"
  {
    var s := "__TT__";
    NarrowMarkerUnmatched();
    NoMatchKeepsText(s, AsWrittenFill);
    NarrowMarkerTrimmed();
    SliceWithin(s, 0, 6);
    assert s[0..6] == s;
    assert Locate("index.hbs", s, 1, 0, [Piece(0, 6)])
        == FoundIn("index.hbs", NewlinesFrom(s, 0), 1, 0, s, 0, 6) + [];
  }

  /** `__TT__` has no whitespace to trim. */
  lemma NarrowMarkerTrimmed()
    ensures Trim("__TT__") == "__TT__"
  {
    var s := "__TT__";
    assert LeadingWhitespace(s) == 0;
    assert s[0..] == s;
    assert TrailingWhitespace(s) == 0;
  }

  /** No match of the pattern as written starts anywhere in `__TT__`. */
  lemma NarrowMarkerUnmatched()
    ensures NextMatch("__TT__", AsWrittenFill, 0) == None
  {
    var s := "__TT__";
    assert FillerRun(s, 4) == 0;
    assert MatchLength(s, AsWrittenFill, 5) == 0 && MatchLength(s, AsWrittenFill, 4) == 0;
    assert MatchLength(s, AsWrittenFill, 3) == 0 && MatchLength(s, AsWrittenFill, 2) == 0;
    assert MatchLength(s, AsWrittenFill, 1) == 0 && MatchLength(s, AsWrittenFill, 0) == 0;
  }

  /** With the corrected pattern every placeholder `markerOfWidth` makes is one whole
      match, so removing the matches leaves nothing of it, and a text node that is only a
      placeholder records nothing. */
  lemma CorrectedStripsEveryMarker(fileName: string, marker: string, startLine: int, startCol: int)
    requires IsMarker(marker)
    ensures MatchLength(marker, CorrectedFill, 0) == |marker|
    ensures Strip(marker, CorrectedFill) == ""
    ensures TextBlockFound(fileName, marker, CorrectedFill, startLine, startCol) == []
  {
    MarkerMatched(marker);
    assert marker[0..|marker|] == marker;
    MatchLengthMeaning(marker, CorrectedFill, 0, |marker|);
    WholeMatchLeavesNothing(marker, CorrectedFill);
  }

  // ---------------------------------------------------------------------------
  // The textToTranslate map
  // ---------------------------------------------------------------------------

  /** `storeText`'s update: `get(text) || []`, `set(text, store)`, then `push`. */
  function Record(m: OMap<string, seq<SourceLocation>>, f: Found): (r: OMap<string, seq<SourceLocation>>)
    ensures m.Valid() ==> r.Valid()
    ensures m.keys <= r.keys
  {
    m.Put(f.text, m.GetOr(f.text, []) + [f.loc])
  }

  /** Recording appends the location to the list under the text, creating the list when
      absent, and leaves every other entry as it was. */
  lemma RecordMeaning(m: OMap<string, seq<SourceLocation>>, f: Found, t: string)
    ensures t in Record(m, f).values <==> t == f.text || t in m.values
    ensures Record(m, f).GetOr(t, []) == m.GetOr(t, []) + (if t == f.text then [f.loc] else [])
  {
  }

  function RecordAll(m: OMap<string, seq<SourceLocation>>, fs: seq<Found>): (r: OMap<string, seq<SourceLocation>>)
    ensures m.Valid() ==> r.Valid()
    decreases |fs|
  {
    if |fs| == 0 then m else RecordAll(Record(m, fs[0]), fs[1..])
  }

  /** Recording two runs one after the other is recording their concatenation. */
  lemma {:induction false} RecordAllAppend(m: OMap<string, seq<SourceLocation>>, a: seq<Found>, b: seq<Found>)
    ensures RecordAll(m, a + b) == RecordAll(RecordAll(m, a), b)
    decreases |a|
  {
    if |a| == 0 {
      assert a + b == b;
    } else {
      assert (a + b)[0] == a[0] && (a + b)[1..] == a[1..] + b;
      RecordAllAppend(Record(m, a[0]), a[1..], b);
    }
  }

  /** The locations recorded under `t`, in order. */
  function LocationsOf(fs: seq<Found>, t: string): seq<SourceLocation>
    decreases |fs|
  {
    if |fs| == 0 then []
    else (if fs[0].text == t then [fs[0].loc] else []) + LocationsOf(fs[1..], t)
  }

  /** After recording, the list under every text is its old list followed by the new
      locations for that text, in order, and the old keys keep their order. */
  lemma {:induction false} RecordAllGet(m: OMap<string, seq<SourceLocation>>, fs: seq<Found>, t: string)
    ensures RecordAll(m, fs).GetOr(t, []) == m.GetOr(t, []) + LocationsOf(fs, t)
    decreases |fs|
  {
    if |fs| > 0 {
      var next := Record(m, fs[0]);
      var here := if fs[0].text == t then [fs[0].loc] else [];
      assert RecordAll(m, fs) == RecordAll(next, fs[1..]);
      RecordMeaning(m, fs[0], t);
      RecordAllGet(next, fs[1..], t);
      assert LocationsOf(fs, t) == here + LocationsOf(fs[1..], t);
    }
  }

  /** Recording only ever appends keys: the old key order is a prefix of the new one. */
  lemma {:induction false} RecordAllKeepsOrder(m: OMap<string, seq<SourceLocation>>, fs: seq<Found>)
    ensures m.keys <= RecordAll(m, fs).keys
    decreases |fs|
  {
    if |fs| > 0 {
      RecordAllKeepsOrder(Record(m, fs[0]), fs[1..]);
    }
  }

  /** A text is a key after recording exactly when it was one before or some record has it. */
  lemma {:induction false} RecordAllKeys(m: OMap<string, seq<SourceLocation>>, fs: seq<Found>, t: string)
    ensures t in RecordAll(m, fs).values <==> t in m.values || t in TextsOf(fs)
    decreases |fs|
  {
    if |fs| > 0 {
      RecordMeaning(m, fs[0], t);
      RecordAllKeys(Record(m, fs[0]), fs[1..], t);
      assert TextsOf(fs) == {fs[0].text} + TextsOf(fs[1..]);
    }
  }

  function TextsOf(fs: seq<Found>): set<string> {
    set k | 0 <= k < |fs| :: fs[k].text
  }

  // ---------------------------------------------------------------------------
  // The handler table
  // ---------------------------------------------------------------------------

  /** What the visitor's handler for `node` does to the lines: the masked kinds mask their
      whole span, a block masks its tags, three kinds are not supported, the rest do nothing. */
  function Handle(lines: seq<string>, node: Node): Marked {
    match node
    case PartialStatement(_, loc) => MarkSpan(lines, loc.start, loc.end)
    case MustacheStatement(_, loc, _, _, _) => MarkSpan(lines, loc.start, loc.end)
    case CommentStatement(_, loc) => MarkSpan(lines, loc.start, loc.end)
    case SubExpression(_, loc, _, _, _) => MarkSpan(lines, loc.start, loc.end)
    case BlockStatement(_, loc, program, inverse) =>
      (match BlockSpans(loc, program, inverse)
       case Err(e) => Marked(lines, Fail(e))
       case Ok(spans) => MarkAll(lines, spans))
    case PartialBlockStatement(_, _) => Marked(lines, Fail(NotImplemented))
    case DecoratorBlock(_, _) => Marked(lines, Fail(NotImplemented))
    case Decorator(_, _) => Marked(lines, Fail(NotImplemented))
    case ContentStatement(_, _, _) => Marked(lines, Pass)
    case OtherNode(_, _) => Marked(lines, Pass)
  }

  /** Handling a node keeps the number of lines and changes no line outside the node's
      own lines; the unsupported kinds throw `Not implemented` and change nothing. */
  lemma HandleFrame(lines: seq<string>, node: Node)
    requires BranchesInside(node)
    ensures var r := Handle(lines, node);
      && |r.lines| == |lines|
      && (forall k :: 0 <= k < |lines| && !(node.loc.start.line <= k + 1 <= node.loc.end.line) ==> r.lines[k] == lines[k])
      && ((node.PartialBlockStatement? || node.DecoratorBlock? || node.Decorator?) ==>
            r == Marked(lines, Fail(NotImplemented)))
  {
    match node
    case BlockStatement(_, loc, program, inverse) =>
      var spans := BlockSpans(loc, program, inverse);
      if spans.Ok? {
        MarkAllFrame(lines, spans.value);
        forall q | 0 <= q < |spans.value|
          ensures loc.start.line <= spans.value[q].start.line && spans.value[q].end.line <= loc.end.line
        {
        }
      }
    case PartialStatement(_, loc) => MarkSpanFrame(lines, loc.start, loc.end);
    case MustacheStatement(_, loc, _, _, _) => MarkSpanFrame(lines, loc.start, loc.end);
    case CommentStatement(_, loc) => MarkSpanFrame(lines, loc.start, loc.end);
    case SubExpression(_, loc, _, _, _) => MarkSpanFrame(lines, loc.start, loc.end);
    case _ =>
  }

  /** The first half of `storeText`: drop the `/^\s+/` match and move the start past it,
      then drop the `/\s+$/` match and move the end back before it. */
  method TrimPiece(text: string, startingIndex: int, endingIndex: int) returns (t: string, a: int, b: int)
    ensures t == Trim(text)
    ensures a == TrimmedStart(text, startingIndex) && b == TrimmedEnd(text, endingIndex)
  {
    t := text;
    a := startingIndex;
    b := endingIndex;
    var lead := LeadingWhitespace(t);
    if lead > 0 {
      SliceFacts(t, lead, |t|);
      t := Slice(t, lead, |t|);
      a := a + lead;
    }
    assert t == text[lead..];
    var trail := TrailingWhitespace(t);
    if trail > 0 {
      SliceFacts(t, 0, -(trail as int));
      t := Slice(t, 0, -(trail as int));
      b := b - trail;
    }
  }

  /** When the range starts after the newline the resolver last passed, what `storeText`
      records is what `FoundIn` says, and the cursor ends at the newlines before the end. */
  lemma StoreClean(fileName: string, nl: seq<int>, lineOffset: int, firstColumnOffset: int, c0: int,
                   text: string, start: int, end: int)
    requires Increasing(nl) && 0 <= c0 <= |nl| && Trim(text) != ""
    requires c0 == 0 || nl[c0 - 1] < TrimmedStart(text, start)
    requires TrimmedStart(text, start) <= TrimmedEnd(text, end)
    ensures Reached(nl, c0, TrimmedEnd(text, end)) == CountBelow(nl, TrimmedEnd(text, end))
    ensures FoundIn(fileName, nl, lineOffset, firstColumnOffset, text, start, end) ==
              [Found(Trim(text), SourceLocation(fileName,
                                                Resolved(nl, lineOffset, firstColumnOffset, c0, TrimmedStart(text, start)),
                                                Resolved(nl, lineOffset, firstColumnOffset, c0, TrimmedEnd(text, end))))]
  {
    var a, b := TrimmedStart(text, start), TrimmedEnd(text, end);
    ResolvedClean(nl, lineOffset, firstColumnOffset, c0, a);
    ResolvedClean(nl, lineOffset, firstColumnOffset, c0, b);
  }

  /** Offset `x` after the newline before cursor `c0` resolves to its fresh position. */
  lemma ResolvedClean(nl: seq<int>, lineOffset: int, firstColumnOffset: int, c0: int, x: int)
    requires Increasing(nl) && 0 <= c0 <= |nl| && (c0 == 0 || nl[c0 - 1] < x)
    ensures Reached(nl, c0, x) == CountBelow(nl, x)
    ensures Resolved(nl, lineOffset, firstColumnOffset, c0, x) == PositionOf(nl, lineOffset, firstColumnOffset, x)
  {
    ReachedClean(nl, c0, x);
  }

  /** A piece of the block is as long as its span, and its trimmed text lies inside it. */
  lemma PieceBounds(text: string, raw: string, start: int, end: int)
    requires 0 <= start <= end <= |text| && raw == Slice(text, start, end)
    ensures |raw| == end - start
    ensures Trim(raw) != "" ==> start <= TrimmedStart(raw, start) <= TrimmedEnd(raw, end) <= end
  {
    SliceFacts(text, start, end);
    if Trim(raw) != "" {
      TrimmedBounds(raw, start, end);
    }
  }

  /** A piece that starts after the resolver's last newline is one `storeText` cannot
      reject: its trimmed range goes forward and starts after that newline. */
  lemma PieceStorable(text: string, raw: string, start: int, end: int, nl: seq<int>, prev: int)
    requires 0 <= start <= end <= |text| && raw == Slice(text, start, end)
    requires prev < |nl| && (prev < 0 || nl[prev] < start)
    ensures Trim(raw) != "" ==>
              var a, b := TrimmedStart(raw, start), TrimmedEnd(raw, end);
              !(a > b || (prev >= 0 && a < nl[prev]))
  {
    PieceBounds(text, raw, start, end);
  }

  /** One stored piece `[start, end)` of a block: when the map went from `m` to `after`
      and the cursor from `c0` to `c1` as `storeText` leaves them, recording the pieces
      from `next` on into `after` is recording everything from `start` on into `m`, and
      the cursor's newline still lies before the rest of the block. This holds for either
      pattern, `fill` being its fewest filler characters. */
  lemma StorePieceStep(fileName: string, text: string, startLine: int, startCol: int, raw: string,
                       m: OMap<string, seq<SourceLocation>>, after: OMap<string, seq<SourceLocation>>,
                       c0: int, c1: int, start: nat, end: int, next: int, fill: nat)
    requires start < |text| && raw == Slice(text, start, end)
    requires NextMatch(text, fill, start).Some? ==>
               && end == NextMatch(text, fill, start).value.index != start
               && next == NextMatch(text, fill, start).value.index + NextMatch(text, fill, start).value.length
    requires NextMatch(text, fill, start).None? ==> end == next == |text|
    requires 0 <= c0 <= |NewlinesFrom(text, 0)|
    requires c0 == 0 || NewlinesFrom(text, 0)[c0 - 1] < start
    requires Trim(raw) == "" ==> after == m && c1 == c0
    requires Trim(raw) != "" ==>
               var nl := NewlinesFrom(text, 0);
               && c1 == Reached(nl, c0, TrimmedEnd(raw, end))
               && after == Record(m, Found(Trim(raw), SourceLocation(fileName,
                                                                    Resolved(nl, startLine, startCol, c0, TrimmedStart(raw, start)),
                                                                    Resolved(nl, startLine, startCol, c0, TrimmedEnd(raw, end)))))
    ensures start < next <= |text|
    ensures 0 <= c1 <= |NewlinesFrom(text, 0)| && (c1 == 0 || NewlinesFrom(text, 0)[c1 - 1] < next)
    ensures RecordAll(m, Locate(fileName, text, startLine, startCol, Scan(text, fill, start)))
            == RecordAll(after, Locate(fileName, text, startLine, startCol, Scan(text, fill, next)))
  {
    ScanPiece(text, fill, start, end, next);
    StoredPiece(fileName, text, startLine, startCol, raw, m, after, c0, c1, start, end, Scan(text, fill, next));
  }

  /** `StorePieceStep` once the pieces are known: the piece `[start, end)` followed by
      `rest`. */
  lemma StoredPiece(fileName: string, text: string, startLine: int, startCol: int, raw: string,
                    m: OMap<string, seq<SourceLocation>>, after: OMap<string, seq<SourceLocation>>,
                    c0: int, c1: int, start: nat, end: int, rest: seq<Piece>)
    requires start < end <= |text| && raw == Slice(text, start, end)
    requires 0 <= c0 <= |NewlinesFrom(text, 0)|
    requires c0 == 0 || NewlinesFrom(text, 0)[c0 - 1] < start
    requires Trim(raw) == "" ==> after == m && c1 == c0
    requires Trim(raw) != "" ==>
               var nl := NewlinesFrom(text, 0);
               && c1 == Reached(nl, c0, TrimmedEnd(raw, end))
               && after == Record(m, Found(Trim(raw), SourceLocation(fileName,
                                                                    Resolved(nl, startLine, startCol, c0, TrimmedStart(raw, start)),
                                                                    Resolved(nl, startLine, startCol, c0, TrimmedEnd(raw, end)))))
    ensures 0 <= c1 <= |NewlinesFrom(text, 0)| && (c1 == 0 || NewlinesFrom(text, 0)[c1 - 1] < end)
    ensures RecordAll(m, Locate(fileName, text, startLine, startCol, [Piece(start, end)] + rest))
            == RecordAll(after, Locate(fileName, text, startLine, startCol, rest))
  {
    var nl := NewlinesFrom(text, 0);
    NewlinesIncreasing(text);
    PieceBounds(text, raw, start, end);
    var found := FoundIn(fileName, nl, startLine, startCol, raw, start, end);
    LocateCons(fileName, text, startLine, startCol, Piece(start, end), rest);
    RecordAllAppend(m, found, Locate(fileName, text, startLine, startCol, rest));
    StoredFound(fileName, nl, startLine, startCol, raw, m, after, c0, start, end);
    if Trim(raw) != "" {
      CountBelowSplits(nl, TrimmedEnd(raw, end));
    }
  }

  /** What `storeText` did to the map is recording what the piece yields. */
  lemma StoredFound(fileName: string, nl: seq<int>, startLine: int, startCol: int, raw: string,
                    m: OMap<string, seq<SourceLocation>>, after: OMap<string, seq<SourceLocation>>,
                    c0: int, start: int, end: int)
    requires Increasing(nl) && 0 <= c0 <= |nl|
    requires Trim(raw) != "" ==>
               && (c0 == 0 || nl[c0 - 1] < TrimmedStart(raw, start))
               && TrimmedStart(raw, start) <= TrimmedEnd(raw, end)
    requires Trim(raw) == "" ==> after == m
    requires Trim(raw) != "" ==>
               after == Record(m, Found(Trim(raw), SourceLocation(fileName,
                                                                  Resolved(nl, startLine, startCol, c0, TrimmedStart(raw, start)),
                                                                  Resolved(nl, startLine, startCol, c0, TrimmedEnd(raw, end)))))
    ensures RecordAll(m, FoundIn(fileName, nl, startLine, startCol, raw, start, end)) == after
  {
    var found := FoundIn(fileName, nl, startLine, startCol, raw, start, end);
    if Trim(raw) != "" {
      StoreClean(fileName, nl, startLine, startCol, c0, raw, start, end);
      assert RecordAll(m, found) == RecordAll(Record(m, found[0]), found[1..]);
    }
  }

  // ---------------------------------------------------------------------------
  // analyze
  // ---------------------------------------------------------------------------

  /** `analyze()` over the nodes of the parse, from the map `m`: stops with `Unexpected
      state` at a text node without a location. */
  function AnalyzeAll(m: OMap<string, seq<SourceLocation>>, fileName: string, nodes: seq<DomNode>)
    : (r: (OMap<string, seq<SourceLocation>>, Outcome))
    ensures m.Valid() ==> r.0.Valid()
    decreases |nodes|
  {
    if |nodes| == 0 then (m, Pass)
    else match nodes[0]
      case OtherDomNode => AnalyzeAll(m, fileName, nodes[1..])
      case TextNode(text, None) => (m, Fail(StateError))
      case TextNode(text, Some(at)) =>
        AnalyzeAll(RecordAll(m, TextBlockFound(fileName, text, MarkerFill, at.startLine, at.startCol)), fileName, nodes[1..])
  }

  /** The position `getLocationForRange` gives offset `x` with the cursor at `c0`. */
  function Resolved(nl: seq<int>, lineOffset: int, firstColumnOffset: int, c0: int, x: int): Position {
    var c := Reached(nl, c0, x);
    Position(lineOffset + c, x - LineBase(nl, firstColumnOffset, c) - 1)
  }

  // ---------------------------------------------------------------------------
  // The visitor
  // ---------------------------------------------------------------------------

  class TextExtractorVisitor {
    const fileName: string
    const source: string
    /** The lines being masked. */
    var sourceLines: seq<string>
    /** The lines as read; nothing writes them. */
    const originalSourceLines: seq<string>
    const context: Context

    constructor (fileName: string, source: string, context: Context)
      ensures this.fileName == fileName && this.source == source && this.context == context
      ensures sourceLines == Split(source, "\n") && originalSourceLines == sourceLines
    {
      this.fileName := fileName;
      this.source := source;
      this.context := context;
      sourceLines := Split(source, "\n");
      originalSourceLines := Split(source, "\n");
    }

    /** `markSource(start, end)` on the visitor's lines. */
    method MarkSource(start: Position, end: Position) returns (r: Outcome)
      modifies this
      ensures sourceLines == MarkSpan(old(sourceLines), start, end).lines
      ensures r == MarkSpan(old(sourceLines), start, end).outcome
    {
      var m := MarkLines(sourceLines, start, end);
      sourceLines := m.lines;
      r := m.outcome;
    }

    /** `BlockStatement`: the spans chosen by `BlockSpans`, marked one after another. */
    method BlockStatement(loc: SourceLocation, program: Option<Program>, inverse: Option<Program>) returns (r: Outcome)
      modifies this
      ensures BlockSpans(loc, program, inverse).Err? ==>
                r == Fail(StateError) && sourceLines == old(sourceLines)
      ensures BlockSpans(loc, program, inverse).Ok? ==>
                var m := MarkAll(old(sourceLines), BlockSpans(loc, program, inverse).value);
                sourceLines == m.lines && r == m.outcome
    {
      var spans := BlockSpans(loc, program, inverse);
      if spans.Err? {
        return Fail(spans.error);
      }
      var m := MarkSpans(sourceLines, spans.value);
      sourceLines := m.lines;
      r := m.outcome;
    }

    /** The handler the visitor runs for `node`. */
    method Visit(node: Node) returns (r: Outcome)
      modifies this
      ensures sourceLines == Handle(old(sourceLines), node).lines
      ensures r == Handle(old(sourceLines), node).outcome
    {
      match node
      case PartialStatement(_, loc) => r := MarkSource(loc.start, loc.end);
      case MustacheStatement(_, loc, _, _, _) => r := MarkSource(loc.start, loc.end);
      case CommentStatement(_, loc) => r := MarkSource(loc.start, loc.end);
      case SubExpression(_, loc, _, _, _) => r := MarkSource(loc.start, loc.end);
      case BlockStatement(_, loc, program, inverse) => r := BlockStatement(loc, program, inverse);
      case PartialBlockStatement(_, _) => r := Fail(NotImplemented);
      case DecoratorBlock(_, _) => r := Fail(NotImplemented);
      case Decorator(_, _) => r := Fail(NotImplemented);
      case ContentStatement(_, _, _) => r := Pass;
      case OtherNode(_, _) => r := Pass;
    }

    /** `storeText(text, startingIndex, endingIndex, locationResolver)`. */
    method StoreText(text: string, startingIndex: int, endingIndex: int, resolver: LocationResolver) returns (r: Outcome)
      requires context.Valid() && resolver.Valid()
      modifies context, resolver
      ensures context.Valid() && resolver.Valid()
      ensures context.translatedStrings == old(context.translatedStrings)
      ensures Trim(text) == "" ==>
        && r == Pass && context.textToTranslate == old(context.textToTranslate)
        && resolver.currentNewlineArrayIndex == old(resolver.currentNewlineArrayIndex)
      ensures Trim(text) != "" ==>
        var a, b := TrimmedStart(text, startingIndex), TrimmedEnd(text, endingIndex);
        var prev := old(resolver.previousNewLineArrayIndex);
        && (r.Fail? <==> a > b || (prev >= 0 && a < resolver.newlineIndices[prev]))
        && (r.Fail? ==> r.error.RangeError? && context.textToTranslate == old(context.textToTranslate))
      ensures Trim(text) != "" && r.Pass? ==>
        var a, b := TrimmedStart(text, startingIndex), TrimmedEnd(text, endingIndex);
        var c0 := old(resolver.currentNewlineArrayIndex);
        var nl := resolver.newlineIndices;
        && resolver.currentNewlineArrayIndex == Reached(nl, c0, b)
        && context.textToTranslate ==
             Record(old(context.textToTranslate),
                    Found(Trim(text), SourceLocation(resolver.fileName,
                                                     Resolved(nl, resolver.offset, resolver.firstColumnOffset, c0, a),
                                                     Resolved(nl, resolver.offset, resolver.firstColumnOffset, c0, b))))
    {
      var t, a, b := TrimPiece(text, startingIndex, endingIndex);
      if |t| == 0 {
        return Pass;
      }
      ghost var c0 := resolver.currentNewlineArrayIndex;
      var location := resolver.GetLocationForRange(a, b);
      if location.Err? {
        return Fail(location.error);
      }
      // `get(text) || []`, `set(text, store)`, then `push` onto the stored array
      var translationStore := context.textToTranslate.GetOr(t, []);
      context.textToTranslate := context.textToTranslate.Put(t, translationStore + [location.value]);
      r := Pass;
      assert location.value == SourceLocation(resolver.fileName,
                                              Resolved(resolver.newlineIndices, resolver.offset, resolver.firstColumnOffset, c0, a),
                                              Resolved(resolver.newlineIndices, resolver.offset, resolver.firstColumnOffset, c0, b));
    }

    /** `analyzeTextBlock(text, {startLine, startCol})`: records what `TextBlockFound` says,
        and never throws: each piece starts after the newline the resolver last passed. */
    method AnalyzeTextBlock(text: string, startLine: int, startCol: int)
      requires context.Valid()
      modifies context
      ensures context.Valid()
      ensures context.translatedStrings == old(context.translatedStrings)
      ensures context.textToTranslate ==
                RecordAll(old(context.textToTranslate), TextBlockFound(fileName, text, MarkerFill, startLine, startCol))
    {
      var locationResolver := new LocationResolver(fileName, text, startLine, startCol);

      if |Trim(Strip(text, MarkerFill))| == 0 {
        assert TextBlockFound(fileName, text, MarkerFill, startLine, startCol) == [];
        assert RecordAll(context.textToTranslate, []) == context.textToTranslate;
        return;
      }
      NewlinesFromExact(text, 0);
      StorePieces(text, startLine, startCol, locationResolver);
    }

    /** `locationResolver` was made for the block `text` of this file at
        `(startLine, startCol)`, and its last newline lies before offset `at`. */
    ghost predicate Tracks(locationResolver: LocationResolver, text: string, startLine: int, startCol: int, at: int)
      reads this, locationResolver
    {
      && locationResolver.Valid()
      && locationResolver.newlineIndices == NewlinesFrom(text, 0) && locationResolver.fileName == fileName
      && locationResolver.offset == startLine && locationResolver.firstColumnOffset == startCol
      && (locationResolver.previousNewLineArrayIndex < 0
          || locationResolver.newlineIndices[locationResolver.previousNewLineArrayIndex] < at)
    }

    /** The loop of `analyzeTextBlock`: from `lastIndex == 0`, store the text before each
        match, skip the match, and store the tail after the last one. */
    method StorePieces(text: string, startLine: int, startCol: int, locationResolver: LocationResolver)
      requires context.Valid() && |text| > 0 && Tracks(locationResolver, text, startLine, startCol, 0)
      modifies context, locationResolver
      ensures context.Valid()
      ensures context.translatedStrings == old(context.translatedStrings)
      ensures context.textToTranslate ==
                RecordAll(old(context.textToTranslate), Locate(fileName, text, startLine, startCol, Scan(text, MarkerFill, 0)))
    {
      var lastIndex := 0;
      ghost var goal := RecordAll(context.textToTranslate, Locate(fileName, text, startLine, startCol, Scan(text, MarkerFill, 0)));
      ScanEnd(text, MarkerFill);
      assert Locate(fileName, text, startLine, startCol, []) == [];

      while true
        invariant 0 <= lastIndex < |text| && Tracks(locationResolver, text, startLine, startCol, lastIndex)
        invariant context.Valid() && context.translatedStrings == old(context.translatedStrings)
        invariant goal == RecordAll(context.textToTranslate, Locate(fileName, text, startLine, startCol, Scan(text, MarkerFill, lastIndex)))
        decreases |text| - lastIndex
      {
        var nextIndex := StoreNext(text, startLine, startCol, locationResolver, lastIndex);
        lastIndex := nextIndex;
        if nextIndex == |text| {
          assert RecordAll(context.textToTranslate, []) == context.textToTranslate;
          break;
        }
      }
    }

    /** One turn of the loop of `analyzeTextBlock` from `lastIndex`: skip a match found
        right there, or store the text up to the next match, or the tail when there is
        none; answers the offset after what was consumed. */
    method StoreNext(text: string, startLine: int, startCol: int, locationResolver: LocationResolver, lastIndex: nat)
      returns (nextIndex: int)
      requires context.Valid() && lastIndex < |text| && Tracks(locationResolver, text, startLine, startCol, lastIndex)
      modifies context, locationResolver
      ensures lastIndex < nextIndex <= |text| && Tracks(locationResolver, text, startLine, startCol, nextIndex)
      ensures context.Valid() && context.translatedStrings == old(context.translatedStrings)
      ensures RecordAll(old(context.textToTranslate), Locate(fileName, text, startLine, startCol, Scan(text, MarkerFill, lastIndex)))
              == RecordAll(context.textToTranslate, Locate(fileName, text, startLine, startCol, Scan(text, MarkerFill, nextIndex)))
    {
      var hit := NextMatch(text, MarkerFill, lastIndex);
      var textStart: int, textEnd: int;

      if hit.Some? {
        textStart := lastIndex;
        textEnd := hit.value.index;
        nextIndex := hit.value.index + hit.value.length;

        // a placeholder right at `lastIndex`: nothing before it to store
        if hit.value.index == lastIndex || textStart == textEnd {
          ScanSkip(text, MarkerFill, lastIndex, nextIndex);
          return;
        }
      } else if lastIndex != |text| {
        textStart := lastIndex;
        textEnd := |text|;
        nextIndex := |text|;
      } else {
        assert false;
        return;
      }
      StorePiece(text, startLine, startCol, locationResolver, textStart, textEnd, nextIndex);
    }

    /** The rest of a turn that stores something: `storeText` on the piece `[textStart,
        textEnd)`, which ends at the leftmost match after `textStart` or at the end of the
        text, with `nextIndex` just after that match. */
    method StorePiece(text: string, startLine: int, startCol: int, locationResolver: LocationResolver,
                      textStart: nat, textEnd: int, nextIndex: int)
      requires context.Valid() && textStart < |text| && Tracks(locationResolver, text, startLine, startCol, textStart)
      requires NextMatch(text, MarkerFill, textStart).Some? ==>
                 && textEnd == NextMatch(text, MarkerFill, textStart).value.index != textStart
                 && nextIndex == textEnd + NextMatch(text, MarkerFill, textStart).value.length
      requires NextMatch(text, MarkerFill, textStart).None? ==> textEnd == nextIndex == |text|
      modifies context, locationResolver
      ensures textStart < nextIndex <= |text| && Tracks(locationResolver, text, startLine, startCol, nextIndex)
      ensures context.Valid() && context.translatedStrings == old(context.translatedStrings)
      ensures RecordAll(old(context.textToTranslate), Locate(fileName, text, startLine, startCol, Scan(text, MarkerFill, textStart)))
              == RecordAll(context.textToTranslate, Locate(fileName, text, startLine, startCol, Scan(text, MarkerFill, nextIndex)))
    {
      ghost var before := context.textToTranslate;
      ghost var c0 := locationResolver.currentNewlineArrayIndex;
      var raw := Slice(text, textStart, textEnd);
      PieceEnds(text, MarkerFill, textStart, textEnd, nextIndex);
      StoreKept(text, startLine, startCol, locationResolver, raw, textStart, textEnd);
      StorePieceStep(fileName, text, startLine, startCol, raw, before, context.textToTranslate,
                     c0, locationResolver.currentNewlineArrayIndex, textStart, textEnd, nextIndex, MarkerFill);
      ghost var c1 := locationResolver.currentNewlineArrayIndex;
      assert locationResolver.previousNewLineArrayIndex == c1 - 1;
      assert c1 == 0 || locationResolver.newlineIndices[c1 - 1] < nextIndex;
    }

    /** `storeText` on a piece that starts after the resolver's last newline: it does not
        throw, and records the trimmed piece at its fresh positions. */
    method StoreKept(text: string, startLine: int, startCol: int, locationResolver: LocationResolver,
                     raw: string, textStart: nat, textEnd: int)
      requires context.Valid() && textStart <= textEnd <= |text| && raw == Slice(text, textStart, textEnd)
      requires Tracks(locationResolver, text, startLine, startCol, textStart)
      modifies context, locationResolver
      ensures context.Valid() && locationResolver.Valid() && context.translatedStrings == old(context.translatedStrings)
      ensures Trim(raw) == "" ==>
                && context.textToTranslate == old(context.textToTranslate)
                && locationResolver.currentNewlineArrayIndex == old(locationResolver.currentNewlineArrayIndex)
      ensures Trim(raw) != "" ==>
                var nl, c0 := NewlinesFrom(text, 0), old(locationResolver.currentNewlineArrayIndex);
                && locationResolver.currentNewlineArrayIndex == Reached(nl, c0, TrimmedEnd(raw, textEnd))
                && context.textToTranslate ==
                     Record(old(context.textToTranslate),
                            Found(Trim(raw), SourceLocation(fileName,
                                                            Resolved(nl, startLine, startCol, c0, TrimmedStart(raw, textStart)),
                                                            Resolved(nl, startLine, startCol, c0, TrimmedEnd(raw, textEnd)))))
    {
      PieceStorable(text, raw, textStart, textEnd, locationResolver.newlineIndices, locationResolver.previousNewLineArrayIndex);
      var stored := StoreText(raw, textStart, textEnd, locationResolver);
      if stored.Fail? {
        assert false;
      }
    }

    /** `analyze()` over the text nodes of the parse of the masked lines. */
    method Analyze(nodes: seq<DomNode>) returns (r: Outcome)
      requires context.Valid()
      modifies context
      ensures context.Valid()
      ensures context.translatedStrings == old(context.translatedStrings)
      ensures (context.textToTranslate, r) == AnalyzeAll(old(context.textToTranslate), fileName, nodes)
    {
      var k := 0;
      while k < |nodes|
        invariant 0 <= k <= |nodes|
        invariant context.Valid() && context.translatedStrings == old(context.translatedStrings)
        invariant AnalyzeAll(old(context.textToTranslate), fileName, nodes)
               == AnalyzeAll(context.textToTranslate, fileName, nodes[k..])
      {
        assert nodes[k..][1..] == nodes[k + 1..];
        match nodes[k] {
          case OtherDomNode =>
          case TextNode(text, location) =>
            if location.None? {
              return Fail(StateError);
            }
            AnalyzeTextBlock(text, location.value.startLine, location.value.startCol);
        }
        k := k + 1;
      }
      r := Pass;
    }
  }
}
