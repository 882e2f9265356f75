/** The `mark-used-helpers` lint rule (src/ast/rules/mark-used-helpers.js). Like the text
    extractor, it masks every Handlebars construct of a template with a `__TT…__` marker
    of the same width. It also gathers the template's literal text: the non-blank
    content nodes, joined by a bare `__TT__`. After the walk, the rule parses that text
    as markup and prints each non-blank piece between the `__TT__` separators of each
    text node. The markup parse and the console are outside the model: the parsed nodes
    are a parameter, and the printed lines are the result. */
module MarkUsedHelpers {
  import opened Wrappers
  import opened Ast
  import opened JsString
  import opened SourceMarker

  /** `MARKER_START + MARKER_END`, the separator put between content nodes. */
  const Separator: string := MarkerStart + MarkerEnd

  // ---------------------------------------------------------------------------
  // Handlers
  // ---------------------------------------------------------------------------

  /** What the rule's handler for `node` does to the lines. Partials, mustaches and comments
      mask their whole span, and a block masks its tags. Partial blocks, decorators and
      sub-expressions are not supported. The rest do nothing to the lines. */
  function Handle(lines: seq<string>, node: Node): Marked {
    match node
    case PartialStatement(_, loc) => MarkSpan(lines, loc.start, loc.end)
    case MustacheStatement(_, loc, _, _, _) => MarkSpan(lines, loc.start, loc.end)
    case CommentStatement(_, loc) => MarkSpan(lines, loc.start, loc.end)
    case BlockStatement(_, loc, program, inverse) =>
      (match BlockSpans(loc, program, inverse)
       case Err(e) => Marked(lines, Fail(e))
       case Ok(spans) => MarkAll(lines, spans))
    case SubExpression(_, _, _, _, _) => Marked(lines, Fail(NotImplemented))
    case PartialBlockStatement(_, _) => Marked(lines, Fail(NotImplemented))
    case DecoratorBlock(_, _) => Marked(lines, Fail(NotImplemented))
    case Decorator(_, _) => Marked(lines, Fail(NotImplemented))
    case ContentStatement(_, _, _) => Marked(lines, Pass)
    case OtherNode(_, _) => Marked(lines, Pass)
  }

  /** Handling a node keeps the number of lines and leaves every line outside the node's
      own lines as it was. The unsupported kinds throw `Not implemented` and change nothing. */
  lemma HandleFrame(lines: seq<string>, node: Node)
    requires BranchesInside(node)
    ensures var r := Handle(lines, node);
      && |r.lines| == |lines|
      && (forall k :: 0 <= k < |lines| && !(node.loc.start.line <= k + 1 <= node.loc.end.line) ==> r.lines[k] == lines[k])
      && ((node.SubExpression? || node.PartialBlockStatement? || node.DecoratorBlock? || node.Decorator?) ==>
            r == Marked(lines, Fail(NotImplemented)))
  {
    match node
    case BlockStatement(_, loc, program, inverse) =>
      var spans := BlockSpans(loc, program, inverse);
      if spans.Ok? {
        MarkAllFrame(lines, spans.value);
        forall q | 0 <= q < |spans.value|
          ensures loc.start.line <= spans.value[q].start.line && spans.value[q].end.line <= loc.end.line
        {
        }
      }
    case PartialStatement(_, loc) => MarkSpanFrame(lines, loc.start, loc.end);
    case MustacheStatement(_, loc, _, _, _) => MarkSpanFrame(lines, loc.start, loc.end);
    case CommentStatement(_, loc) => MarkSpanFrame(lines, loc.start, loc.end);
    case _ =>
  }

  // ---------------------------------------------------------------------------
  // The gathered text
  // ---------------------------------------------------------------------------

  /** `ContentStatement(node)` on the gathered text: a blank value is skipped. Otherwise
      the separator goes first unless nothing was gathered yet, then the value as written. */
  function AddContent(textContent: string, value: string): string {
    if Trim(value) == "" then textContent
    else (if textContent != "" then textContent + Separator else textContent) + value
  }

  /** The text gathered from the content values `values`, visited in this order. */
  function ContentOf(values: seq<string>): string
    decreases |values|
  {
    if |values| == 0 then "" else AddContent(ContentOf(values[..|values| - 1]), values[|values| - 1])
  }

  /** The values that are not blank, in order. */
  function NonBlank(values: seq<string>): (r: seq<string>)
    ensures forall i :: 0 <= i < |r| ==> Trim(r[i]) != ""
    decreases |values|
  {
    if |values| == 0 then []
    else NonBlank(values[..|values| - 1]) + (if Trim(values[|values| - 1]) != "" then [values[|values| - 1]] else [])
  }

  lemma JoinSnoc(parts: seq<string>, last: string, sep: string)
    requires |parts| > 0
    ensures Join(parts + [last], sep) == Join(parts, sep) + sep + last
    decreases |parts|
  {
    if |parts| > 1 {
      assert (parts + [last])[1..] == parts[1..] + [last];
      JoinSnoc(parts[1..], last, sep);
    }
  }

  /** The gathered text is the non-blank content values, each as written, joined by
      `__TT__`; it is empty exactly when every content value is blank. */
  lemma {:induction false} ContentJoined(values: seq<string>)
    ensures ContentOf(values) == Join(NonBlank(values), Separator)
    ensures ContentOf(values) == "" <==> NonBlank(values) == []
    decreases |values|
  {
    if |values| > 0 {
      var init := values[..|values| - 1];
      var v := values[|values| - 1];
      ContentJoined(init);
      assert values[..|values| - 1] == init;
      if Trim(v) != "" {
        assert |v| > 0;
        assert NonBlank(values) == NonBlank(init) + [v];
        assert ContentOf(values) == AddContent(ContentOf(init), v);
        if NonBlank(init) != [] {
          JoinSnoc(NonBlank(init), v, Separator);
          assert ContentOf(values) == ContentOf(init) + Separator + v;
        } else {
          assert NonBlank(values) == [v];
          assert ContentOf(init) + v == v;
        }
      } else {
        assert NonBlank(values) == NonBlank(init) + [] == NonBlank(init);
      }
    }
  }

  // ---------------------------------------------------------------------------
  // _analyze
  // ---------------------------------------------------------------------------

  /** The pieces of `text.trim().split('__TT__')` that are not blank, in order. */
  function Tokens(text: string): (r: seq<string>) {
    NonBlank(Split(Trim(text), Separator))
  }

  /** The line printed for `token`. */
  function LogLine(fileName: string, token: string): string {
    fileName + ": \"" + token + "\""
  }

  /** The lines printed for the parsed nodes `nodes`, in order. */
  function Printed(fileName: string, nodes: seq<DomNode>): seq<string>
    decreases |nodes|
  {
    if |nodes| == 0 then []
    else
      var init := Printed(fileName, nodes[..|nodes| - 1]);
      match nodes[|nodes| - 1]
      case OtherDomNode => init
      case TextNode(text, _) => init + seq(|Tokens(text)|, i requires 0 <= i < |Tokens(text)| => LogLine(fileName, Tokens(text)[i]))
  }

  lemma {:induction false} NonBlankSubset(values: seq<string>)
    ensures forall i :: 0 <= i < |NonBlank(values)| ==> NonBlank(values)[i] in values
    decreases |values|
  {
    if |values| > 0 {
      NonBlankSubset(values[..|values| - 1]);
    }
  }

  /** Every token is a non-blank piece of the trimmed text that holds no separator, and the
      pieces of the split, rejoined, give back the trimmed text. */
  lemma TokensMeaning(text: string)
    ensures forall i :: 0 <= i < |Tokens(text)| ==>
              Trim(Tokens(text)[i]) != "" && !Contains(Tokens(text)[i], Separator)
    ensures Join(Split(Trim(text), Separator), Separator) == Trim(text)
  {
    var parts := Split(Trim(text), Separator);
    SplitPiecesFree(Trim(text), Separator);
    NonBlankSubset(parts);
    SplitJoin(Trim(text), Separator);
    forall i | 0 <= i < |Tokens(text)| ensures !Contains(Tokens(text)[i], Separator) {
      var k :| 0 <= k < |parts| && parts[k] == Tokens(text)[i];
    }
  }

  /** A text node whose trimmed text is not blank and holds no separator prints that
      trimmed text, once. */
  lemma SingleToken(text: string)
    requires Trim(text) != "" && !Contains(Trim(text), Separator)
    ensures Tokens(text) == [Trim(text)]
  {
    var t := Trim(text);
    assert IndexOf(t, Separator, 0) == -1;
    assert Split(t, Separator) == [t];
    TrimEdges(text);
    assert Trim(t) == t by {
      assert LeadingWhitespace(t) == 0;
      assert TrailingWhitespace(t) == 0;
    }
    assert NonBlank([t]) == NonBlank([t][..0]) + [t];
  }

  // ---------------------------------------------------------------------------
  // The rule
  // ---------------------------------------------------------------------------

  class MarkUsedHelpersRule {
    const fileName: string
    const source: string
    /** The lines being masked. */
    var sourceLines: seq<string>
    /** The lines as read; nothing writes them. */
    const originalSourceLines: seq<string>
    /** `_textContent`: the literal text gathered so far. */
    var textContent: string

    constructor (fileName: string, source: string)
      ensures this.fileName == fileName && this.source == source
      ensures sourceLines == Split(source, "\n") && originalSourceLines == sourceLines
      ensures textContent == ""
    {
      this.fileName := fileName;
      this.source := source;
      sourceLines := Split(source, "\n");
      originalSourceLines := Split(source, "\n");
      textContent := "";
    }

    /** `markSource(start, end)` on the rule's lines. */
    method MarkSource(start: Position, end: Position) returns (r: Outcome)
      modifies this
      ensures sourceLines == MarkSpan(old(sourceLines), start, end).lines
      ensures r == MarkSpan(old(sourceLines), start, end).outcome
      ensures textContent == old(textContent)
    {
      var m := MarkLines(sourceLines, start, end);
      sourceLines := m.lines;
      r := m.outcome;
    }

    /** `BlockStatement`: the tag spans chosen by `BlockSpans`, marked one after another. */
    method BlockStatement(loc: SourceLocation, program: Option<Program>, inverse: Option<Program>) returns (r: Outcome)
      modifies this
      ensures BlockSpans(loc, program, inverse).Err? ==>
                r == Fail(StateError) && sourceLines == old(sourceLines)
      ensures BlockSpans(loc, program, inverse).Ok? ==>
                var m := MarkAll(old(sourceLines), BlockSpans(loc, program, inverse).value);
                sourceLines == m.lines && r == m.outcome
      ensures textContent == old(textContent)
    {
      var spans := BlockSpans(loc, program, inverse);
      if spans.Err? {
        return Fail(spans.error);
      }
      var m := MarkSpans(sourceLines, spans.value);
      sourceLines := m.lines;
      r := m.outcome;
    }

    /** `ContentStatement(node)`. */
    method ContentStatement(value: string)
      modifies this
      ensures textContent == AddContent(old(textContent), value)
      ensures sourceLines == old(sourceLines)
    {
      var text := Trim(value);
      if text == "" {
        return;
      }
      if textContent != "" {
        textContent := textContent + MarkerStart + MarkerEnd;
      }
      textContent := textContent + value;
    }

    /** The handler the rule runs for `node`. */
    method Visit(node: Node) returns (r: Outcome)
      modifies this
      ensures sourceLines == Handle(old(sourceLines), node).lines
      ensures r == Handle(old(sourceLines), node).outcome
      ensures textContent == if node.ContentStatement? then AddContent(old(textContent), node.value) else old(textContent)
    {
      match node
      case PartialStatement(_, loc) => r := MarkSource(loc.start, loc.end);
      case MustacheStatement(_, loc, _, _, _) => r := MarkSource(loc.start, loc.end);
      case CommentStatement(_, loc) => r := MarkSource(loc.start, loc.end);
      case BlockStatement(_, loc, program, inverse) => r := BlockStatement(loc, program, inverse);
      case SubExpression(_, _, _, _, _) => r := Fail(NotImplemented);
      case PartialBlockStatement(_, _) => r := Fail(NotImplemented);
      case DecoratorBlock(_, _) => r := Fail(NotImplemented);
      case Decorator(_, _) => r := Fail(NotImplemented);
      case ContentStatement(_, _, value) => ContentStatement(value); r := Pass;
      case OtherNode(_, _) => r := Pass;
    }

    /** `_analyze()`: nothing when no text was gathered; otherwise, for each text node of the
        parse of the gathered text, the line of each of its tokens. */
    method Analyze(nodes: seq<DomNode>) returns (output: seq<string>)
      ensures output == if textContent == "" then [] else Printed(fileName, nodes)
    {
      output := [];
      if textContent == "" {
        return;
      }
      for k := 0 to |nodes|
        invariant output == Printed(fileName, nodes[..k])
      {
        assert nodes[..k + 1][..k] == nodes[..k];
        match nodes[k] {
          case OtherDomNode =>
          case TextNode(text, _) =>
            var lines := PrintTokens(text);
            output := output + lines;
        }
      }
      assert nodes[..|nodes|] == nodes;
    }

    /** The inner loop of `_analyze()`: one line per non-blank piece of the split. */
    method PrintTokens(text: string) returns (lines: seq<string>)
      ensures lines == seq(|Tokens(text)|, i requires 0 <= i < |Tokens(text)| => LogLine(fileName, Tokens(text)[i]))
    {
      var pieces := Split(Trim(text), MarkerStart + MarkerEnd);
      lines := [];
      for j := 0 to |pieces|
        invariant lines == seq(|NonBlank(pieces[..j])|, i requires 0 <= i < |NonBlank(pieces[..j])| => LogLine(fileName, NonBlank(pieces[..j])[i]))
      {
        assert pieces[..j + 1][..j] == pieces[..j];
        var token := pieces[j];
        if Trim(token) == "" {
          continue;
        }
        lines := lines + [LogLine(fileName, token)];
      }
      assert pieces[..|pieces|] == pieces;
    }
  }
}
