/** Style-preserving JSON for locale files (src/util/inline-json.js). `parseJson` records
    on the parsed object the newline sequence and the indentation the file was written
    with. It finds them with the pattern `^\s*[{[]((?:\r?\n)+)([\s\t]*)`, and uses `'\n'`
    and a tab when the pattern does not match. `stringifyJson` writes the object back in
    that style; reading it again gives the same style for a non-empty object written with
    a non-empty indentation of at most 10 characters. The JSON codec itself is a
    parameter: `JSON.parse` is given as its result, and `JSON.stringify(value, null,
    indentation)` as a function. */
module InlineJson {
  import opened Wrappers
  import opened JsString

  /** A JSON value as the core sees it: an object or array, with its own newline and
      indentation annotations when it has them; `null`; or another value. */
  datatype Json<T> =
    | Object(value: T, newline: Option<string>, indentation: Option<string>)
    | Null
    | Primitive(value: T)

  /** The style recorded for a file. */
  datatype Format = Format(newline: string, indentation: string)

  const DefaultFormat: Format := Format("\n", "\t")

  // ---------------------------------------------------------------------------
  // The format pattern
  // ---------------------------------------------------------------------------

  /** Length of the greedy match of `(?:\r?\n)+` at the start of `s` (0 when it does not
      match). */
  function NewlineRun(s: string): (r: nat)
    ensures r <= |s|
  {
    if |s| > 0 && s[0] == '\n' then 1 + NewlineRun(s[1..])
    else if |s| >= 2 && s[0] == '\r' && s[1] == '\n' then 2 + NewlineRun(s[2..])
    else 0
  }

  /** `s` is a run of `\n` and `\r\n` line breaks. */
  predicate NewlineUnits(s: string)
    decreases |s|
  {
    |s| == 0
    || (s[0] == '\n' && NewlineUnits(s[1..]))
    || (|s| >= 2 && s[0] == '\r' && s[1] == '\n' && NewlineUnits(s[2..]))
  }

  predicate IsNewline(s: string) {
    |s| > 0 && NewlineUnits(s)
  }

  /** The style `parseJson` records for `contents`. After the leading whitespace comes `{`
      or `[`. Group 1 is the run of line breaks right after it. Group 2 is the whitespace
      that follows the run. */
  function DetectFormat(contents: string): Format {
    var w := LeadingWhitespace(contents);
    if w < |contents| && (contents[w] == '{' || contents[w] == '[') then
      var after := contents[w + 1..];
      var n := NewlineRun(after);
      if n == 0 then DefaultFormat
      else
        var tail := after[n..];
        Format(after[..n], tail[..LeadingWhitespace(tail)])
    else DefaultFormat
  }

  lemma {:induction false} NewlineRunUnits(s: string)
    ensures NewlineUnits(s[..NewlineRun(s)])
    decreases |s|
  {
    var n := NewlineRun(s);
    if |s| > 0 && s[0] == '\n' {
      NewlineRunUnits(s[1..]);
      assert s[..n][1..] == s[1..][..n - 1];
    } else if |s| >= 2 && s[0] == '\r' && s[1] == '\n' {
      NewlineRunUnits(s[2..]);
      assert s[..n][2..] == s[2..][..n - 2];
    } else {
      assert s[..n] == [];
    }
  }

  /** The recorded style is always a newline sequence and an indentation of whitespace. */
  lemma FormatShape(contents: string)
    ensures IsNewline(DetectFormat(contents).newline)
    ensures IsBlank(DetectFormat(contents).indentation)
  {
    assert IsNewline("\n") by { assert NewlineUnits("\n"[1..]); }
    var w := LeadingWhitespace(contents);
    if w < |contents| && (contents[w] == '{' || contents[w] == '[') {
      var after := contents[w + 1..];
      NewlineRunUnits(after);
      var tail := after[NewlineRun(after)..];
      LeadingWhitespaceMeaning(tail);
    }
  }

  /** A newline run followed by text that starts with no line break is matched whole. */
  lemma {:induction false} NewlineRunOf(nl: string, rest: string)
    requires NewlineUnits(nl)
    requires |rest| == 0 || (rest[0] != '\n' && rest[0] != '\r')
    ensures NewlineRun(nl + rest) == |nl|
    decreases |nl|
  {
    if |nl| == 0 {
      assert nl + rest == rest;
    } else if nl[0] == '\n' && NewlineUnits(nl[1..]) {
      assert (nl + rest)[1..] == nl[1..] + rest;
      NewlineRunOf(nl[1..], rest);
    } else {
      assert (nl + rest)[2..] == nl[2..] + rest;
      NewlineRunOf(nl[2..], rest);
    }
  }

  /** A whitespace run followed by text that starts with no whitespace is matched whole. */
  lemma {:induction false} LeadingWhitespaceOf(ws: string, rest: string)
    requires IsBlank(ws)
    requires |rest| == 0 || !IsWhitespace(rest[0])
    ensures LeadingWhitespace(ws + rest) == |ws|
    decreases |ws|
  {
    if |ws| == 0 {
      assert ws + rest == rest;
    } else {
      assert (ws + rest)[1..] == ws[1..] + rest;
      LeadingWhitespaceOf(ws[1..], rest);
    }
  }

  /** A file laid out as an opening bracket, a newline run, an indentation and then
      content that starts with no whitespace has exactly that newline run and indentation
      recorded. */
  lemma DetectLayout(open: char, nl: string, ind: string, rest: string)
    requires open == '{' || open == '['
    requires IsNewline(nl) && IsBlank(ind) && '\n' !in ind && '\r' !in ind
    requires |rest| > 0 && !IsWhitespace(rest[0])
    ensures DetectFormat([open] + nl + ind + rest) == Format(nl, ind)
  {
    var contents := [open] + nl + ind + rest;
    assert LeadingWhitespace(contents) == 0;
    var after := contents[1..];
    assert after == nl + (ind + rest);
    if |ind| > 0 {
      assert (ind + rest)[0] == ind[0];
    }
    NewlineRunOf(nl, ind + rest);
    var tail := after[|nl|..];
    assert tail == ind + rest;
    LeadingWhitespaceOf(ind, rest);
    assert after[..|nl|] == nl;
    assert tail[..|ind|] == ind;
  }

  // ---------------------------------------------------------------------------
  // parseJson / stringifyJson
  // ---------------------------------------------------------------------------

  /** `parseJson(contents)`, where `parsed` is what `JSON.parse(contents)` gave. An object
      gets the detected style. Setting a property on `null` throws. On another value the
      assignments have no effect, because the module is not in strict mode. */
  function ParseJson<T>(contents: string, parsed: Result<Json<T>>): (r: Result<Json<T>>)
    ensures parsed.Ok? && parsed.value.Object? ==>
              r == Ok(Object(parsed.value.value, Some(DetectFormat(contents).newline), Some(DetectFormat(contents).indentation)))
    ensures parsed.Ok? && parsed.value.Primitive? ==> r == parsed
    ensures parsed.Ok? && parsed.value.Null? ==> r.Err? && r.error.TypeError?
    ensures parsed.Err? ==> r == parsed
  {
    match parsed
    case Err(e) => Err(e)
    case Ok(Object(v, _, _)) =>
      var format := DetectFormat(contents);
      Ok(Object(v, Some(format.newline), Some(format.indentation)))
    case Ok(Null) => Err(TypeError("Cannot set properties of null (setting 'Symbol(NEWLINE)')"))
    case Ok(Primitive(v)) => Ok(Primitive(v))
  }

  /** `assertHasAnnotations(object)`. */
  function AssertHasAnnotations<T>(value: Json<T>): (r: Outcome)
    ensures r.Pass? <==> value.Object? && value.newline.Some? && value.indentation.Some?
  {
    match value
    case Null => Fail(TypeError("Expected object"))
    case Primitive(_) => Fail(TypeError("Expected object"))
    case Object(_, newline, indentation) =>
      if newline.None? then Fail(Thrown("Missing newline annotation"))
      else if indentation.None? then Fail(Thrown("Missing indentation annotation"))
      else Pass
  }

  /** `stringifyJson(object)`, with `JSON.stringify(value, null, indentation)` given as
      `serialize`. With the newline `'\n'` the serialisation is returned as it is;
      otherwise each `'\n'` becomes the recorded newline and one more is appended. */
  function StringifyJson<T>(value: Json<T>, serialize: (T, string) -> string): (r: Result<string>)
  {
    match AssertHasAnnotations(value)
    case Fail(e) => Err(e)
    case Pass =>
      var newline := value.newline.value;
      var serialized := serialize(value.value, value.indentation.value);
      Ok(if newline == "\n" then serialized else ReplaceChar(serialized, '\n', newline) + newline)
  }

  /** The failures, in the order they are checked: a value that is not an object, then a
      missing newline annotation, then a missing indentation annotation. */
  lemma StringifyErrors<T>(value: Json<T>, serialize: (T, string) -> string)
    ensures !value.Object? ==> StringifyJson(value, serialize) == Err(TypeError("Expected object"))
    ensures value.Object? && value.newline.None? ==>
              StringifyJson(value, serialize) == Err(Thrown("Missing newline annotation"))
    ensures value.Object? && value.newline.Some? && value.indentation.None? ==>
              StringifyJson(value, serialize) == Err(Thrown("Missing indentation annotation"))
    ensures StringifyJson(value, serialize).Ok? <==> AssertHasAnnotations(value).Pass?
  {
  }

  /** With another newline, the output is the serialisation with every `'\n'` replaced by
      that newline, then one more newline; with `'\n'` it is the serialisation itself. */
  lemma StringifyNewlines<T>(v: T, newline: string, indentation: string, serialize: (T, string) -> string)
    ensures var out := StringifyJson(Object(v, Some(newline), Some(indentation)), serialize);
      && out.Ok?
      && (newline == "\n" ==> out.value == serialize(v, indentation))
      && (newline != "\n" ==>
            && EndsWith(out.value, newline)
            && out.value[..|out.value| - |newline|] == ReplaceChar(serialize(v, indentation), '\n', newline))
  {
    var out := StringifyJson(Object(v, Some(newline), Some(indentation)), serialize).value;
    if newline != "\n" {
      var body := ReplaceChar(serialize(v, indentation), '\n', newline);
      assert out == body + newline;
      assert out[..|out| - |newline|] == body;
    }
  }

  lemma ReplaceBreakAfter(open: char, newline: string)
    requires open != '\n'
    ensures ReplaceChar([open] + "\n", '\n', newline) == [open] + newline
  {
    var s := [open] + "\n";
    assert s[1..] == "\n" && s[1..][1..] == "";
  }

  lemma ReplaceKeepsFirst(rest: string, newline: string)
    requires |rest| > 0 && rest[0] != '\n'
    ensures |ReplaceChar(rest, '\n', newline)| > 0 && ReplaceChar(rest, '\n', newline)[0] == rest[0]
  {
  }

  /** Rewriting the line breaks of a laid-out serialisation touches only the break after
      the bracket and those inside the content. */
  lemma ReplaceLayout(open: char, newline: string, indentation: string, rest: string)
    requires open != '\n' && '\n' !in indentation
    ensures ReplaceChar([open] + "\n" + indentation + rest, '\n', newline)
            == [open] + newline + indentation + ReplaceChar(rest, '\n', newline)
  {
    var head := [open] + "\n";
    assert [open] + "\n" + indentation + rest == head + (indentation + rest);
    ReplaceCharAppend(head, indentation + rest, '\n', newline);
    ReplaceCharAppend(indentation, rest, '\n', newline);
    ReplaceBreakAfter(open, newline);
  }

  lemma AppendAfter(x: string, a: string, r: string, tail: string)
    requires x == a + r
    ensures x + tail == a + (r + tail)
  {
  }

  /** With the closing newline appended, the rewritten serialisation is the bracket, the
      new newline, the indentation and the rewritten content. */
  lemma RewrittenShape(open: char, newline: string, indentation: string, rest: string)
    requires open != '\n' && '\n' !in indentation
    ensures ReplaceChar([open] + "\n" + indentation + rest, '\n', newline) + newline
            == [open] + newline + indentation + (ReplaceChar(rest, '\n', newline) + newline)
  {
    ReplaceLayout(open, newline, indentation, rest);
    AppendAfter(ReplaceChar([open] + "\n" + indentation + rest, '\n', newline),
                [open] + newline + indentation, ReplaceChar(rest, '\n', newline), newline);
  }

  /** The rewritten serialisation still shows its layout, now with `newline`. */
  lemma DetectRewritten(open: char, newline: string, indentation: string, rest: string)
    requires IsNewline(newline) && IsBlank(indentation) && '\n' !in indentation && '\r' !in indentation
    requires open == '{' || open == '['
    requires |rest| > 0 && !IsWhitespace(rest[0])
    ensures DetectFormat(ReplaceChar([open] + "\n" + indentation + rest, '\n', newline) + newline)
            == Format(newline, indentation)
  {
    RewrittenShape(open, newline, indentation, rest);
    ReplaceKeepsFirst(rest, newline);
    DetectLayout(open, newline, indentation, ReplaceChar(rest, '\n', newline) + newline);
  }

  /** Reading back what `stringifyJson` wrote records the style it was written with, for a
      non-empty object or array written with a non-empty indentation of at most 10
      characters: `JSON.stringify` then starts it with the bracket, a line break, one
      level of indentation and the first member. */
  lemma StringifyParseRoundTrip<T>(v: T, newline: string, indentation: string, serialize: (T, string) -> string,
                                   open: char, rest: string)
    requires IsNewline(newline) && IsBlank(indentation) && '\n' !in indentation && '\r' !in indentation
    requires open == '{' || open == '['
    requires |rest| > 0 && !IsWhitespace(rest[0])
    requires serialize(v, indentation) == [open] + "\n" + indentation + rest
    ensures var out := StringifyJson(Object(v, Some(newline), Some(indentation)), serialize);
      out.Ok? && DetectFormat(out.value) == Format(newline, indentation)
  {
    if newline == "\n" {
      DetectLayout(open, "\n", indentation, rest);
    } else {
      DetectRewritten(open, newline, indentation, rest);
    }
  }
}
