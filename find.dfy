/** The `find` command (src/commands/find.js). It lists the untranslated text found in
    the templates and, with `--update`, rewrites it in place: each occurrence becomes a
    `{{t "…"}}` call in its template, and every text becomes a key of every locale file.
    Tokens with no letter in them are skipped unless `--special-characters` is set; the
    Unicode letter class is a parameter. */
module Find {
  import opened Wrappers
  import opened Ast
  import opened JsString
  import opened OrderedMaps
  import opened Sorting
  import opened UpdateLocales

  /** `textToTranslate`: trimmed text to the places it was found. */
  type TextMap = OMap<string, seq<SourceLocation>>

  /** One planned rewrite: the text and one place it was found. */
  datatype UpdateItem = UpdateItem(text: string, location: SourceLocation)

  /** A template file of the theme. */
  datatype ThemeFile = ThemeFile(path: string, contents: string)

  // ---------------------------------------------------------------------------
  // isSpecialCharactersOnly
  // ---------------------------------------------------------------------------

  /** `isSpecialCharactersOnly(text)`: `text.match(LETTER_REGEX) === null`. */
  function IsSpecialCharactersOnly(text: string, isLetter: char -> bool): bool
    decreases |text|
  {
    |text| == 0 || (!isLetter(text[0]) && IsSpecialCharactersOnly(text[1..], isLetter))
  }

  /** A text is special characters only exactly when none of its characters is a letter. */
  lemma {:induction false} SpecialCharactersMeaning(text: string, isLetter: char -> bool)
    ensures IsSpecialCharactersOnly(text, isLetter) <==> forall i :: 0 <= i < |text| ==> !isLetter(text[i])
    decreases |text|
  {
    if |text| > 0 {
      SpecialCharactersMeaning(text[1..], isLetter);
      assert forall i :: 1 <= i < |text| ==> text[i] == text[1..][i - 1];
    }
  }

  /** A token is kept when special characters are included or it has a letter. */
  predicate Kept(token: string, includeSpecial: bool, isLetter: char -> bool) {
    includeSpecial || !IsSpecialCharactersOnly(token, isLetter)
  }

  // ---------------------------------------------------------------------------
  // prepareTranslationTextForUpdate
  // ---------------------------------------------------------------------------

  /** One item per place `token` was found, in order. */
  function ItemsFor(token: string, locations: seq<SourceLocation>): (r: seq<UpdateItem>)
    ensures |r| == |locations|
    ensures forall i :: 0 <= i < |r| ==> r[i] == UpdateItem(token, locations[i])
  {
    seq(|locations|, i requires 0 <= i < |locations| => UpdateItem(token, locations[i]))
  }

  /** The items of the kept tokens among the first `n` keys of `textToTranslate`, in map
      order and then in the order the places were found. */
  function KeptItems(textToTranslate: TextMap, n: nat, includeSpecial: bool, isLetter: char -> bool): seq<UpdateItem>
    requires textToTranslate.Valid() && n <= |textToTranslate.keys|
    decreases n
  {
    if n == 0 then []
    else
      var token := textToTranslate.keys[n - 1];
      KeptItems(textToTranslate, n - 1, includeSpecial, isLetter)
        + (if Kept(token, includeSpecial, isLetter) then ItemsFor(token, textToTranslate.values[token]) else [])
  }

  /** Every place a kept token was found gives exactly one item, and nothing else gives
      one: nothing is dropped or duplicated. */
  lemma {:induction false} KeptItemsCount(textToTranslate: TextMap, includeSpecial: bool, isLetter: char -> bool,
                                          item: UpdateItem)
    requires textToTranslate.Valid()
    ensures multiset(KeptItems(textToTranslate, |textToTranslate.keys|, includeSpecial, isLetter))[item]
            == if item.text in textToTranslate.values && Kept(item.text, includeSpecial, isLetter)
               then multiset(textToTranslate.values[item.text])[item.location] else 0
  {
    KeptCountUpTo(textToTranslate, |textToTranslate.keys|, includeSpecial, isLetter, item);
    InFirstMeaning(textToTranslate.keys, |textToTranslate.keys|, item.text);
    assert textToTranslate.keys[..|textToTranslate.keys|] == textToTranslate.keys;
  }

  /** `x` is among the first `n` keys. */
  predicate InFirst(keys: seq<string>, n: nat, x: string)
    requires n <= |keys|
  {
    n > 0 && (keys[n - 1] == x || InFirst(keys, n - 1, x))
  }

  lemma {:induction false} InFirstMeaning(keys: seq<string>, n: nat, x: string)
    requires n <= |keys|
    ensures InFirst(keys, n, x) <==> x in keys[..n]
    decreases n
  {
    if n > 0 {
      InFirstMeaning(keys, n - 1, x);
      InPrefix(keys, n, x);
    }
  }

  lemma {:induction false} NotInFirst(keys: seq<string>, n: nat)
    requires Distinct(keys) && n < |keys|
    ensures !InFirst(keys, n, keys[n])
  {
    InFirstMeaning(keys, n, keys[n]);
    DistinctPrefix(keys, n);
  }

  lemma {:induction false} KeptCountUpTo(textToTranslate: TextMap, n: nat, includeSpecial: bool, isLetter: char -> bool,
                                         item: UpdateItem)
    requires textToTranslate.Valid() && n <= |textToTranslate.keys|
    ensures multiset(KeptItems(textToTranslate, n, includeSpecial, isLetter))[item]
            == if item.text in textToTranslate.values && InFirst(textToTranslate.keys, n, item.text)
                  && Kept(item.text, includeSpecial, isLetter)
               then multiset(textToTranslate.values[item.text])[item.location] else 0
    decreases n
  {
    if n > 0 {
      var keys := textToTranslate.keys;
      KeptCountUpTo(textToTranslate, n - 1, includeSpecial, isLetter, item);
      KeptItemsStep(textToTranslate, n, includeSpecial, isLetter, item);
      if keys[n - 1] == item.text {
        NotInFirst(keys, n - 1);
      }
    }
  }

  /** The `n`-th key adds the items of its places when it is kept, and none otherwise. */
  lemma KeptItemsStep(textToTranslate: TextMap, n: nat, includeSpecial: bool, isLetter: char -> bool, item: UpdateItem)
    requires textToTranslate.Valid() && 0 < n <= |textToTranslate.keys|
    ensures var token := textToTranslate.keys[n - 1];
      multiset(KeptItems(textToTranslate, n, includeSpecial, isLetter))[item]
      == multiset(KeptItems(textToTranslate, n - 1, includeSpecial, isLetter))[item]
         + if Kept(token, includeSpecial, isLetter) && item.text == token
           then multiset(textToTranslate.values[token])[item.location] else 0
  {
    var token := textToTranslate.keys[n - 1];
    if Kept(token, includeSpecial, isLetter) {
      ItemsForCount(token, textToTranslate.values[token], item);
    }
  }

  lemma {:induction false} ItemsForCount(token: string, locations: seq<SourceLocation>, item: UpdateItem)
    ensures multiset(ItemsFor(token, locations))[item] == if item.text == token then multiset(locations)[item.location] else 0
    decreases |locations|
  {
    if |locations| > 0 {
      var init := locations[..|locations| - 1];
      var last := locations[|locations| - 1];
      ItemsForCount(token, init, item);
      assert ItemsFor(token, locations) == ItemsFor(token, init) + [UpdateItem(token, last)];
      assert locations == init + [last];
    }
  }

  /** The items grouped by the file they were found in: a file's group is created when its
      first item comes, and each item is appended to its file's group. */
  function Group(items: seq<UpdateItem>): (r: OMap<string, seq<UpdateItem>>)
    ensures r.Valid()
    decreases |items|
  {
    if |items| == 0 then Empty()
    else
      var g := Group(items[..|items| - 1]);
      var item := items[|items| - 1];
      g.Put(item.location.source, g.GetOr(item.location.source, []) + [item])
  }

  /** The items found in the file `source`, in order. */
  function OfSource(items: seq<UpdateItem>, source: string): seq<UpdateItem>
    decreases |items|
  {
    if |items| == 0 then []
    else
      var init := items[..|items| - 1];
      OfSource(init, source) + (if items[|items| - 1].location.source == source then [items[|items| - 1]] else [])
  }

  /** A file has a group exactly when some item was found in it, and its group is the
      items found in it, in order. */
  lemma {:induction false} GroupMeaning(items: seq<UpdateItem>, source: string)
    ensures source in Group(items).values <==> exists i :: 0 <= i < |items| && items[i].location.source == source
    ensures Group(items).GetOr(source, []) == OfSource(items, source)
    decreases |items|
  {
    if |items| > 0 {
      var init := items[..|items| - 1];
      var last := items[|items| - 1];
      GroupMeaning(init, source);
      var g := Group(init);
      assert Group(items) == g.Put(last.location.source, g.GetOr(last.location.source, []) + [last]);
      assert source in Group(items).values <==> source in g.values || last.location.source == source;
      FoundInStep(items, source);
    }
  }

  predicate FoundIn(items: seq<UpdateItem>, source: string) {
    exists i :: 0 <= i < |items| && items[i].location.source == source
  }

  /** Some item of a non-empty run comes from `source` exactly when some item before the
      last does or the last does. */
  lemma FoundInStep(items: seq<UpdateItem>, source: string)
    requires |items| > 0
    ensures FoundIn(items, source) <==> FoundIn(items[..|items| - 1], source) || items[|items| - 1].location.source == source
  {
    var init := items[..|items| - 1];
    if exists i :: 0 <= i < |items| && items[i].location.source == source {
      var i :| 0 <= i < |items| && items[i].location.source == source;
      if i < |items| - 1 {
        assert init[i] == items[i];
      }
    }
    if exists i :: 0 <= i < |init| && init[i].location.source == source {
      var i :| 0 <= i < |init| && init[i].location.source == source;
      assert items[i] == init[i];
    }
  }

  /** The sort key of an item: its start line, then its start column. */
  function ByPosition(item: UpdateItem): Rank {
    (item.location.start.line, item.location.start.column)
  }

  /** Each group sorted by descending start position. */
  function SortedGroups(g: OMap<string, seq<UpdateItem>>): OMap<string, seq<UpdateItem>> {
    OMap(g.keys, map source | source in g.values :: SortDesc(g.values[source], ByPosition))
  }

  /** The plan `prepareTranslationTextForUpdate` builds: the groups, each sorted. */
  function Prepared(textToTranslate: TextMap, includeSpecial: bool, isLetter: char -> bool): OMap<string, seq<UpdateItem>>
    requires textToTranslate.Valid()
  {
    SortedGroups(Group(KeptItems(textToTranslate, |textToTranslate.keys|, includeSpecial, isLetter)))
  }

  lemma PreparedShape(items: seq<UpdateItem>, source: string)
    ensures var plan := SortedGroups(Group(items));
      && plan.Valid()
      && (source in plan.values <==> exists i :: 0 <= i < |items| && items[i].location.source == source)
      && (source in plan.values ==> plan.values[source] == SortDesc(OfSource(items, source), ByPosition))
  {
    GroupMeaning(items, source);
  }

  /** The plan has a group for exactly the files some kept text was found in. A file's
      group holds each place found in it once, is sorted by descending line and column,
      and keeps places at the same position in the order they were found. */
  lemma PreparedMeaning(items: seq<UpdateItem>, source: string)
    ensures var plan := SortedGroups(Group(items));
      && plan.Valid()
      && (source in plan.values <==> exists i :: 0 <= i < |items| && items[i].location.source == source)
      && (source in plan.values ==>
            && Descending(plan.values[source], ByPosition)
            && multiset(plan.values[source]) == multiset(OfSource(items, source))
            && forall k :: WithRank(plan.values[source], ByPosition, k) == WithRank(OfSource(items, source), ByPosition, k))
  {
    PreparedShape(items, source);
    SortDescMeaning(OfSource(items, source), ByPosition);
  }

  /** `prepareTranslationTextForUpdate(textToTranslate, includeSpecialCharacters)`: the
      groups are built, then each group is sorted. */
  method PrepareTranslationTextForUpdate(textToTranslate: TextMap, includeSpecial: bool, isLetter: char -> bool)
    returns (changesPerFile: OMap<string, seq<UpdateItem>>)
    requires textToTranslate.Valid()
    ensures changesPerFile == Prepared(textToTranslate, includeSpecial, isLetter)
  {
    var grouped := GroupAll(textToTranslate, includeSpecial, isLetter);
    changesPerFile := SortEach(grouped);
  }

  /** The second loop: `store.sort(...)` on each group. */
  method SortEach(grouped: OMap<string, seq<UpdateItem>>) returns (sorted: OMap<string, seq<UpdateItem>>)
    requires grouped.Valid()
    ensures sorted == SortedGroups(grouped)
  {
    sorted := grouped;
    for k := 0 to |grouped.keys|
      invariant sorted.keys == grouped.keys
      invariant sorted.values.Keys == grouped.values.Keys
      invariant forall source :: source in grouped.values ==>
                  sorted.values[source]
                  == if source in grouped.keys[..k] then SortDesc(grouped.values[source], ByPosition)
                     else grouped.values[source]
    {
      var source := grouped.keys[k];
      DistinctPrefix(grouped.keys, k);
      forall x ensures x in grouped.keys[..k + 1] <==> x in grouped.keys[..k] || x == source {
        InPrefix(grouped.keys, k + 1, x);
      }
      var group := Sort(sorted.values[source], ByPosition);
      sorted := sorted.Put(source, group);
    }
    assert grouped.keys[..|grouped.keys|] == grouped.keys;
  }

  /** Appending one more place of `token` appends its item to its file's group. */
  lemma GroupStep(before: seq<UpdateItem>, token: string, sources: seq<SourceLocation>, j: nat)
    requires j < |sources|
    ensures var g := Group(before + ItemsFor(token, sources[..j]));
      Group(before + ItemsFor(token, sources[..j + 1]))
      == g.Put(sources[j].source, g.GetOr(sources[j].source, []) + [UpdateItem(token, sources[j])])
  {
    var done := before + ItemsFor(token, sources[..j]);
    var item := UpdateItem(token, sources[j]);
    assert ItemsFor(token, sources[..j + 1]) == ItemsFor(token, sources[..j]) + [item];
    assert before + ItemsFor(token, sources[..j + 1]) == done + [item];
    assert (done + [item])[..|done|] == done;
  }

  /** The first loop of `prepareTranslationTextForUpdate`: every place of every kept token
      appended to its file's group. */
  method GroupAll(textToTranslate: TextMap, includeSpecial: bool, isLetter: char -> bool)
    returns (grouped: OMap<string, seq<UpdateItem>>)
    requires textToTranslate.Valid()
    ensures grouped == Group(KeptItems(textToTranslate, |textToTranslate.keys|, includeSpecial, isLetter))
  {
    grouped := Empty();
    for i := 0 to |textToTranslate.keys|
      invariant grouped == Group(KeptItems(textToTranslate, i, includeSpecial, isLetter))
    {
      var token := textToTranslate.keys[i];
      ghost var before := KeptItems(textToTranslate, i, includeSpecial, isLetter);
      KeptItemsNext(textToTranslate, i, includeSpecial, isLetter);
      if !includeSpecial && IsSpecialCharactersOnly(token, isLetter) {
        continue;
      }
      grouped := GroupPlaces(grouped, before, token, textToTranslate.values[token]);
    }
  }

  lemma KeptItemsNext(textToTranslate: TextMap, i: nat, includeSpecial: bool, isLetter: char -> bool)
    requires textToTranslate.Valid() && i < |textToTranslate.keys|
    ensures var token := textToTranslate.keys[i];
      !Kept(token, includeSpecial, isLetter) ==>
        KeptItems(textToTranslate, i + 1, includeSpecial, isLetter) == KeptItems(textToTranslate, i, includeSpecial, isLetter)
    ensures var token := textToTranslate.keys[i];
      Kept(token, includeSpecial, isLetter) ==>
        KeptItems(textToTranslate, i + 1, includeSpecial, isLetter)
        == KeptItems(textToTranslate, i, includeSpecial, isLetter) + ItemsFor(token, textToTranslate.values[token])
  {
    assert KeptItems(textToTranslate, i, includeSpecial, isLetter) + [] == KeptItems(textToTranslate, i, includeSpecial, isLetter);
  }

  /** The inner loop: each place of `token` appended to its file's group. */
  method GroupPlaces(g: OMap<string, seq<UpdateItem>>, ghost before: seq<UpdateItem>, token: string,
                     sources: seq<SourceLocation>)
    returns (grouped: OMap<string, seq<UpdateItem>>)
    requires g == Group(before)
    ensures grouped == Group(before + ItemsFor(token, sources))
  {
    grouped := g;
    assert before + ItemsFor(token, sources[..0]) == before;
    for j := 0 to |sources|
      invariant grouped == Group(before + ItemsFor(token, sources[..j]))
    {
      GroupStep(before, token, sources, j);
      grouped := grouped.Put(sources[j].source, grouped.GetOr(sources[j].source, []) + [UpdateItem(token, sources[j])]);
    }
    assert sources[..|sources|] == sources;
  }

  // ---------------------------------------------------------------------------
  // wrapTextInTranslationHelper
  // ---------------------------------------------------------------------------

  /** `text.replaceAll('"', '\\"')`. */
  function Escape(text: string): string {
    ReplaceChar(text, '"', "\\\"")
  }

  /** `wrapTextInTranslationHelper(text)`: the text as the argument of a `{{t}}` call. It is
      quoted with `"` unless it holds a `"` and no `'`; when it holds both, each `"` is
      escaped. */
  function Wrap(text: string): (r: string)
    ensures '"' !in text ==> r == "{{t \"" + text + "\"}}"
    ensures '"' in text && '\'' !in text ==> r == "{{t '" + text + "'}}"
    ensures '"' in text && '\'' in text ==> r == "{{t \"" + Escape(text) + "\"}}"
  {
    var quote := if '"' in text && '\'' !in text then '\'' else '"';
    var normalized := if '"' in text && '\'' in text then Escape(text) else text;
    "{{t " + [quote] + normalized + [quote] + "}}"
  }

  /** `\"` read as `"`, as a template string literal reads it. */
  function Unescape(s: string): string
    decreases |s|
  {
    if |s| >= 2 && s[0] == '\\' && s[1] == '"' then "\"" + Unescape(s[2..])
    else if |s| == 0 then ""
    else [s[0]] + Unescape(s[1..])
  }

  /** The argument of a `{{t}}` call read back: the quote after `{{t `, the text up to the
      same quote before `}}`, with `\"` read as `"` inside double quotes. */
  function Unwrap(r: string): Option<string> {
    if |r| >= 8 && r[..4] == "{{t " && r[|r| - 2..] == "}}" && (r[4] == '"' || r[4] == '\'') && r[|r| - 3] == r[4] then
      var body := r[5..|r| - 3];
      Some(if r[4] == '"' then Unescape(body) else body)
    else None
  }

  lemma EscapeHead(text: string)
    requires |text| > 0
    ensures Escape(text) == (if text[0] == '"' then "\\\"" else [text[0]]) + Escape(text[1..])
  {
  }

  lemma {:induction false} EscapeNoBareHead(text: string)
    ensures |Escape(text)| == 0 || Escape(text)[0] != '"'
    decreases |text|
  {
    if |text| > 0 {
      EscapeHead(text);
    }
  }

  /** Reading back escaped text gives the text. */
  lemma {:induction false} UnescapeEscape(text: string)
    ensures Unescape(Escape(text)) == text
    decreases |text|
  {
    if |text| > 0 {
      var rest := Escape(text[1..]);
      EscapeHead(text);
      UnescapeEscape(text[1..]);
      if text[0] == '"' {
        var s := "\\\"" + rest;
        assert s[2..] == rest;
      } else {
        var s := [text[0]] + rest;
        assert s[1..] == rest;
        EscapeNoBareHead(text[1..]);
        if text[0] == '\\' && |rest| > 0 {
          assert s[1] == rest[0];
        }
      }
      assert text == [text[0]] + text[1..];
    }
  }

  lemma UnescapeFree(text: string)
    requires '"' !in text
    ensures Unescape(text) == text
    decreases |text|
  {
    if |text| > 0 {
      assert text[1..] == text[1..];
      assert forall c :: c in text[1..] ==> c in text;
      UnescapeFree(text[1..]);
    }
  }

  /** The call `wrapTextInTranslationHelper` writes reads back as the text it wrapped. */
  lemma WrapUnwrap(text: string)
    ensures Unwrap(Wrap(text)) == Some(text)
  {
    var r := Wrap(text);
    var quote := r[4];
    var normalized := if '"' in text && '\'' in text then Escape(text) else text;
    assert r == "{{t " + [quote] + normalized + [quote] + "}}";
    assert r[..4] == "{{t ";
    assert r[|r| - 2..] == "}}";
    assert r[5..|r| - 3] == normalized;
    if '"' in text && '\'' in text {
      UnescapeEscape(text);
    } else if '"' !in text {
      UnescapeFree(text);
    }
  }

  // ---------------------------------------------------------------------------
  // applyThemeChanges
  // ---------------------------------------------------------------------------

  /** `${prefix}${updatedText}${suffix}` for one item on its line. */
  function SpliceLine(line: string, item: UpdateItem): string {
    Slice(line, 0, item.location.start.column) + Wrap(item.text) + Slice(line, item.location.end.column, |line|)
  }

  const MultilineError: Error := Thrown("Cannot update multiline strings")

  /** The `TypeError` from `line.slice` when `lines[lineIndex]` is `undefined`. */
  const MissingLineError: Error := TypeError("Cannot read properties of undefined (reading 'slice')")

  /** One pass of the splice loop. */
  function ApplyEdit(lines: seq<string>, item: UpdateItem): (r: Result<seq<string>>)
    ensures r.Ok? ==> |r.value| == |lines|
  {
    if item.location.start.line != item.location.end.line then Err(MultilineError)
    else
      var index := item.location.start.line - 1;
      if 0 <= index < |lines| then Ok(lines[index := SpliceLine(lines[index], item)])
      else Err(MissingLineError)
  }

  /** The splice loop over a file's items, stopping at the first that throws. */
  function ApplyEdits(lines: seq<string>, items: seq<UpdateItem>): Result<seq<string>>
    decreases |items|
  {
    if |items| == 0 then Ok(lines)
    else
      match ApplyEdit(lines, items[0])
      case Err(e) => Err(e)
      case Ok(next) => ApplyEdits(next, items[1..])
  }

  /** The file's new contents: split into lines, spliced, joined again. */
  function FileAfter(contents: string, items: seq<UpdateItem>): Result<string> {
    match ApplyEdits(Split(contents, "\n"), items)
    case Err(e) => Err(e)
    case Ok(lines) => Ok(Join(lines, "\n"))
  }

  /** A single-line edit within its line replaces the columns `[start, end)` with the
      wrapped text, keeps the text on either side, and changes no other line. */
  lemma SpliceMeaning(lines: seq<string>, item: UpdateItem)
    requires item.location.start.line == item.location.end.line
    requires 1 <= item.location.start.line <= |lines|
    requires var line := lines[item.location.start.line - 1];
      0 <= item.location.start.column <= item.location.end.column <= |line|
    ensures var index := item.location.start.line - 1;
      var line := lines[index];
      var r := ApplyEdit(lines, item);
      && r.Ok? && |r.value| == |lines|
      && r.value[index] == line[..item.location.start.column] + Wrap(item.text) + line[item.location.end.column..]
      && forall i :: 0 <= i < |lines| && i != index ==> r.value[i] == lines[i]
  {
    var line := lines[item.location.start.line - 1];
    SliceFacts(line, 0, item.location.start.column);
    SliceFacts(line, item.location.end.column, |line|);
  }

  /** Two edits on one line, the right one first: the left one's columns still refer to the
      line as it was, because only text to its right has changed. This is why each file's
      items are sorted bottom-up. */
  lemma RightToLeft(lines: seq<string>, right: UpdateItem, left: UpdateItem)
    requires right.location.start.line == right.location.end.line == left.location.start.line == left.location.end.line
    requires 1 <= right.location.start.line <= |lines|
    requires var line := lines[right.location.start.line - 1];
      0 <= left.location.start.column <= left.location.end.column <= right.location.start.column
      <= right.location.end.column <= |line|
    ensures var index := right.location.start.line - 1;
      var line := lines[index];
      ApplyEdits(lines, [right, left])
      == Ok(lines[index := line[..left.location.start.column] + Wrap(left.text)
                           + line[left.location.end.column..right.location.start.column]
                           + Wrap(right.text) + line[right.location.end.column..]])
  {
    var index := right.location.start.line - 1;
    var line := lines[index];
    SpliceMeaning(lines, right);
    var once := ApplyEdit(lines, right).value;
    var mid := once[index];
    assert mid == line[..right.location.start.column] + Wrap(right.text) + line[right.location.end.column..];
    assert mid[..left.location.start.column] == line[..left.location.start.column];
    assert mid[left.location.end.column..] == line[left.location.end.column..right.location.start.column]
                                              + Wrap(right.text) + line[right.location.end.column..];
    SpliceMeaning(once, left);
    assert [right, left][1..] == [left];
    assert ApplyEdits(once, [left]) == ApplyEdit(once, left);
    var a := line[..left.location.start.column];
    var b := line[left.location.end.column..right.location.start.column];
    var c := line[right.location.end.column..];
    var wl := Wrap(left.text);
    var wr := Wrap(right.text);
    assert ApplyEdit(once, left).value[index] == a + wl + (b + wr + c);
    assert a + wl + (b + wr + c) == a + wl + b + wr + c;
    assert ApplyEdit(once, left).value == lines[index := a + wl + b + wr + c];
  }

  /** `file.contents.split('\n')` into an array, then the splice loop over the file's
      items, overwriting `lines[lineIndex]`, then `lines.join('\n')`. */
  method UpdateFile(contents: string, items: seq<UpdateItem>) returns (r: Result<string>)
    ensures r == FileAfter(contents, items)
  {
    var parts := Split(contents, "\n");
    var lines := new string[|parts|](i requires 0 <= i < |parts| => parts[i]);
    assert lines[..] == parts;
    for k := 0 to |items|
      invariant ApplyEdits(lines[..], items[k..]) == ApplyEdits(parts, items)
    {
      var item := items[k];
      assert items[k..][1..] == items[k + 1..];
      if item.location.start.line != item.location.end.line {
        return Err(MultilineError);
      }
      var index := item.location.start.line - 1;
      if !(0 <= index < lines.Length) {
        return Err(MissingLineError);
      }
      lines[index] := SpliceLine(lines[index], item);
    }
    r := Ok(Join(lines[..], "\n"));
  }

  /** The writes and the outcome of the loop over the theme's files from the `i`-th on. */
  datatype FileRun = FileRun(writes: seq<FileWrite>, outcome: Outcome)

  function ThemeRun(themePath: string, files: seq<ThemeFile>, changesPerFile: OMap<string, seq<UpdateItem>>): FileRun
    decreases |files|
  {
    if |files| == 0 then FileRun([], Pass)
    else
      var file := files[0];
      if file.path !in changesPerFile.values then ThemeRun(themePath, files[1..], changesPerFile)
      else
        match FileAfter(file.contents, changesPerFile.values[file.path])
        case Err(e) => FileRun([], Fail(e))
        case Ok(text) =>
          var rest := ThemeRun(themePath, files[1..], changesPerFile);
          FileRun([FileWrite(themePath + "/" + file.path, text)] + rest.writes, rest.outcome)
  }

  /** When no file's edits throw, exactly the files with planned edits are written, each
      with its edits applied, in the theme's file order. */
  lemma {:induction false} ThemeRunWrites(themePath: string, files: seq<ThemeFile>,
                                          changesPerFile: OMap<string, seq<UpdateItem>>)
    ensures var run := ThemeRun(themePath, files, changesPerFile);
      run.outcome.Pass? ==>
        && |run.writes| == |Edited(files, changesPerFile)|
        && forall i :: 0 <= i < |run.writes| ==>
             var file := Edited(files, changesPerFile)[i];
             && FileAfter(file.contents, changesPerFile.values[file.path]).Ok?
             && run.writes[i] == FileWrite(themePath + "/" + file.path, FileAfter(file.contents, changesPerFile.values[file.path]).value)
    decreases |files|
  {
    if |files| > 0 {
      var file := files[0];
      var rest := ThemeRun(themePath, files[1..], changesPerFile);
      var restEdited := Edited(files[1..], changesPerFile);
      ThemeRunWrites(themePath, files[1..], changesPerFile);
      if file.path in changesPerFile.values && FileAfter(file.contents, changesPerFile.values[file.path]).Ok? {
        var run := ThemeRun(themePath, files, changesPerFile);
        var edited := Edited(files, changesPerFile);
        assert run.writes == [FileWrite(themePath + "/" + file.path, FileAfter(file.contents, changesPerFile.values[file.path]).value)] + rest.writes;
        assert edited == [file] + restEdited;
        if run.outcome.Pass? {
          forall i | 1 <= i < |run.writes| ensures run.writes[i] == rest.writes[i - 1] && edited[i] == restEdited[i - 1] {
          }
        }
      } else if file.path !in changesPerFile.values {
        assert Edited(files, changesPerFile) == restEdited;
      }
    }
  }

  /** The theme's files that have planned edits, in order. */
  function Edited(files: seq<ThemeFile>, changesPerFile: OMap<string, seq<UpdateItem>>): (r: seq<ThemeFile>)
    ensures forall i :: 0 <= i < |r| ==> r[i].path in changesPerFile.values
    decreases |files|
  {
    if |files| == 0 then []
    else (if files[0].path in changesPerFile.values then [files[0]] else []) + Edited(files[1..], changesPerFile)
  }

  /** `applyThemeChanges(theme, changesPerFile, verbose)`, with the console output left out.
      The run resolves to 0; a throw rejects it, and the writes issued before it stay
      issued. */
  method ApplyThemeChanges(theme: Theme, files: seq<ThemeFile>, changesPerFile: OMap<string, seq<UpdateItem>>)
    returns (r: Result<int>)
    modifies theme
    ensures var run := ThemeRun(theme.themePath, files, changesPerFile);
      && theme.written == old(theme.written) + run.writes
      && theme.locales == old(theme.locales)
      && (r.Ok? <==> run.outcome.Pass?)
      && (r.Ok? ==> r.value == 0)
      && (r.Err? ==> r.error == run.outcome.error)
  {
    ghost var run := ThemeRun(theme.themePath, files, changesPerFile);
    ghost var issued: seq<FileWrite> := [];
    for i := 0 to |files|
      invariant theme.written == old(theme.written) + issued
      invariant theme.locales == old(theme.locales)
      invariant var rest := ThemeRun(theme.themePath, files[i..], changesPerFile);
        run == FileRun(issued + rest.writes, rest.outcome)
    {
      var file := files[i];
      assert files[i..][1..] == files[i + 1..];
      if file.path !in changesPerFile.values {
        continue;
      }
      var text := UpdateFile(file.contents, changesPerFile.values[file.path]);
      if text.Err? {
        return Err(text.error);
      }
      var write := FileWrite(theme.themePath + "/" + file.path, text.value);
      theme.written := theme.written + [write];
      issued := issued + [write];
    }
    r := Ok(0);
  }

  // ---------------------------------------------------------------------------
  // applyLocaleChanges
  // ---------------------------------------------------------------------------

  /** The kept tokens, in map order. */
  function KeptTokens(tokens: seq<string>, includeSpecial: bool, isLetter: char -> bool): (r: seq<string>)
    ensures forall t :: t in r <==> t in tokens && Kept(t, includeSpecial, isLetter)
    decreases |tokens|
  {
    if |tokens| == 0 then []
    else
      var init := tokens[..|tokens| - 1];
      var last := tokens[|tokens| - 1];
      assert tokens == init + [last];
      KeptTokens(init, includeSpecial, isLetter) + (if Kept(last, includeSpecial, isLetter) then [last] else [])
  }

  /** The change list `applyLocaleChanges` builds: every locale, in order, with the kept
      tokens missing and nothing extra. */
  function LocaleChanges(locales: seq<string>, missing: seq<string>): (r: OMap<string, Change>)
    ensures forall l :: l in r.values <==> l in locales
    ensures forall l :: l in r.values ==> r.values[l] == Change(missing, [])
    ensures Distinct(locales) ==> r.Valid() && r.keys == locales
    decreases |locales|
  {
    if |locales| == 0 then Empty()
    else
      var init := locales[..|locales| - 1];
      assert locales == init + [locales[|locales| - 1]];
      assert Distinct(locales) ==> Distinct(init) && locales[|locales| - 1] !in init by {
        if Distinct(locales) {
          DistinctPrefix(locales, |locales| - 1);
        }
      }
      LocaleChanges(init, missing).Put(locales[|locales| - 1], Change(missing, []))
  }

  /** The first loop of `applyLocaleChanges`: the kept tokens, in order. */
  method CollectKept(tokens: seq<string>, includeSpecial: bool, isLetter: char -> bool) returns (missing: seq<string>)
    ensures missing == KeptTokens(tokens, includeSpecial, isLetter)
  {
    missing := [];
    for i := 0 to |tokens|
      invariant missing == KeptTokens(tokens[..i], includeSpecial, isLetter)
    {
      var token := tokens[i];
      assert tokens[..i + 1][..i] == tokens[..i];
      if !includeSpecial && IsSpecialCharactersOnly(token, isLetter) {
        continue;
      }
      missing := missing + [token];
    }
    assert tokens[..|tokens|] == tokens;
  }

  lemma LocaleChangesNext(localeKeys: seq<string>, i: nat, missing: seq<string>)
    requires i < |localeKeys|
    ensures LocaleChanges(localeKeys[..i + 1], missing)
            == LocaleChanges(localeKeys[..i], missing).Put(localeKeys[i], Change(missing, []))
  {
    var p := localeKeys[..i + 1];
    assert p[..|p| - 1] == localeKeys[..i];
    assert p[|p| - 1] == localeKeys[i];
  }

  /** The second loop: every locale gets the same change. */
  method ChangesFor(localeKeys: seq<string>, missing: seq<string>) returns (changes: OMap<string, Change>)
    ensures changes == LocaleChanges(localeKeys, missing)
  {
    changes := Empty();
    for i := 0 to |localeKeys|
      invariant changes == LocaleChanges(localeKeys[..i], missing)
    {
      LocaleChangesNext(localeKeys, i, missing);
      changes := changes.Put(localeKeys[i], Change(missing, []));
    }
    assert localeKeys[..|localeKeys|] == localeKeys;
  }

  /** `applyLocaleChanges(theme, specialCharacters, verbose)`: the kept tokens become the
      missing keys of every locale, then `applyChanges` runs. */
  method ApplyLocaleChanges(theme: Theme, textToTranslate: TextMap, includeSpecial: bool, isLetter: char -> bool,
                            serialize: (OMap<string, string>, string) -> string)
    returns (r: Result<int>)
    requires theme.locales.Valid()
    modifies theme
    ensures var changes := LocaleChanges(old(theme.locales).keys, KeptTokens(textToTranslate.keys, includeSpecial, isLetter));
      var run := ApplyFrom(Run(old(theme.locales), old(theme.written), Pass), theme.themePath, changes, 0, serialize);
      && theme.locales == run.locales && theme.written == run.writes
      && (r.Ok? <==> run.outcome.Pass?)
      && (r.Ok? ==> r.value == 0)
      && (r.Err? ==> r.error == run.outcome.error)
  {
    var missing := CollectKept(textToTranslate.keys, includeSpecial, isLetter);
    var changes := ChangesFor(theme.locales.keys, missing);
    r := theme.ApplyChanges(changes, serialize);
  }

  // ---------------------------------------------------------------------------
  // findCommand
  // ---------------------------------------------------------------------------

  datatype Options = Options(update: bool, fail: bool, json: bool, verbose: bool, specialCharacters: bool)

  /** `findCommand(options, theme)`: the exit status, or the error the run rejects with.
      `--update` with `--fail` exits with 1 before anything is done. With `--update`, the
      files are rewritten first and the locale files second; both run to their end or
      their first throw, and a throw from the first is the one reported. Otherwise the
      status is 1 exactly when `--fail` is set and any text was found, counting text the
      listing skipped for having no letter. */
  method FindCommand(options: Options, theme: Theme, files: seq<ThemeFile>, textToTranslate: TextMap,
                     isLetter: char -> bool, serialize: (OMap<string, string>, string) -> string)
    returns (code: Result<int>)
    requires textToTranslate.Valid() && theme.locales.Valid()
    modifies theme
    ensures options.update && options.fail ==>
              code == Ok(1) && theme.written == old(theme.written) && theme.locales == old(theme.locales)
    ensures !options.update ==>
              && code == Ok(if options.fail && |textToTranslate.keys| > 0 then 1 else 0)
              && theme.written == old(theme.written) && theme.locales == old(theme.locales)
    ensures options.update && !options.fail ==>
              var fileRun := ThemeRun(theme.themePath, files, Prepared(textToTranslate, options.specialCharacters, isLetter));
              var changes := LocaleChanges(old(theme.locales).keys, KeptTokens(textToTranslate.keys, options.specialCharacters, isLetter));
              var localeRun := ApplyFrom(Run(old(theme.locales), old(theme.written) + fileRun.writes, Pass),
                                         theme.themePath, changes, 0, serialize);
              && theme.locales == localeRun.locales && theme.written == localeRun.writes
              && code == if fileRun.outcome.Fail? then Err(fileRun.outcome.error)
                         else if localeRun.outcome.Fail? then Err(localeRun.outcome.error)
                         else Ok(0)
  {
    if options.update && options.fail {
      return Ok(1);
    }
    if options.update {
      var changesPerFile := PrepareTranslationTextForUpdate(textToTranslate, options.specialCharacters, isLetter);
      var fromFiles := ApplyThemeChanges(theme, files, changesPerFile);
      var fromLocales := ApplyLocaleChanges(theme, textToTranslate, options.specialCharacters, isLetter, serialize);
      if fromFiles.Err? {
        return Err(fromFiles.error);
      }
      if fromLocales.Err? {
        return Err(fromLocales.error);
      }
      return Ok(fromFiles.value + fromLocales.value);
    }
    code := Ok(if options.fail && |textToTranslate.keys| > 0 then 1 else 0);
  }
}
