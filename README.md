# gt3 translation toolkit: the span bookkeeping, in Dafny

gt3 finds the text of a Ghost theme's Handlebars templates that is not yet wrapped in a
`{{t}}` translation helper, and reports or rewrites it. This project models the core of
that tool and proves what it promises:

- **Masking.** A text extractor overwrites every Handlebars construct in a template's
  lines with a `__TT…__` placeholder of exactly the same width. This keeps every remaining
  character at its original line and column. An older rule, `MarkUsedHelpers`, does the
  same and also gathers the template's content.
- **Extraction.** The masked HTML's text nodes are split at the matches of
  `MARKER_REGEX`, `__TT[.\n]+__` as written (see "## Findings"). Each piece
  is trimmed and located with a forward-only offset-to-line/column resolver, then
  recorded in the shared `textToTranslate` map.
- **Translation keys.** The collector records every `{{t "key"}}` call site and its hash
  parameters in the shared `translatedStrings` map. A visitor fan-out runs the extractor
  and the collector over the same tree with one merged context.
- **`find --update`.** The edits are grouped by file and sorted bottom-up. Each one is
  spliced into its line as `{{t "…"}}`, and the kept texts are added as missing keys to
  every locale file.
- **`status`.** It diffs each locale's keys against the expected keys and turns the flags
  and the diff into an exit code and a report order. It can also apply the diff.
- **Locale files.** Keys are added and deleted, and the files are written back in the
  newline and indentation style they were read with, for a non-empty object written
  with a non-empty indentation of at most 10 characters (see "## Left out").
- **Small helpers.** The debug source reader, the argument checker, and the template
  name classifier of the theme reader.

One Dafny module per source file:

| module | models |
|---|---|
| `LocationResolvers` | src/util/location-resolver.js |
| `SourceMarker` | `markerOfWidth`, `isLocSame`, `markSource` and `BlockStatement` span choice, shared by both visitors |
| `TextExtractor` | src/ast/visitors/text-extractor.js |
| `MarkUsedHelpers` | src/ast/rules/mark-used-helpers.js |
| `TranslatedStrings` | src/ast/visitors/translated-strings.js |
| `Many` | src/ast/visitors/many.js |
| `Debug` | src/ast/debug.js |
| `Find` | src/commands/find.js |
| `Status` | src/commands/status.js |
| `UpdateLocales` | src/commands/_internal/update-locales.js |
| `InlineJson` | src/util/inline-json.js |
| `CheckFlags` | src/commands/_internal/check-flags.js |
| `ReadTheme` | `extractTemplates` and `extractCustomTemplates` of src/read-theme.js |

The remaining modules support these:

- `Wrappers` holds the `Result`/`Option`/`Outcome` types and the thrown errors.
- `Ast` holds the positions, locations and node shapes of src/ast/types.js.
- `Contexts` holds the shared visitor context.
- `OrderedMaps` holds an insertion-ordered `Map`, which is also used for plain objects.
- `JsString` holds ECMAScript `slice`, `trim`, `indexOf`, `split`, `join` and `replaceAll` with their edge cases.
- `Sorting` holds a stable descending sort, the behaviour of `Array.prototype.sort` with a numeric comparator.

Throws are modelled as `Err`/`Fail` values, named after the exception the code raises.
State changes are modelled as in the source:

- The resolver, the visitors, the rule and the theme are classes whose fields the methods update.
- Loops are methods with invariants, proved against recursive specification functions.
- Those specification functions carry the lemmas.

Three external pieces are parameters: the HTML parse, the JSON codec and the Unicode
letter class. Promise-based concurrency runs as a sequential loop.

## Model

| member | source | states |
|---|---|---|
| LocationResolvers.LocationResolver.GetNewlineIndices | src/util/location-resolver.js:7-22 | returns exactly the indices of every `'\n'` in the text, strictly increasing |
| LocationResolvers.NewlinesFromExact | src/util/location-resolver.js:7-22 | the newline list from an offset holds only newline indices at or after it, holds all of them, and is strictly increasing |
| LocationResolvers.NewlinesFromIndexOf | src/util/location-resolver.js:11-19 | each `indexOf('\n', lastIndex + 1)` yields the next newline, or -1 when none is left |
| LocationResolvers.LocationResolver.constructor | src/util/location-resolver.js:30-40 | records file name, line offset and first-column offset, the newline list of the source, and the cursor at (-1, 0) |
| LocationResolvers.LocationResolver.PreviousNewLineTextIndex | src/util/location-resolver.js:79-81 | the index of the newline last passed, or minus the first-column offset before the first one |
| LocationResolvers.LocationResolver.AdvanceTo | src/util/location-resolver.js:87-96 | the cursor moves forward past every newline before the index and never moves back; previous stays current minus one |
| LocationResolvers.LocationResolver.GetLocationForRange | src/util/location-resolver.js:47-77 | `RangeError` exactly for a reversed range or a start before the last passed newline, with the cursor unchanged; otherwise a location in the resolver's file whose start is not after its end, with line = offset + newlines passed and column = offset minus last newline minus 1 |
| LocationResolvers.PositionOfMeaning | src/util/location-resolver.js:69-74 | the line is the line offset plus the newlines before the offset (a `'\n'` belongs to the line it ends); the column counts the characters since the last newline, or is offset + firstColumnOffset - 1 on the first line |
| LocationResolvers.PositionOfMonotone | src/util/location-resolver.js:68-74 | a later offset never resolves to an earlier position |
| LocationResolvers.ReachedOrdered | src/util/location-resolver.js:68-74 | resolving the end of a range reaches at least as far as its start, and its position is not before the start's |
| LocationResolvers.ReachedClean | src/util/location-resolver.js:52-54 | when the start is after the newline the cursor last passed, the cursor does not hold the answer back: the position is that of a fresh resolver |
| LocationResolvers.CountBelowSplits | src/util/location-resolver.js:91-95 | in an increasing newline list, the entries below an offset are exactly a prefix, the one the cursor stops at |
| LocationResolvers.CountBelowIsNewlineCount | src/util/location-resolver.js:69 | the cursor position for an offset equals the number of newlines before it |
| LocationResolvers.LastNewlineBefore | src/util/location-resolver.js:70 | the newline the column is measured from is the last one before the offset |
| LocationResolvers.ForwardQueriesAgree | src/util/location-resolver.js:47-77 | for any three offsets in order, the queries `[a, b]` then `[b, c]` succeed, meet at `b`, and begin and end where a single `[a, c]` query does |
| SourceMarker.MarkerOfWidth | src/ast/visitors/text-extractor.js:20-30 | throws exactly below width 6; otherwise a string of exactly the width: `__TT`, only dots, `__` |
| SourceMarker.MarkerUnique | src/ast/visitors/text-extractor.js:25-29 | every well-formed placeholder is the one `markerOfWidth` makes for its width |
| SourceMarker.IsLocSame | src/ast/visitors/text-extractor.js:46-48 | true exactly when both positions are equal |
| SourceMarker.MarkLines | src/ast/visitors/text-extractor.js:238-285 | the two loops of `markSource` compute `MarkSpan` |
| SourceMarker.MarkSpanFrame | src/ast/visitors/text-extractor.js:238-285 | the array keeps its size, and only lines `start.line..end.line` may change |
| SourceMarker.MarkSingleLine | src/ast/visitors/text-extractor.js:245-256 | inside a line: succeeds exactly when the span is at least 6 wide, then the line is prefix + marker + suffix of the same length; otherwise throws and changes nothing |
| SourceMarker.MarkSingleLineChecked | src/ast/visitors/text-extractor.js:248-254 | for any columns, a call that returns kept the line's length; the `Unexpected state` throw comes with a line of another length |
| SourceMarker.Pass1Sums | src/ast/visitors/text-extractor.js:261-269 | pass 1 computes the sum of the covered parts' widths |
| SourceMarker.ConcatSegmentsWidth | src/ast/visitors/text-extractor.js:264-268 | the covered parts, read in order, are exactly as wide as that sum |
| SourceMarker.WriteSegmentInRange | src/ast/visitors/text-extractor.js:280-282 | one overwrite keeps the line's length and its text outside `[s, e)`, and puts the next `e - s` marker characters in it |
| SourceMarker.Pass2Returns | src/ast/visitors/text-extractor.js:275-284 | pass 2 over existing lines returns and keeps the array's size |
| SourceMarker.Pass2At | src/ast/visitors/text-extractor.js:275-284 | each covered line ends up overwritten from marker offset = widths of the covered parts before it |
| SourceMarker.SegmentsSpell | src/ast/visitors/text-extractor.js:271-284 | lines holding consecutive slices of the marker spell the marker |
| SourceMarker.MarkedLine | src/ast/visitors/text-extractor.js:275-284 | after pass 2, every line keeps its length, and a covered line keeps its text outside the covered part |
| SourceMarker.MarkMultiLine | src/ast/visitors/text-extractor.js:259-285 | multi-line span inside the lines: width = sum of per-line widths; succeeds exactly when the width is at least 6, otherwise throws with the lines unchanged; on success every line keeps its length, covered lines keep their outside text, and the covered parts read in line order are exactly the marker |
| SourceMarker.MarkMultiLinePassed | src/ast/visitors/text-extractor.js:271-284 | the success half of the above |
| SourceMarker.BlockSpans | src/ast/visitors/text-extractor.js:206-230 | both branches: the open tag and the separator, plus the closing tag exactly when the else branch does not end where the block ends; one branch: the two tags around it; neither: `Unexpected state` |
| SourceMarker.BlockSpansAvoidBranches | src/ast/visitors/text-extractor.js:206-230 | for a block laid out in order, the masked spans are ordered and disjoint and never overlap a branch body |
| SourceMarker.MarkAllFrame | src/ast/visitors/text-extractor.js:211-226 | marking several spans keeps the array's size and changes no line outside them |
| SourceMarker.MarkSpans | src/ast/visitors/text-extractor.js:211-226 | the sequence of `markSource` calls a handler makes, stopping at the first throw |
| TextExtractor.FillerRunMeaning | src/ast/visitors/text-extractor.js:18 | `[.\n]+` takes the longest run of dots and newlines |
| TextExtractor.MatchLengthMeaning | src/ast/visitors/text-extractor.js:18 | a match at an offset is exactly an occurrence of `__TT`, enough filler characters, `__` |
| TextExtractor.MarkerMatched | src/ast/visitors/text-extractor.js:18-30 | every placeholder is matched whole by the corrected pattern; the pattern as written matches it exactly when it is wider than 6 |
| TextExtractor.NextMatch | src/ast/visitors/text-extractor.js:113 | `exec` gives the leftmost match at or after `lastIndex`, and there is no match before it |
| TextExtractor.MatchesSuccessive | src/ast/visitors/text-extractor.js:112-150 | the global regex's successive matches are ordered and do not overlap |
| TextExtractor.ScanPiece | src/ast/visitors/text-extractor.js:118-149 | one loop turn stores the non-empty text before the next match (or the tail) and continues after the match |
| TextExtractor.ScanSkip | src/ast/visitors/text-extractor.js:125-132 | a match right at `lastIndex` is skipped without storing |
| TextExtractor.ScanShape | src/ast/visitors/text-extractor.js:112-150 | the stored pieces are in order, separated by matches, and contain no match |
| TextExtractor.ScanSpellsStrip | src/ast/visitors/text-extractor.js:108-150 | the stored pieces, concatenated, are the text with every match removed |
| TextExtractor.TextBlockPieces | src/ast/visitors/text-extractor.js:108-110 | for either pattern, the pieces are the text with every match removed, and a block whose text without the matches is blank records nothing |
| TextExtractor.NoMatchKeepsText | src/ast/visitors/text-extractor.js:134-137 | a text in which the pattern matches nowhere is stored whole |
| TextExtractor.WholeMatchLeavesNothing | src/ast/visitors/text-extractor.js:125-129 | a text that is one whole match stores nothing |
| TextExtractor.TextBlockShape | src/ast/visitors/text-extractor.js:104-185 | every text a block records is non-empty and trimmed, and the recorded locations run forward from the block's start |
| TextExtractor.TrimmedBounds | src/ast/visitors/text-extractor.js:162-172 | the start moves forward by the leading whitespace and the end back by the trailing whitespace, and the range has the length of the trimmed text |
| TextExtractor.LocateTrimmed | src/ast/visitors/text-extractor.js:161-177 | nothing blank is recorded, and no recorded text has whitespace at either end |
| TextExtractor.LocateOrdered | src/ast/visitors/text-extractor.js:179 | the locations of ordered pieces are chained forward |
| TextExtractor.StoreClean | src/ast/visitors/text-extractor.js:179 | a piece after the cursor's last newline resolves without error, to its fresh-resolver positions |
| TextExtractor.PieceBounds | src/ast/visitors/text-extractor.js:143 | a piece is as long as its span, and its trimmed text lies inside it |
| TextExtractor.StorePieceStep | src/ast/visitors/text-extractor.js:143-149 | one stored piece advances the recording and keeps the cursor before the rest of the block |
| TextExtractor.AsWrittenKeepsNarrowMarker | src/ast/visitors/text-extractor.js:18 | the pattern as written does not match `__TT__`; a text node holding only that placeholder records `__TT__` as text to translate |
| TextExtractor.NarrowMarkerUnmatched | src/ast/visitors/text-extractor.js:18 | no match of the pattern as written starts anywhere in `__TT__` |
| TextExtractor.CorrectedStripsEveryMarker | src/ast/visitors/text-extractor.js:18 | with `[.\n]*` every placeholder is one whole match, so a node that is only a placeholder records nothing |
| TextExtractor.RecordMeaning | src/ast/visitors/text-extractor.js:182-184 | appends the location to the list under the text, creating it when absent; every other entry is unchanged |
| TextExtractor.RecordAllGet | src/ast/visitors/text-extractor.js:182-184 | after any run, each text's list is its old list followed by its new locations in order |
| TextExtractor.RecordAllKeys | src/ast/visitors/text-extractor.js:182-184 | a text is a key exactly when it was one or some record has it |
| TextExtractor.RecordAllKeepsOrder | src/ast/visitors/text-extractor.js:183 | keys are only appended; the old key order is a prefix of the new |
| TextExtractor.RecordAllAppend | src/ast/visitors/text-extractor.js:182-184 | recording two runs in turn is recording their concatenation |
| TextExtractor.HandleFrame | src/ast/visitors/text-extractor.js:191-230 | a handler keeps the number of lines and changes no line outside its node's lines; partial blocks and decorators throw `Not implemented` and change nothing |
| TextExtractor.TrimPiece | src/ast/visitors/text-extractor.js:162-172 | the text becomes its `trim()`, and the offsets move to the bounds of the trimmed text |
| TextExtractor.AnalyzeAll | src/ast/visitors/text-extractor.js:84-96 | the map stays well formed |
| TextExtractor.TextExtractorVisitor.constructor | src/ast/visitors/text-extractor.js:61-66 | the lines are the source split on `'\n'`; the original lines are a copy |
| TextExtractor.TextExtractorVisitor.MarkSource | src/ast/visitors/text-extractor.js:238-285 | the visitor's lines become `MarkSpan` of the old lines |
| TextExtractor.TextExtractorVisitor.BlockStatement | src/ast/visitors/text-extractor.js:206-230 | marks the spans `BlockSpans` chooses, or throws `Unexpected state` with nothing changed |
| TextExtractor.TextExtractorVisitor.Visit | src/ast/visitors/text-extractor.js:191-201 | partial, mustache, comment and sub-expression mask their span; partial block and decorators throw `Not implemented` |
| TextExtractor.TextExtractorVisitor.StoreText | src/ast/visitors/text-extractor.js:161-185 | blank text changes nothing; otherwise the resolver's errors are passed on with the map unchanged, or the trimmed text gets one more location at the trimmed bounds |
| TextExtractor.TextExtractorVisitor.AnalyzeTextBlock | src/ast/visitors/text-extractor.js:104-151 | records exactly the pieces `TextBlockFound` gives, and never throws |
| TextExtractor.TextExtractorVisitor.StorePieces | src/ast/visitors/text-extractor.js:112-150 | the loop records every piece from `lastIndex = 0` |
| TextExtractor.TextExtractorVisitor.StoreNext | src/ast/visitors/text-extractor.js:112-150 | one turn consumes at least one character and keeps the recording on track |
| TextExtractor.TextExtractorVisitor.StorePiece | src/ast/visitors/text-extractor.js:143-149 | storing one piece keeps the recording on track |
| TextExtractor.TextExtractorVisitor.Analyze | src/ast/visitors/text-extractor.js:84-96 | each text node is analysed in order; a text node without a location throws `Unexpected state` |
| MarkUsedHelpers.Handle | src/ast/rules/mark-used-helpers.js:128-163 | partial, mustache and comment mask their span; sub-expressions, partial blocks and decorators throw `Not implemented` |
| MarkUsedHelpers.HandleFrame | src/ast/rules/mark-used-helpers.js:128-163 | a handler keeps the number of lines and changes no line outside its node's lines; the unsupported kinds change nothing |
| MarkUsedHelpers.NonBlank | src/ast/rules/mark-used-helpers.js:77-79 | keeps only values that are not blank after trimming |
| MarkUsedHelpers.ContentJoined | src/ast/rules/mark-used-helpers.js:114-126 | the gathered text is the non-blank values, untrimmed, joined by `__TT__`; it is empty exactly when every value is blank |
| MarkUsedHelpers.TokensMeaning | src/ast/rules/mark-used-helpers.js:76-79 | every token is non-blank and holds no `__TT__`, and the split pieces rejoin to the trimmed text |
| MarkUsedHelpers.SingleToken | src/ast/rules/mark-used-helpers.js:76-79 | a non-blank text without a separator gives one token, its trimmed text |
| MarkUsedHelpers.MarkUsedHelpersRule.constructor | src/ast/rules/mark-used-helpers.js:43-48 | the lines are the source split on `'\n'`, the original lines are a copy, and the gathered text is empty |
| MarkUsedHelpers.MarkUsedHelpersRule.MarkSource | src/ast/rules/mark-used-helpers.js:171-218 | the rule's lines become `MarkSpan` of the old lines; the gathered text is unchanged |
| MarkUsedHelpers.MarkUsedHelpersRule.BlockStatement | src/ast/rules/mark-used-helpers.js:139-163 | marks the chosen spans, or throws `Unexpected state` with nothing changed |
| MarkUsedHelpers.MarkUsedHelpersRule.ContentStatement | src/ast/rules/mark-used-helpers.js:114-126 | ignores blank content; otherwise appends the untrimmed value, after `__TT__` when the gathered text is not empty |
| MarkUsedHelpers.MarkUsedHelpersRule.Visit | src/ast/rules/mark-used-helpers.js:114-163 | the handler table: lines as `Handle` says, content gathered only for content statements |
| MarkUsedHelpers.MarkUsedHelpersRule.Analyze | src/ast/rules/mark-used-helpers.js:61-83 | nothing when no text was gathered; otherwise one line per token of each text node, in order |
| MarkUsedHelpers.MarkUsedHelpersRule.PrintTokens | src/ast/rules/mark-used-helpers.js:76-82 | one printed line per token, in order |
| TranslatedStrings.Add | src/ast/visitors/translated-strings.js:104 | `set.add`: the set is unchanged when it already holds the name, and gains it at the end otherwise |
| TranslatedStrings.AddAllMeaning | src/ast/visitors/translated-strings.js:101-106 | the set holds exactly the old names and the added ones, keeps the old ones in front, and never holds a name twice |
| TranslatedStrings.Keys | src/ast/visitors/translated-strings.js:102-103 | one key per hash pair, in order |
| TranslatedStrings.KeysAt | src/ast/visitors/translated-strings.js:102-103 | the `i`-th recorded name is the `i`-th pair's key |
| TranslatedStrings.ConsumeTMeaning | src/ast/visitors/translated-strings.js:70-107 | an already seen node, or a helper not named `t`, changes nothing; a callee that is not a path throws; a `t` call throws exactly when it does not have one string-literal parameter; an accepted call appends exactly one location record, with the hash keys in order, under its key, makes the parameter set the union of the old set and those keys, appends the key when new, and leaves every other key unchanged |
| TranslatedStrings.AcceptAllMeaning | src/ast/visitors/translated-strings.js:90-106 | after any run of calls, a key's locations are its call sites in order, and its parameter set is the union of their hash keys |
| TranslatedStrings.TranslatedStringsVisitor.constructor | src/ast/visitors/translated-strings.js:56-61 | shares the context, and no node has been seen yet |
| TranslatedStrings.TranslatedStringsVisitor.ConsumeTHelper | src/ast/visitors/translated-strings.js:70-107 | the node is marked seen whatever happens next; the map changes as `ConsumeT` says; `textToTranslate` is untouched |
| TranslatedStrings.TranslatedStringsVisitor.CollectNames | src/ast/visitors/translated-strings.js:101-106 | the location record's names are the hash keys in order, and the key's parameter set becomes the old set extended by those keys |
| TranslatedStrings.TranslatedStringsVisitor.Visit | src/ast/visitors/translated-strings.js:63-64 | mustaches and sub-expressions go to `consumeTHelper`; other nodes change nothing |
| Many.AssignValues | src/ast/visitors/many.js:13 | after `Object.assign` the target has its own properties and the source's, with the source's value where both have one |
| Many.MergedHas | src/ast/visitors/many.js:10-17 | the merged context has a property exactly when some visitor's context has it |
| Many.MergedLaterWins | src/ast/visitors/many.js:10-17 | on a collision the value of the last visitor whose context has the property wins |
| Many.CreateContext | src/ast/visitors/many.js:10-17 | the loop computes the merge of the contexts in order |
| Many.MultiVisitor.constructor | src/ast/visitors/many.js:19-28 | one instance per visitor class, in order, all sharing the same context |
| Many.MultiVisitor.Dispatch | src/ast/visitors/many.js:37-43 | the same call on each instance in registration order; a throw ends the loop |
| Many.MultiVisitor.AfterEnter | src/ast/visitors/many.js:30-34 | each instance's `afterEnter`, once, in registration order |
| Many.DispatchOrder | src/ast/visitors/many.js:30-43 | the handlers called are a prefix of the instances in order; all of them when none throws |
| Debug.SourceSingleLine | src/ast/debug.js:44-48 | a span on one line gives `line[start.column..end.column)`, both columns counted on the original line because the end is cut first |
| Debug.SegmentsAt | src/ast/debug.js:44-48 | the covered part of each line of a multi-line span |
| Debug.SourceMultiLine | src/ast/debug.js:44-48 | a multi-line span gives the first line from `start.column`, the inner lines whole and the last line up to `end.column`, joined with `'\n'` |
| Debug.SourceMissingLines | src/ast/debug.js:44-46 | a span whose lines are missing throws a `TypeError` |
| Debug.SourceShowsSingleMarker | src/ast/debug.js:44-48 | after masking a single-line span, the debug source of that span is the marker itself |
| Debug.SourceShowsMultiMarker | src/ast/debug.js:44-48 | after masking a multi-line span, the debug source of that span read without line breaks is the marker |
| Debug.DebugSettings.constructor | src/ast/debug.js:20 | the flag starts off |
| Debug.DebugSettings.SetDebugOriginalSource | src/ast/debug.js:51-53 | sets the flag to the value's truthiness |
| Debug.DebugSettings.DebugGetSource | src/ast/debug.js:30-49 | with `end` given, the second argument is the start position; otherwise the node's own location is read; the text is that of the span in the line store |
| Debug.DebugSettings.FlagSelectsStore | src/ast/debug.js:43 | for a rule, the flag picks the original lines; otherwise the masked lines are read |
| Find.SpecialCharactersMeaning | src/commands/find.js:17-24 | a text is special characters only exactly when none of its characters is a letter |
| Find.ItemsFor | src/commands/find.js:41-45 | one item per place a token was found, in order |
| Find.ItemsForCount | src/commands/find.js:41-45 | each place of the token gives exactly one item |
| Find.KeptItemsCount | src/commands/find.js:36-46 | every place of a kept token yields exactly one item, and nothing else yields one |
| Find.KeptCountUpTo | src/commands/find.js:36-46 | the same for the first `n` tokens |
| Find.KeptItemsStep | src/commands/find.js:37-45 | the `n`-th token adds the items of its places when it is kept, and none otherwise |
| Find.GroupMeaning | src/commands/find.js:43-44 | a file has a group exactly when some item was found in it, and the group is those items in order |
| Find.PreparedShape | src/commands/find.js:36-58 | the plan is well formed, has a group for exactly the files with items, and each group is that file's items sorted |
| Find.PreparedMeaning | src/commands/find.js:36-58 | each group is sorted by descending (line, column), is a permutation of the file's items, and keeps equal positions in the order found |
| Find.PrepareTranslationTextForUpdate | src/commands/find.js:30-61 | the two loops build exactly `Prepared` |
| Find.GroupAll | src/commands/find.js:36-46 | the first loop groups every place of every kept token by file |
| Find.GroupPlaces | src/commands/find.js:41-45 | the inner loop appends each place to its file's group |
| Find.GroupStep | src/commands/find.js:43-44 | one more place appends its item to its file's group, creating the group when absent |
| Find.SortEach | src/commands/find.js:48-58 | the second loop sorts every group and nothing else |
| Find.Wrap | src/commands/find.js:66-79 | quoted with `"` when the text has no `"`; with `'` when it has `"` and no `'`; with `"` and every `"` escaped when it has both |
| Find.UnescapeEscape | src/commands/find.js:72 | reading back the escaped text gives the text |
| Find.WrapUnwrap | src/commands/find.js:66-79 | the helper call written reads back as exactly the text it wraps |
| Find.SpliceMeaning | src/commands/find.js:107-118 | a single-line edit inside its line replaces `[start.column, end.column)` with the wrapped text, keeps both sides, and changes no other line |
| Find.RightToLeft | src/commands/find.js:48-58 | two edits on one line applied right one first: the left edit's columns still refer to the original line |
| Find.ApplyEdit | src/commands/find.js:102-119 | an edit that applies keeps the number of lines |
| Find.UpdateFile | src/commands/find.js:95-127 | split into lines, splice each edit in order, join again; a multi-line edit throws `Cannot update multiline strings` |
| Find.ThemeRunWrites | src/commands/find.js:88-130 | when nothing throws, exactly the files with planned edits are written, each with its edits applied, in the theme's file order |
| Find.Edited | src/commands/find.js:89-91 | the files written are those that have planned edits |
| Find.ApplyThemeChanges | src/commands/find.js:86-132 | the writes are those of the run, the locales are untouched, and the result is 0 or the first throw |
| Find.KeptTokens | src/commands/find.js:143-149 | a token is collected exactly when it is in the map and kept |
| Find.LocaleChanges | src/commands/find.js:152-157 | every locale, in order, with the kept tokens missing and nothing extra |
| Find.LocaleChangesNext | src/commands/find.js:154-155 | one more locale puts its change |
| Find.CollectKept | src/commands/find.js:143-149 | the first loop collects exactly the kept tokens |
| Find.ChangesFor | src/commands/find.js:154-157 | the second loop builds exactly the change list |
| Find.ApplyLocaleChanges | src/commands/find.js:139-161 | the locale files change as `applyChanges` does with that change list |
| Find.FindCommand | src/commands/find.js:167-222 | `--update` with `--fail` exits 1 with nothing done; `--update` rewrites the files and then the locales, reporting the first throw; otherwise nothing changes and the code is 1 exactly when `--fail` is set and any text was found |
| Status.MissingMeaning | src/commands/status.js:20-32 | a key is missing exactly when it is expected and the locale lacks it; no key is missing twice |
| Status.ExtraMeaning | src/commands/status.js:24-29 | a key is extra exactly when the locale has it and it is not expected; no key is extra twice |
| Status.MissingStep | src/commands/status.js:25 | deleting one more locale key from the copy of the expected set |
| Status.MissingNone | src/commands/status.js:20-32 | with no locale keys, everything expected is missing, in the expected order |
| Status.AnalyzeLocale | src/commands/status.js:20-35 | the loop computes exactly the missing keys, in expected order, and the extra keys, in locale order |
| Status.ReportsErrStays | src/commands/status.js:74-92 | a throw while reading a locale ends the command with that error |
| Status.ReportsSound | src/commands/status.js:74-92 | each result is for a distinct non-base locale, in locale order, with that locale's analysis and score = missing + extra; without `--all` the score is positive |
| Status.ReportsComplete | src/commands/status.js:74-92 | every non-base locale is reported unless its score is 0 and `--all` is not set |
| Status.ReportsNext | src/commands/status.js:74-92 | one more locale of the loop: skipped, reported, or a throw |
| Status.ChangesOf | src/commands/status.js:90 | `jsonResults` is a well-formed object |
| Status.ChangesMeaning | src/commands/status.js:90 | `jsonResults` lists the reported locales in order, each with its own missing and extra keys |
| Status.HasMeaning | src/commands/status.js:87-88 | the two flags say whether any reported locale has extra, or missing, keys |
| Status.UpdateDiscardsZero | src/commands/status.js:94-103 | once the flag checks pass, the code `--update` discards is always 0 |
| Status.Record | src/commands/status.js:87-91 | one recorded locale keeps the results, `jsonResults` and flags in agreement |
| Status.AnalyzeEntry | src/commands/status.js:75-85 | the body of the loop for one locale agrees with `Reports` |
| Status.CollectResults | src/commands/status.js:74-92 | the loop's results, `jsonResults` and flags are exactly those the specification functions give |
| Status.StatusCommand | src/commands/status.js:41-136 | 1 for `--strict` without `--fail`, `--update` with `--fail`, or a missing base locale; expected keys from the base locale or from `translatedStrings`; with `--update`, `applyChanges` with `jsonResults`; otherwise code 1 under `--strict` when any result has missing or extra keys, under `--fail` when any has missing keys, else 0; the text report is sorted by descending score |
| UpdateLocales.SetAllValues | src/commands/_internal/update-locales.js:28-29 | every missing key is set to `''`, whatever it held; other keys keep their values |
| UpdateLocales.DeleteAllValues | src/commands/_internal/update-locales.js:36-37 | every extra key is deleted; other keys keep their values |
| UpdateLocales.AppliedMeaning | src/commands/_internal/update-locales.js:28-38 | a key is present exactly when it was present or missing and is not extra (deletions run last), a missing key holds `''`, every other key keeps its value |
| UpdateLocales.UpdateStore | src/commands/_internal/update-locales.js:28-38 | an object gets the change with its style kept; a primitive is unaffected; a `null` store throws when there is anything to do |
| UpdateLocales.OnlyNamedLocales | src/commands/_internal/update-locales.js:20-44 | a locale not named in the changes keeps its file |
| UpdateLocales.StepWrites | src/commands/_internal/update-locales.js:44 | each locale that does not throw adds exactly one write, of its own file |
| UpdateLocales.WritesAppended | src/commands/_internal/update-locales.js:20-50 | when nothing throws, the earlier writes stay and one write is added per named locale |
| UpdateLocales.NamedLocaleUpdated | src/commands/_internal/update-locales.js:20-44 | a named annotated locale ends up holding exactly the changed object, and its write is that object serialised |
| UpdateLocales.UnknownLocaleThrows | src/commands/_internal/update-locales.js:22-29 | a locale the theme does not have throws a `TypeError` and changes nothing |
| UpdateLocales.Theme.constructor | src/commands/_internal/update-locales.js:16-22 | the theme's path and locales, with nothing written yet |
| UpdateLocales.Theme.ApplyChanges | src/commands/_internal/update-locales.js:16-52 | the locales and writes become those of the run; the result is 0 or the first throw |
| UpdateLocales.Theme.UpdateLocale | src/commands/_internal/update-locales.js:21-44 | the additions, deletions and write for one locale |
| UpdateLocales.AddMissing | src/commands/_internal/update-locales.js:28-29 | the loop sets every missing key |
| UpdateLocales.RemoveExtra | src/commands/_internal/update-locales.js:36-37 | the loop deletes every extra key |
| InlineJson.NewlineRunUnits | src/util/inline-json.js:3 | the first group is made of `\n` and `\r\n` units only |
| InlineJson.FormatShape | src/util/inline-json.js:21-27 | the recorded newline is a newline sequence and the indentation is whitespace; the defaults `'\n'` and `'\t'` when the pattern does not match |
| InlineJson.DetectLayout | src/util/inline-json.js:21-27 | a file of bracket, newline run, indentation, then content records exactly that newline run and indentation |
| InlineJson.ParseJson | src/util/inline-json.js:19-33 | an object gets the detected style; a primitive is unchanged; `null` throws a `TypeError`; a parse error is passed on |
| InlineJson.AssertHasAnnotations | src/util/inline-json.js:40-52 | passes exactly for an object with both annotations |
| InlineJson.StringifyErrors | src/util/inline-json.js:40-59 | not an object: `TypeError`; then `Missing newline annotation`; then `Missing indentation annotation`; succeeds exactly when the assertion passes |
| InlineJson.StringifyNewlines | src/util/inline-json.js:60-64 | with `'\n'`, the serialisation itself; with another newline, every `'\n'` replaced and one newline appended |
| InlineJson.ReplaceLayout | src/util/inline-json.js:64 | rewriting the breaks touches only the break after the bracket and those in the content |
| InlineJson.RewrittenShape | src/util/inline-json.js:64 | the rewritten serialisation with its closing newline is bracket, newline, indentation, rewritten content |
| InlineJson.DetectRewritten | src/util/inline-json.js:58-65 | the rewritten serialisation still shows its layout, now with the new newline |
| InlineJson.StringifyParseRoundTrip | src/util/inline-json.js:19-65 | for a non-empty object written with a non-empty indentation of at most 10 characters, reading back what `stringifyJson` wrote records the style it was written with |
| CheckFlags.Complaints | src/commands/_internal/check-flags.js:12-33 | the messages for the entries, in order |
| CheckFlags.ComplaintsAppend | src/commands/_internal/check-flags.js:12-33 | no early stop: the messages of two runs of entries are those of each in turn |
| CheckFlags.ComplaintsMeaning | src/commands/_internal/check-flags.js:12-33 | at most one message per entry, and none exactly when every entry is accepted |
| CheckFlags.DeclaredTwiceRejected | src/commands/_internal/check-flags.js:23-32 | a key declared both as a flag and as a parameter is always rejected |
| CheckFlags.CheckFlags | src/commands/_internal/check-flags.js:9-38 | `_` and `--` are accepted; an unknown key, a flag that is not a boolean and a parameter that is not a string are reported; the process exits with 1 exactly when some entry was rejected |
| ReadTheme.AfterLastLine | src/read-theme.js:188 | `(.*)` without the `s` flag captures only text after the last line terminator |
| ReadTheme.ExtractTemplatesAppend | src/read-theme.js:176-194 | the reduce works file by file |
| ReadTheme.TemplateOfMeaning | src/read-theme.js:179-192 | a single-line path adds its name without `.hbs` exactly when it ends in `.hbs` and is not under `partials` or `assets` (one or more `/` or `\`) |
| ReadTheme.ExtractTemplatesMeaning | src/read-theme.js:176-194 | a name is a template exactly when some file is that name plus `.hbs` and is neither a partial nor under `assets` |
| ReadTheme.ExtractCustomAppend | src/read-theme.js:159-168 | the filter works name by name, keeping order |
| ReadTheme.ExtractCustomMeaning | src/read-theme.js:159-168 | every entry describes an input name with a custom prefix and no `/`, and every such name has an entry |
| ReadTheme.PostTypesMeaning | src/read-theme.js:140-150 | `page-` is for pages, `post-` for posts, `custom-` for both |
| ReadTheme.SlugMeaning | src/read-theme.js:151-157 | no slug exactly for `custom-`; otherwise the name is its prefix followed by the slug |
| ReadTheme.CapitalizeWords | src/read-theme.js:134-136 | the replacement keeps the length |
| ReadTheme.CapitalizeKeepsWords | src/read-theme.js:134-136 | capitalising changes no character's word class |
| ReadTheme.WordStartsCapitalized | src/read-theme.js:134-136 | no word start is a lower-case letter afterwards |
| ReadTheme.TrimKeepsWordStarts | src/read-theme.js:138 | trimming keeps that true |
| ReadTheme.NameMeaning | src/read-theme.js:129-139 | the display name has no `-`, no whitespace at either end, and no word starting with a lower-case letter |
| Sorting.SortDescMeaning | src/commands/find.js:48-58 | the sort gives a descending permutation of its input that keeps equal ranks in input order |
| Sorting.Sort | src/commands/status.js:110 | the in-place sort of the results computes `SortDesc` |
| JsString.SliceFacts | src/ast/visitors/text-extractor.js:248-250 | `slice` inside the bounds is the plain subsequence, an empty range gives `""`, a negative index counts from the end |
| JsString.TrimEmptyIffBlank | src/ast/visitors/text-extractor.js:108 | `trim()` is empty exactly when the text is whitespace only |
| JsString.TrimEdges | src/ast/visitors/text-extractor.js:161-172 | a non-empty trimmed text has no whitespace at either end |
| JsString.SplitJoin | src/ast/visitors/text-extractor.js:63 | joining the pieces of a split with the separator gives back the text |
| JsString.SplitPiecesFree | src/ast/rules/mark-used-helpers.js:76 | no piece of a split contains the separator |

## Left out

- The HTML parse (cheerio) in `analyze` and `_analyze` is not modelled. Its output is an input: a list of text nodes with their text and start line and column, or other nodes.
- The Handlebars `Visitor`/`accept` traversal, `wrappedVisitor` and the linter driver are not part of this model. Handlers are called with the node directly.
- File-system and process I/O are left out: globbing, reading, `writeDebugFile` and `register`. File writes are modelled as a list of (path, contents) records.
- Console output and message formatting are left out, except the token lines `_analyze` prints, which are its only effect.
- `JSON.parse` and `JSON.stringify` are parameters: the parse result and a serialiser of an object with an indentation. The symbol-keyed annotations are two `Option` fields.
- The Unicode `\p{L}` class is a character predicate parameter.
- `Promise.all` in `applyThemeChanges`, `applyChanges` and `findCommand --update` is modelled as a sequential loop. It runs the theme files first and then the locale files, and the first throw decides the result. The writes issued before a throw are kept.
- `Object.keys` order puts integer-like keys first. Maps here keep pure insertion order.
- `Object.keys` of a string locale file lists its character indices. A primitive locale is modelled as having no keys.
- Find.ThemeRunWrites: states the count and contents of the writes. Their order follows from the theme's file order, and this is proved only index by index.
- The in-place `Array.prototype.sort` calls in find.js and status.js are modelled on sequences, as `SortDesc` / `Sorting.Sort`. Aliasing of the sorted arrays is not modelled.
- CheckFlags.CheckFlags: `process.exit(1)` is modelled as returning `Some(1)`, not as ending the process.
- Find.FindCommand: the non-update code counts every found text, including texts the listing skips for having no letter, as the code does.
- Offsets, lengths and columns count Unicode code points (Dafny `char`), while JavaScript strings count UTF-16 code units. A character outside the Basic Multilingual Plane earlier on a line therefore shifts every later column on that line by one per such character.
- InlineJson.StringifyParseRoundTrip: the style survives a round trip only for a non-empty object with a non-empty indentation of at most 10 characters. Four kinds of file come back in another style. A compact file such as `{"a":"b"}` does not match the layout pattern, so it is written back over several lines indented with a tab. A file indented with `""` is written back compact, because `JSON.stringify` with an empty gap adds no line breaks. A blank line after the opening bracket is recorded as part of the newline, so every line break is written doubled. An indentation longer than 10 characters is cut to 10 by `JSON.stringify`.
- Status: an absent `--base-lang` is modelled as `""`. Both are falsy, so the choice of expected keys is the same. The code compares each locale name with `undefined`, which never matches, while the model compares it with `""`, so a locale named `""` would be skipped. The locale loader is not part of this model, so whether such a name can occur is not known.
- `debugger` statements and `notImplemented`'s unused argument have no effect and are not modelled.
- A multi-line placeholder whose first segment is narrower than `__TT`, or whose `__` is split by a line break, is not matched by `MARKER_REGEX` after the lines are joined. The model computes what the code does in that case; no member states it separately.

## Findings

| source | as written | input that shows it | evidently intended | confidence | as-written member | corrected member |
|---|---|---|---|---|---|---|
| src/ast/visitors/text-extractor.js:18 | `MARKER_REGEX` is `__TT[.\n]+__` and needs at least one filler character, but `markerOfWidth(6)` is `__TT__` with none | a text node whose text is only `__TT__`, the mask of a six-column construct such as `{{ab}}`, records `__TT__` as text to translate | every placeholder `markerOfWidth` makes is removed (`__TT[.\n]*__`) | high, not executed | TextExtractor.AsWrittenKeepsNarrowMarker | TextExtractor.CorrectedStripsEveryMarker |

The extractor here runs `MARKER_REGEX` as written, as the code does. `MarkerFill`, the fewest filler characters the pattern accepts, is 1, and `AnalyzeAll` and the visitor's methods pass it to `TextBlockFound` and `Scan`. The pattern with `*` appears only in the two lemmas about the finding, `TextExtractor.MarkerMatched` and `TextExtractor.CorrectedStripsEveryMarker`; the second proves the intended behaviour.
