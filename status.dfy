/** The `status` command (src/commands/status.js). It compares the keys of every locale
    file with the expected keys: those of a base locale when `--base-lang` names one,
    otherwise the translation keys the templates use. Each locale gets the keys it is
    missing and the keys it has in excess; the flags turn these into an exit code, and
    with `--update` they become the changes applied to the locale files. */
module Status {
  import opened Wrappers
  import opened OrderedMaps
  import opened InlineJson
  import opened Sorting
  import opened UpdateLocales

  /** The parsed options. `baseLang` is `""` when the parameter is absent: both are falsy,
      so both select the keys of `translatedStrings`. */
  datatype StatusOptions = StatusOptions(
    baseLang: string, all: bool, verbose: bool, json: bool, fail: bool, strict: bool, update: bool)

  /** One entry of `results`. */
  datatype LocaleResult = LocaleResult(locale: string, score: nat, missing: seq<string>, extra: seq<string>)

  /** The expected keys the locale lacks, in the expected order. */
  function MissingOf(expected: seq<string>, strings: seq<string>): seq<string> {
    if |expected| == 0 then []
    else (if expected[0] in strings then [] else [expected[0]]) + MissingOf(expected[1..], strings)
  }

  /** The locale keys that found nothing left to delete in the copy of the expected set, in
      locale order: a key that is not expected, or one seen before. */
  function ExtraOf(expected: seq<string>, strings: seq<string>): seq<string>
    decreases |strings|
  {
    if |strings| == 0 then []
    else
      var last := strings[|strings| - 1];
      ExtraOf(expected, strings[..|strings| - 1])
      + if last in expected && last !in strings[..|strings| - 1] then [] else [last]
  }

  /** A key is missing exactly when it is expected and the locale lacks it; a set of
      expected keys gives a set of missing keys. */
  lemma {:induction false} MissingMeaning(expected: seq<string>, strings: seq<string>, x: string)
    ensures x in MissingOf(expected, strings) <==> x in expected && x !in strings
    ensures Distinct(expected) ==> Distinct(MissingOf(expected, strings))
    decreases |expected|
  {
    if |expected| > 0 {
      var rest := expected[1..];
      MissingMeaning(rest, strings, x);
      MissingMeaning(rest, strings, expected[0]);
      assert expected == [expected[0]] + rest;
      if Distinct(expected) {
        assert Distinct(rest);
        var m := MissingOf(expected, strings);
        var r := MissingOf(rest, strings);
        forall i, j | 0 <= i < j < |m| ensures m[i] != m[j] {
          if expected[0] !in strings && i == 0 {
            assert m[j] == r[j - 1] && r[j - 1] in r;
          }
        }
      }
    }
  }

  /** For the distinct keys of an object, a key is extra exactly when it is not expected,
      and the extra keys are distinct. */
  lemma {:induction false} ExtraMeaning(expected: seq<string>, strings: seq<string>, x: string)
    requires Distinct(strings)
    ensures x in ExtraOf(expected, strings) <==> x in strings && x !in expected
    ensures Distinct(ExtraOf(expected, strings))
    decreases |strings|
  {
    if |strings| > 0 {
      var n := |strings| - 1;
      var init := strings[..n];
      var last := strings[n];
      assert Distinct(init);
      DistinctPrefix(strings, n);
      ExtraMeaning(expected, init, x);
      ExtraMeaning(expected, init, last);
      assert strings == init + [last];
      var e := ExtraOf(expected, strings);
      var p := ExtraOf(expected, init);
      if last !in expected {
        assert e == p + [last];
        forall i, j | 0 <= i < j < |e| ensures e[i] != e[j] {
          if j == |p| {
            assert e[i] == p[i] && p[i] in p;
          }
        }
      }
    }
  }

  /** Deleting one more locale key from the copy of the expected set. */
  lemma {:induction false} MissingStep(expected: seq<string>, strings: seq<string>, x: string)
    ensures Without(MissingOf(expected, strings), x) == MissingOf(expected, strings + [x])
    decreases |expected|
  {
    if |expected| > 0 {
      var rest := expected[1..];
      MissingStep(rest, strings, x);
      var m := MissingOf(rest, strings);
      assert expected[0] in strings + [x] <==> expected[0] in strings || expected[0] == x;
      if expected[0] !in strings {
        assert ([expected[0]] + m)[0] == expected[0] && ([expected[0]] + m)[1..] == m;
      } else {
        assert MissingOf(expected, strings) == m;
      }
    }
  }

  /** `analyzeLocale(expectedStrings, localeStrings)`: every locale key is deleted from a
      copy of the expected set; a key with nothing to delete is extra, and what is left of
      the copy is missing. */
  method AnalyzeLocale(expected: seq<string>, strings: seq<string>) returns (missing: seq<string>, extra: seq<string>)
    ensures missing == MissingOf(expected, strings)
    ensures extra == ExtraOf(expected, strings)
  {
    var missingStrings := expected;
    extra := [];
    assert MissingOf(expected, []) == expected by {
      MissingNone(expected);
    }
    for i := 0 to |strings|
      invariant missingStrings == MissingOf(expected, strings[..i])
      invariant extra == ExtraOf(expected, strings[..i])
    {
      var s := strings[i];
      assert strings[..i + 1] == strings[..i] + [s];
      MissingMeaning(expected, strings[..i], s);
      var deleted := s in missingStrings;
      MissingStep(expected, strings[..i], s);
      missingStrings := Without(missingStrings, s);
      if !deleted {
        extra := extra + [s];
      }
    }
    assert strings[..|strings|] == strings;
    missing := missingStrings;
  }

  lemma {:induction false} MissingNone(expected: seq<string>)
    ensures MissingOf(expected, []) == expected
    decreases |expected|
  {
    if |expected| > 0 {
      MissingNone(expected[1..]);
      assert expected == [expected[0]] + expected[1..];
    }
  }

  /** `Object.keys` of a parsed locale file; `null` throws. A number or boolean has no own
      keys. */
  function LocaleKeys(store: Store): Result<seq<string>> {
    match store
    case Object(m, _, _) => Ok(m.keys)
    case Null => Err(DeleteOnMissing)
    case Primitive(_) => Ok([])
  }

  /** The result for one locale. */
  function Analyzed(locale: string, expected: seq<string>, strings: seq<string>): LocaleResult {
    var missing := MissingOf(expected, strings);
    var extra := ExtraOf(expected, strings);
    LocaleResult(locale, |missing| + |extra|, missing, extra)
  }

  /** The results of the first `n` locales: the base locale is skipped, and a locale with
      nothing missing or extra is left out unless `all` is set. */
  function Reports(locales: OMap<string, Store>, baseLang: string, expected: seq<string>, all: bool, n: nat)
    : Result<seq<LocaleResult>>
    requires locales.Valid() && n <= |locales.keys|
  {
    if n == 0 then Ok([])
    else
      var prev := Reports(locales, baseLang, expected, all, n - 1);
      var locale := locales.keys[n - 1];
      if prev.Err? || locale == baseLang then prev
      else
        var strings := LocaleKeys(locales.values[locale]);
        if strings.Err? then Err(strings.error)
        else
          var r := Analyzed(locale, expected, strings.value);
          if !all && r.score == 0 then prev else Ok(prev.value + [r])
  }

  /** A throw while analysing a locale ends the command with that error. */
  lemma {:induction false} ReportsErrStays(locales: OMap<string, Store>, baseLang: string, expected: seq<string>,
                                          all: bool, n: nat, m: nat)
    requires locales.Valid() && n <= m <= |locales.keys|
    requires Reports(locales, baseLang, expected, all, n).Err?
    ensures Reports(locales, baseLang, expected, all, m) == Reports(locales, baseLang, expected, all, n)
    decreases m - n
  {
    if n < m {
      ReportsErrStays(locales, baseLang, expected, all, n, m - 1);
    }
  }

  /** Every result is for a locale of the theme other than the base locale, in locale
      order with no locale twice, and carries that locale's analysis, its score being the
      number of missing and extra keys; without `all` the score is positive. */
  lemma {:induction false} ReportsSound(locales: OMap<string, Store>, baseLang: string, expected: seq<string>,
                                       all: bool, n: nat)
    requires locales.Valid() && n <= |locales.keys|
    requires Reports(locales, baseLang, expected, all, n).Ok?
    ensures var rs := Reports(locales, baseLang, expected, all, n).value;
      && (forall j :: 0 <= j < |rs| ==>
            && rs[j].locale in locales.keys[..n] && rs[j].locale != baseLang
            && LocaleKeys(locales.values[rs[j].locale]).Ok?
            && rs[j] == Analyzed(rs[j].locale, expected, LocaleKeys(locales.values[rs[j].locale]).value)
            && rs[j].score == |rs[j].missing| + |rs[j].extra|
            && (!all ==> rs[j].score > 0))
      && (forall i, j :: 0 <= i < j < |rs| ==> rs[i].locale != rs[j].locale)
    decreases n
  {
    if n > 0 {
      ReportsSound(locales, baseLang, expected, all, n - 1);
      var locale := locales.keys[n - 1];
      DistinctPrefix(locales.keys, n - 1);
      forall x ensures x in locales.keys[..n] <==> x in locales.keys[..n - 1] || x == locale {
        InPrefix(locales.keys, n, x);
      }
    }
  }

  /** Every locale of the theme other than the base locale gets a result, unless it has
      nothing missing or extra and `all` is not set. */
  lemma {:induction false} ReportsComplete(locales: OMap<string, Store>, baseLang: string, expected: seq<string>,
                                          all: bool, n: nat, locale: string)
    requires locales.Valid() && n <= |locales.keys|
    requires Reports(locales, baseLang, expected, all, n).Ok?
    requires locale in locales.keys[..n] && locale != baseLang
    ensures LocaleKeys(locales.values[locale]).Ok?
    ensures var r := Analyzed(locale, expected, LocaleKeys(locales.values[locale]).value);
      (all || r.score > 0) <==> r in Reports(locales, baseLang, expected, all, n).value
    decreases n
  {
    ReportsSound(locales, baseLang, expected, all, n);
    InPrefix(locales.keys, n, locale);
    if locale != locales.keys[n - 1] {
      ReportsComplete(locales, baseLang, expected, all, n - 1, locale);
    }
  }

  /** `jsonResults`: each reported locale to its missing and extra keys. */
  function ChangesOf(results: seq<LocaleResult>): (r: OMap<string, Change>)
    ensures r.Valid()
  {
    if |results| == 0 then Empty()
    else
      var last := results[|results| - 1];
      ChangesOf(results[..|results| - 1]).Put(last.locale, Change(last.missing, last.extra))
  }

  /** With each locale reported once, the changes list the reported locales in order, each
      with its own missing and extra keys. */
  lemma {:induction false} ChangesMeaning(results: seq<LocaleResult>)
    requires forall i, j :: 0 <= i < j < |results| ==> results[i].locale != results[j].locale
    ensures |ChangesOf(results).keys| == |results|
    ensures forall j :: 0 <= j < |results| ==>
              && ChangesOf(results).keys[j] == results[j].locale
              && ChangesOf(results).values[results[j].locale] == Change(results[j].missing, results[j].extra)
    decreases |results|
  {
    if |results| > 0 {
      var init := results[..|results| - 1];
      var last := results[|results| - 1];
      var c := ChangesOf(init);
      ChangesMeaning(init);
      assert last.locale !in c.values by {
        forall j | 0 <= j < |init| ensures c.keys[j] != last.locale {
          assert init[j] == results[j];
        }
      }
      var d := c.Put(last.locale, Change(last.missing, last.extra));
      assert ChangesOf(results) == d;
      assert d.keys == c.keys + [last.locale];
      forall j | 0 <= j < |results|
        ensures d.keys[j] == results[j].locale
        ensures d.values[results[j].locale] == Change(results[j].missing, results[j].extra)
      {
        if j < |init| {
          assert init[j] == results[j];
        }
      }
    }
  }

  /** Some reported locale has extra keys. */
  predicate HasExtra(results: seq<LocaleResult>) {
    |results| > 0 && (HasExtra(results[..|results| - 1]) || |results[|results| - 1].extra| > 0)
  }

  /** Some reported locale has missing keys. */
  predicate HasMissing(results: seq<LocaleResult>) {
    |results| > 0 && (HasMissing(results[..|results| - 1]) || |results[|results| - 1].missing| > 0)
  }

  /** The flags the loop accumulates say whether any result has extra, or missing, keys. */
  lemma {:induction false} HasMeaning(results: seq<LocaleResult>)
    ensures HasExtra(results) <==> exists j :: 0 <= j < |results| && |results[j].extra| > 0
    ensures HasMissing(results) <==> exists j :: 0 <= j < |results| && |results[j].missing| > 0
    decreases |results|
  {
    if |results| > 0 {
      var init := results[..|results| - 1];
      HasMeaning(init);
      forall j | 0 <= j < |init| ensures init[j] == results[j] {
      }
    }
  }

  /** `Number(strict ? strictFail || failed : fail ? failed : 0)`. */
  function ExitCode(results: seq<LocaleResult>, strict: bool, fail: bool): int {
    if strict then (if HasExtra(results) || HasMissing(results) then 1 else 0)
    else if fail then (if HasMissing(results) then 1 else 0)
    else 0
  }

  /** Neither `--strict` without `--fail` nor `--update` with `--fail`. */
  predicate FlagsAccepted(options: StatusOptions) {
    !(options.strict && !options.fail) && !(options.update && options.fail)
  }

  /** Once the flag checks pass, `--update` implies neither `--fail` nor `--strict`, so the
      code the update discards is always 0. */
  lemma UpdateDiscardsZero(options: StatusOptions, results: seq<LocaleResult>)
    requires FlagsAccepted(options) && options.update
    ensures ExitCode(results, options.strict, options.fail) == 0
  {
  }

  /** One more locale of the loop. */
  lemma ReportsNext(locales: OMap<string, Store>, baseLang: string, expected: seq<string>, all: bool, i: nat)
    requires locales.Valid() && i < |locales.keys|
    requires Reports(locales, baseLang, expected, all, i).Ok?
    ensures var prev := Reports(locales, baseLang, expected, all, i);
      var locale := locales.keys[i];
      var strings := LocaleKeys(locales.values[locale]);
      Reports(locales, baseLang, expected, all, i + 1)
      == if locale == baseLang then prev
         else if strings.Err? then Err(strings.error)
         else if !all && Analyzed(locale, expected, strings.value).score == 0 then prev
         else Ok(prev.value + [Analyzed(locale, expected, strings.value)])
  {
  }

  /** `jsonResults` and the two flags agree with the results collected so far. */
  predicate Tracks(results: seq<LocaleResult>, jsonResults: OMap<string, Change>, strictFail: bool, failed: bool) {
    jsonResults == ChangesOf(results) && strictFail == HasExtra(results) && failed == HasMissing(results)
  }

  /** Recording one analysed locale: `strictFail ||= ...`, `failed ||= ...`,
      `jsonResults[locale] = ...` and `results.push(...)`. */
  method Record(results: seq<LocaleResult>, jsonResults: OMap<string, Change>, strictFail: bool, failed: bool,
                result: LocaleResult)
    returns (results': seq<LocaleResult>, jsonResults': OMap<string, Change>, strictFail': bool, failed': bool)
    requires Tracks(results, jsonResults, strictFail, failed)
    ensures results' == results + [result]
    ensures Tracks(results', jsonResults', strictFail', failed')
  {
    strictFail' := strictFail || |result.extra| > 0;
    failed' := failed || |result.missing| > 0;
    jsonResults' := jsonResults.Put(result.locale, Change(result.missing, result.extra));
    results' := results + [result];
    assert results'[..|results|] == results;
  }

  /** The body of the loop for the `i`-th locale: skipped (`None`), analysed, or a throw. */
  method AnalyzeEntry(locales: OMap<string, Store>, baseLang: string, expected: seq<string>, all: bool, i: nat)
    returns (entry: Result<Option<LocaleResult>>)
    requires locales.Valid() && i < |locales.keys|
    requires Reports(locales, baseLang, expected, all, i).Ok?
    ensures var prev := Reports(locales, baseLang, expected, all, i);
      Reports(locales, baseLang, expected, all, i + 1)
      == match entry
         case Err(e) => Err(e)
         case Ok(None) => prev
         case Ok(Some(r)) => Ok(prev.value + [r])
  {
    var locale := locales.keys[i];
    ReportsNext(locales, baseLang, expected, all, i);
    if locale == baseLang {
      return Ok(None);
    }
    var strings := LocaleKeys(locales.values[locale]);
    if strings.Err? {
      return Err(strings.error);
    }
    var missing, extra := AnalyzeLocale(expected, strings.value);
    var score := |missing| + |extra|;
    if !all && score == 0 {
      return Ok(None);
    }
    return Ok(Some(LocaleResult(locale, score, missing, extra)));
  }

  /** The loop over `Object.entries(theme.locales)`: the results, `jsonResults`, and the
      `strictFail` and `failed` flags. A throw while reading a locale's keys ends it. */
  method CollectResults(locales: OMap<string, Store>, baseLang: string, expected: seq<string>, all: bool)
    returns (r: Result<seq<LocaleResult>>, jsonResults: OMap<string, Change>, strictFail: bool, failed: bool)
    requires locales.Valid()
    ensures r == Reports(locales, baseLang, expected, all, |locales.keys|)
    ensures r.Ok? ==> jsonResults == ChangesOf(r.value)
    ensures r.Ok? ==> strictFail == HasExtra(r.value) && failed == HasMissing(r.value)
  {
    var results := [];
    jsonResults := Empty();
    strictFail, failed := false, false;
    for i := 0 to |locales.keys|
      invariant Reports(locales, baseLang, expected, all, i) == Ok(results)
      invariant Tracks(results, jsonResults, strictFail, failed)
    {
      var entry := AnalyzeEntry(locales, baseLang, expected, all, i);
      if entry.Err? {
        ReportsErrStays(locales, baseLang, expected, all, i + 1, |locales.keys|);
        return Err(entry.error), jsonResults, strictFail, failed;
      }
      if entry.value.None? {
        continue;
      }
      results, jsonResults, strictFail, failed := Record(results, jsonResults, strictFail, failed, entry.value.value);
    }
    r := Ok(results);
  }

  /** The keys expected of every locale: the base locale's keys when one is named and
      present, otherwise the translation keys the templates use. */
  function ExpectedKeys(locales: OMap<string, Store>, baseLang: string, translatedKeys: seq<string>): Result<seq<string>>
    requires baseLang == "" || baseLang in locales.values
  {
    if baseLang != "" then LocaleKeys(locales.values[baseLang]) else Ok(translatedKeys)
  }

  /** The rank results are sorted by: the score, highest first. */
  function ByScore(r: LocaleResult): Rank {
    (r.score, 0)
  }

  /** `statusCommand(options, theme)`. `translatedKeys` are the keys of the shared
      `translatedStrings` map. `reported` are the results in the order they are shown: the
      text report sorts them by descending score; `--json` and `--update` keep locale
      order. Console output itself is not modelled. */
  method StatusCommand(options: StatusOptions, theme: Theme, translatedKeys: seq<string>,
                       serialize: (OMap<string, string>, string) -> string)
    returns (code: Result<int>, reported: seq<LocaleResult>)
    requires theme.locales.Valid()
    modifies theme
    ensures !FlagsAccepted(options) || (options.baseLang != "" && options.baseLang !in old(theme.locales).values) ==>
        code == Ok(1) && reported == [] && theme.locales == old(theme.locales) && theme.written == old(theme.written)
    ensures FlagsAccepted(options) && (options.baseLang == "" || options.baseLang in old(theme.locales).values) ==>
      var expected := ExpectedKeys(old(theme.locales), options.baseLang, translatedKeys);
      var results := if expected.Err? then Err(expected.error)
                     else Reports(old(theme.locales), options.baseLang, expected.value, options.all, |old(theme.locales).keys|);
      if results.Err? then
        && code == Err(results.error) && reported == []
        && theme.locales == old(theme.locales) && theme.written == old(theme.written)
      else if options.update then
        var run := ApplyFrom(Run(old(theme.locales), old(theme.written), Pass), theme.themePath,
                             ChangesOf(results.value), 0, serialize);
        && theme.locales == run.locales && theme.written == run.writes
        && code == (if run.outcome.Pass? then Ok(0) else Err(run.outcome.error))
        && reported == results.value
      else
        && theme.locales == old(theme.locales) && theme.written == old(theme.written)
        && code == Ok(ExitCode(results.value, options.strict, options.fail))
        && reported == if options.json then results.value else SortDesc(results.value, ByScore)
  {
    if options.strict && !options.fail {
      return Ok(1), [];
    }
    if options.update && options.fail {
      return Ok(1), [];
    }
    var expected;
    if options.baseLang != "" {
      if options.baseLang !in theme.locales.values {
        return Ok(1), [];
      }
      var keys := LocaleKeys(theme.locales.values[options.baseLang]);
      if keys.Err? {
        return Err(keys.error), [];
      }
      expected := keys.value;
    } else {
      expected := translatedKeys;
    }
    var results, jsonResults, strictFail, failed := CollectResults(theme.locales, options.baseLang, expected, options.all);
    if results.Err? {
      return Err(results.error), [];
    }
    var exit := if options.strict then (if strictFail || failed then 1 else 0)
                else if options.fail then (if failed then 1 else 0) else 0;
    if options.update {
      code := theme.ApplyChanges(jsonResults, serialize);
      return code, results.value;
    }
    if options.json {
      return Ok(exit), results.value;
    }
    reported := Sort(results.value, ByScore);
    code := Ok(exit);
  }
}
