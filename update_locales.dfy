/** Writing locale changes back (src/commands/_internal/update-locales.js). For each
    locale named in the change list, in order: every missing key is set to `''` in the
    locale's parsed file, then every extra key is deleted, then the file is written back
    with `stringifyJson`. The locale files are parsed JSON objects; their entries are
    modelled as strings. The file system is the list of writes issued, and
    `JSON.stringify` is a parameter. */
module UpdateLocales {
  import opened Wrappers
  import opened OrderedMaps
  import opened InlineJson

  /** One locale's entry in the change list. */
  datatype Change = Change(missing: seq<string>, extra: seq<string>)

  /** A parsed locale file. */
  type Store = Json<OMap<string, string>>

  /** A `fs.writeFile(path, contents)` call. */
  datatype FileWrite = FileWrite(path: string, contents: string)

  /** The state a run leaves: the locale files, the writes issued, and whether it threw. */
  datatype Run = Run(locales: OMap<string, Store>, writes: seq<FileWrite>, outcome: Outcome)

  // ---------------------------------------------------------------------------
  // The change to one store
  // ---------------------------------------------------------------------------

  /** `store[string] = ''` for each missing key, in order. */
  function SetAll(m: OMap<string, string>, keys: seq<string>): (r: OMap<string, string>)
    ensures m.Valid() ==> r.Valid()
    decreases |keys|
  {
    if |keys| == 0 then m else SetAll(m, keys[..|keys| - 1]).Put(keys[|keys| - 1], "")
  }

  /** `delete store[string]` for each extra key, in order. */
  function DeleteAll(m: OMap<string, string>, keys: seq<string>): (r: OMap<string, string>)
    ensures m.Valid() ==> r.Valid()
    decreases |keys|
  {
    if |keys| == 0 then m else DeleteAll(m, keys[..|keys| - 1]).Delete(keys[|keys| - 1])
  }

  /** The object after the additions and then the deletions. */
  function Applied(m: OMap<string, string>, change: Change): OMap<string, string> {
    DeleteAll(SetAll(m, change.missing), change.extra)
  }

  lemma {:induction false} SetAllValues(m: OMap<string, string>, keys: seq<string>, k: string)
    ensures k in SetAll(m, keys).values <==> k in m.values || k in keys
    ensures k in keys ==> SetAll(m, keys).values[k] == ""
    ensures k !in keys && k in m.values ==> SetAll(m, keys).values[k] == m.values[k]
    decreases |keys|
  {
    if |keys| > 0 {
      SetAllValues(m, keys[..|keys| - 1], k);
      assert keys == keys[..|keys| - 1] + [keys[|keys| - 1]];
    }
  }

  lemma {:induction false} DeleteAllValues(m: OMap<string, string>, keys: seq<string>, k: string)
    ensures k in DeleteAll(m, keys).values <==> k in m.values && k !in keys
    ensures k in DeleteAll(m, keys).values ==> DeleteAll(m, keys).values[k] == m.values[k]
    decreases |keys|
  {
    if |keys| > 0 {
      DeleteAllValues(m, keys[..|keys| - 1], k);
      assert keys == keys[..|keys| - 1] + [keys[|keys| - 1]];
    }
  }

  /** After the change, a key is present exactly when it was present or missing, and is not
      extra: a key listed both as missing and as extra ends up absent, because the deletions
      run last. A missing key holds `''`, whatever it held before; every other key keeps its
      value. */
  lemma AppliedMeaning(m: OMap<string, string>, change: Change, k: string)
    ensures k in Applied(m, change).values <==> (k in m.values || k in change.missing) && k !in change.extra
    ensures k in Applied(m, change).values && k in change.missing ==> Applied(m, change).values[k] == ""
    ensures k in Applied(m, change).values && k !in change.missing ==> Applied(m, change).values[k] == m.values[k]
  {
    SetAllValues(m, change.missing, k);
    DeleteAllValues(SetAll(m, change.missing), change.extra, k);
  }

  /** The two loops on one store. Setting a property of `null` or deleting one throws
      before anything changes; on a primitive both have no effect. */
  function UpdateStore(store: Store, change: Change): (r: Result<Store>)
    ensures store.Object? ==> r == Ok(Object(Applied(store.value, change), store.newline, store.indentation))
    ensures store.Primitive? ==> r == Ok(store)
    ensures store.Null? ==> (r.Err? <==> |change.missing| > 0 || |change.extra| > 0)
  {
    match store
    case Object(m, newline, indentation) => Ok(Object(Applied(m, change), newline, indentation))
    case Primitive(_) => Ok(store)
    case Null =>
      if |change.missing| > 0 then Err(SetOnMissing("null", change.missing[0]))
      else if |change.extra| > 0 then Err(DeleteOnMissing)
      else Ok(store)
  }

  /** The `TypeError` from `x[key] = ''` when `x` is `undefined` or `null`. */
  function SetOnMissing(what: string, key: string): Error {
    TypeError("Cannot set properties of " + what + " (setting '" + key + "')")
  }

  /** The `TypeError` from `delete x[key]` when `x` is `undefined` or `null`. */
  const DeleteOnMissing: Error := TypeError("Cannot convert undefined or null to object")

  // ---------------------------------------------------------------------------
  // The run over the change list
  // ---------------------------------------------------------------------------

  function LocalePath(themePath: string, locale: string): string {
    themePath + "/locales/" + locale + ".json"
  }

  /** One entry of the change list, applied to the state `run` left. A locale the theme
      does not have reads as `undefined`: the first addition or deletion throws, and with
      neither, `stringifyJson(undefined)` does. */
  function Step(run: Run, themePath: string, locale: string, change: Change,
                serialize: (OMap<string, string>, string) -> string): Run
  {
    if locale !in run.locales.values then
      var e := if |change.missing| > 0 then SetOnMissing("undefined", change.missing[0])
               else if |change.extra| > 0 then DeleteOnMissing
               else TypeError("Expected object");
      Run(run.locales, run.writes, Fail(e))
    else
      match UpdateStore(run.locales.values[locale], change)
      case Err(e) => Run(run.locales, run.writes, Fail(e))
      case Ok(store) =>
        var locales := run.locales.Put(locale, store);
        match StringifyJson(store, serialize)
        case Err(e) => Run(locales, run.writes, Fail(e))
        case Ok(text) => Run(locales, run.writes + [FileWrite(LocalePath(themePath, locale), text)], Pass)
  }

  /** The entries of the change list from the `i`-th on, applied in order to the state
      `run`, stopping at the first entry that throws. */
  function ApplyFrom(run: Run, themePath: string, changes: OMap<string, Change>, i: nat,
                     serialize: (OMap<string, string>, string) -> string): Run
    requires changes.Valid() && i <= |changes.keys|
    decreases |changes.keys| - i
  {
    if i == |changes.keys| || run.outcome.Fail? then run
    else
      var locale := changes.keys[i];
      ApplyFrom(Step(run, themePath, locale, changes.values[locale], serialize), themePath, changes, i + 1, serialize)
  }

  /** A locale not named in the change list from the `i`-th entry on keeps its file. */
  lemma {:induction false} OnlyNamedLocales(run: Run, themePath: string, changes: OMap<string, Change>, i: nat,
                                            serialize: (OMap<string, string>, string) -> string, locale: string)
    requires changes.Valid() && i <= |changes.keys| && locale !in changes.keys[i..]
    ensures var after := ApplyFrom(run, themePath, changes, i, serialize).locales;
      && (locale in after.values <==> locale in run.locales.values)
      && (locale in after.values ==> after.values[locale] == run.locales.values[locale])
    decreases |changes.keys| - i
  {
    if i < |changes.keys| && run.outcome.Pass? {
      var next := Step(run, themePath, changes.keys[i], changes.values[changes.keys[i]], serialize);
      assert changes.keys[i + 1..] == changes.keys[i..][1..];
      OnlyNamedLocales(next, themePath, changes, i + 1, serialize, locale);
    }
  }

  /** An entry that does not throw adds exactly one write, of its locale's file; one that
      throws adds none. */
  lemma StepWrites(run: Run, themePath: string, locale: string, change: Change,
                   serialize: (OMap<string, string>, string) -> string)
    ensures var next := Step(run, themePath, locale, change, serialize);
      && (next.outcome.Pass? ==> |next.writes| == |run.writes| + 1 && next.writes[..|run.writes|] == run.writes
                                 && next.writes[|run.writes|].path == LocalePath(themePath, locale))
      && (next.outcome.Fail? ==> next.writes == run.writes)
  {
  }

  /** When no entry throws, the earlier writes are kept and one write is added per entry:
      every named locale's file is written. */
  lemma {:induction false} WritesAppended(run: Run, themePath: string, changes: OMap<string, Change>, i: nat,
                                          serialize: (OMap<string, string>, string) -> string)
    requires changes.Valid() && i <= |changes.keys|
    ensures var after := ApplyFrom(run, themePath, changes, i, serialize);
      after.outcome.Pass? ==>
        && |after.writes| == |run.writes| + |changes.keys| - i
        && after.writes[..|run.writes|] == run.writes
    decreases |changes.keys| - i
  {
    if i < |changes.keys| && run.outcome.Pass? {
      var next := Step(run, themePath, changes.keys[i], changes.values[changes.keys[i]], serialize);
      StepWrites(run, themePath, changes.keys[i], changes.values[changes.keys[i]], serialize);
      WritesAppended(next, themePath, changes, i + 1, serialize);
      var after := ApplyFrom(next, themePath, changes, i + 1, serialize);
      assert after == ApplyFrom(run, themePath, changes, i, serialize);
      if after.outcome.Pass? {
        assert after.writes[..|run.writes|] == after.writes[..|next.writes|][..|run.writes|];
      }
    }
  }

  /** A named locale whose file is an annotated object ends up holding exactly the changed
      object, with its style kept, and the write for it carries that object serialised. */
  lemma NamedLocaleUpdated(run: Run, themePath: string, locale: string, change: Change,
                           serialize: (OMap<string, string>, string) -> string)
    requires run.locales.Valid() && locale in run.locales.values
    requires var store := run.locales.values[locale];
      store.Object? && store.newline.Some? && store.indentation.Some?
    ensures var store := run.locales.values[locale];
      var next := Step(run, themePath, locale, change, serialize);
      var updated := Object(Applied(store.value, change), store.newline, store.indentation);
      && next.outcome.Pass?
      && next.locales.values == run.locales.values[locale := updated]
      && next.locales.keys == run.locales.keys
      && next.writes == run.writes + [FileWrite(LocalePath(themePath, locale), StringifyJson(updated, serialize).value)]
  {
  }

  /** A locale the theme does not have makes the run throw a `TypeError` and changes
      nothing. */
  lemma UnknownLocaleThrows(run: Run, themePath: string, locale: string, change: Change,
                            serialize: (OMap<string, string>, string) -> string)
    requires locale !in run.locales.values
    ensures var next := Step(run, themePath, locale, change, serialize);
      next.outcome.Fail? && next.outcome.error.TypeError? && next.locales == run.locales && next.writes == run.writes
  {
  }

  /** The theme's parsed locale files and the files written. */
  class Theme {
    const themePath: string
    var locales: OMap<string, Store>
    /** The `fs.writeFile` calls issued, in order. */
    var written: seq<FileWrite>

    constructor (themePath: string, locales: OMap<string, Store>)
      ensures this.themePath == themePath && this.locales == locales && written == []
    {
      this.themePath := themePath;
      this.locales := locales;
      written := [];
    }

    /** `applyChanges(changes, theme, print, verbose)`. The console output `print` and
        `verbose` control is not modelled. The run resolves to 0; a throw rejects it, and
        the writes issued before it stay issued. */
    method ApplyChanges(changes: OMap<string, Change>, serialize: (OMap<string, string>, string) -> string)
      returns (r: Result<int>)
      requires changes.Valid() && locales.Valid()
      modifies this
      ensures var run := ApplyFrom(Run(old(locales), old(written), Pass), themePath, changes, 0, serialize);
        && locales == run.locales
        && written == run.writes
        && (r.Ok? <==> run.outcome.Pass?)
        && (r.Ok? ==> r.value == 0)
        && (r.Err? ==> r.error == run.outcome.error)
      ensures locales.Valid()
    {
      ghost var run := ApplyFrom(Run(locales, written, Pass), themePath, changes, 0, serialize);
      var outcome := Pass;
      var i := 0;
      while i < |changes.keys| && outcome.Pass?
        invariant i <= |changes.keys| && locales.Valid()
        invariant ApplyFrom(Run(locales, written, outcome), themePath, changes, i, serialize) == run
      {
        var locale := changes.keys[i];
        outcome := UpdateLocale(locale, changes.values[locale], serialize);
        i := i + 1;
      }
      r := if outcome.Pass? then Ok(0) else Err(outcome.error);
    }

    /** The body of the loop for one locale: the additions, the deletions and the write. */
    method UpdateLocale(locale: string, change: Change, serialize: (OMap<string, string>, string) -> string)
      returns (outcome: Outcome)
      requires locales.Valid()
      modifies this
      ensures Run(locales, written, outcome) == Step(Run(old(locales), old(written), Pass), themePath, locale, change, serialize)
      ensures locales.Valid()
    {
      if locale !in locales.values {
        if |change.missing| > 0 {
          return Fail(SetOnMissing("undefined", change.missing[0]));
        } else if |change.extra| > 0 {
          return Fail(DeleteOnMissing);
        }
        return Fail(TypeError("Expected object"));
      }
      var store := locales.values[locale];
      var updated;
      if store.Null? {
        if |change.missing| > 0 {
          return Fail(SetOnMissing("null", change.missing[0]));
        } else if |change.extra| > 0 {
          return Fail(DeleteOnMissing);
        }
        updated := store;
      } else if store.Primitive? {
        updated := store;
      } else {
        var m := AddMissing(store.value, change.missing);
        m := RemoveExtra(m, change.extra);
        updated := Object(m, store.newline, store.indentation);
      }
      locales := locales.Put(locale, updated);
      var text := StringifyJson(updated, serialize);
      if text.Err? {
        return Fail(text.error);
      }
      written := written + [FileWrite(LocalePath(themePath, locale), text.value)];
      outcome := Pass;
    }
  }
  /** `for (const string of missing) store[string] = ''`. */
  method AddMissing(m: OMap<string, string>, missing: seq<string>) returns (r: OMap<string, string>)
    ensures r == SetAll(m, missing)
  {
    r := m;
    for j := 0 to |missing|
      invariant r == SetAll(m, missing[..j])
    {
      assert missing[..j + 1][..j] == missing[..j];
      r := r.Put(missing[j], "");
    }
    assert missing[..|missing|] == missing;
  }

  /** `for (const string of extra) delete store[string]`. */
  method RemoveExtra(m: OMap<string, string>, extra: seq<string>) returns (r: OMap<string, string>)
    ensures r == DeleteAll(m, extra)
  {
    r := m;
    for j := 0 to |extra|
      invariant r == DeleteAll(m, extra[..j])
    {
      assert extra[..j + 1][..j] == extra[..j];
      r := r.Delete(extra[j]);
    }
    assert extra[..|extra|] == extra;
  }
}
