/** The translation-key collector (src/ast/visitors/translated-strings.js): every
    `{{t "key" name=value ...}}` call site of a template is recorded under its key with
    its location and the names of its hash parameters; the key's parameter set is the
    union of those names over all of its call sites. */
module TranslatedStrings {
  import opened Wrappers
  import opened Ast
  import opened OrderedMaps
  import opened Contexts

  // ---------------------------------------------------------------------------
  // Insertion-ordered sets of parameter names
  // ---------------------------------------------------------------------------

  /** `set.add(x)` on an insertion-ordered set. */
  function Add(ps: seq<string>, x: string): (r: seq<string>)
    ensures x in ps ==> r == ps
    ensures x !in ps ==> r == ps + [x]
  {
    if x in ps then ps else ps + [x]
  }

  /** `set.add(k)` for every `k` of `ks`, in order. */
  function AddAll(ps: seq<string>, ks: seq<string>): seq<string>
    decreases |ks|
  {
    if |ks| == 0 then ps else Add(AddAll(ps, ks[..|ks| - 1]), ks[|ks| - 1])
  }

  /** The set holds exactly the old members and the added ones, keeps the old members in
      front, and never holds a name twice. */
  lemma {:induction false} AddAllMeaning(ps: seq<string>, ks: seq<string>)
    ensures forall x :: x in AddAll(ps, ks) <==> x in ps || x in ks
    ensures |ps| <= |AddAll(ps, ks)| && AddAll(ps, ks)[..|ps|] == ps
    ensures Distinct(ps) ==> Distinct(AddAll(ps, ks))
    decreases |ks|
  {
    if |ks| > 0 {
      var init := ks[..|ks| - 1];
      AddAllMeaning(ps, init);
      assert forall x :: x in ks <==> x in init || x == ks[|ks| - 1] by {
        assert ks == init + [ks[|ks| - 1]];
      }
      var before := AddAll(ps, init);
      if ks[|ks| - 1] !in before {
        assert (before + [ks[|ks| - 1]])[..|ps|] == before[..|ps|];
      }
    }
  }

  /** The keys of hash pairs, in order. */
  function Keys(pairs: seq<HashPair>): (r: seq<string>)
    ensures |r| == |pairs|
    decreases |pairs|
  {
    if |pairs| == 0 then [] else Keys(pairs[..|pairs| - 1]) + [pairs[|pairs| - 1].key]
  }

  lemma KeysAt(pairs: seq<HashPair>, i: int)
    requires 0 <= i < |pairs|
    ensures Keys(pairs)[i] == pairs[i].key
    decreases |pairs|
  {
    if i < |pairs| - 1 {
      KeysAt(pairs[..|pairs| - 1], i);
    }
  }

  /** The names of a call's hash parameters (none when it has no hash). */
  function HashKeys(hash: Option<seq<HashPair>>): seq<string> {
    if hash.None? then [] else Keys(hash.value)
  }

  // ---------------------------------------------------------------------------
  // What one call does to the map
  // ---------------------------------------------------------------------------

  /** A store that is not there yet: `{parameters: new Set(), locations: []}`. */
  const NewStore: TranslatedString := TranslatedString([], [])

  /** Records one accepted `{{t key ...}}` call site with hash names `names` at `loc`. */
  function Accept(ts: OMap<string, TranslatedString>, key: string, names: seq<string>, loc: SourceLocation)
    : (r: OMap<string, TranslatedString>)
    ensures ts.Valid() ==> r.Valid()
  {
    var store := ts.GetOr(key, NewStore);
    ts.Put(key, TranslatedString(AddAll(store.parameters, names), store.locations + [LocationRecord(names, loc)]))
  }

  /** The key of a `{{t}}` call, or why the call is refused. Only called for helpers named `t`. */
  function TKey(params: seq<Expr>): Result<string> {
    if |params| != 1 then Err(NotImplemented)
    else if !params[0].StringLiteral? then Err(NotImplemented)
    else Ok(params[0].original)
  }

  /** `consumeTHelper(node)` on the map `ts` with the node identities `seen` already
      visited: the new map and whether the call threw. */
  function ConsumeT(ts: OMap<string, TranslatedString>, seen: set<nat>, node: Node)
    : (r: (OMap<string, TranslatedString>, Outcome))
    requires node.MustacheStatement? || node.SubExpression?
    ensures r.1.Fail? ==> r.0 == ts && r.1.error == NotImplemented
  {
    if node.id in seen then (ts, Pass)
    else if !node.path.PathExpression? then (ts, Fail(NotImplemented))
    else if node.path.original != "t" then (ts, Pass)
    else match TKey(node.params)
      case Err(e) => (ts, Fail(e))
      case Ok(key) => (Accept(ts, key, HashKeys(node.hash), node.loc), Pass)
  }

  /** A call site whose node was already visited, a helper not named `t`, and a call that
      throws leave the map as it was. Otherwise the key's store gains exactly one location
      record, after the old ones, whose names are the hash keys in order; its parameter
      set becomes the union of the old one and those names; the key is appended to the
      map when new; and every other key keeps its store. */
  lemma ConsumeTMeaning(ts: OMap<string, TranslatedString>, seen: set<nat>, node: Node, k: string)
    requires node.MustacheStatement? || node.SubExpression?
    ensures var (r, outcome) := ConsumeT(ts, seen, node);
      && (node.id in seen ==> r == ts && outcome == Pass)
      && (node.id !in seen && !node.path.PathExpression? ==> outcome == Fail(NotImplemented))
      && (node.path.PathExpression? && node.path.original != "t" ==> r == ts && outcome == Pass)
      && (node.id !in seen && node.path.PathExpression? && node.path.original == "t" ==>
            (outcome.Fail? <==> |node.params| != 1 || !node.params[0].StringLiteral?))
      && (r != ts ==>
            node.id !in seen && node.path == PathExpression("t") && |node.params| == 1 && node.params[0].StringLiteral?)
      && (node.id !in seen && node.path == PathExpression("t") && |node.params| == 1 && node.params[0].StringLiteral? ==>
            var key := node.params[0].original;
            var names := HashKeys(node.hash);
            && outcome == Pass && r == Accept(ts, key, names, node.loc)
            && r.GetOr(key, NewStore).locations == ts.GetOr(key, NewStore).locations + [LocationRecord(names, node.loc)]
            && (forall x :: x in r.GetOr(key, NewStore).parameters <==> x in ts.GetOr(key, NewStore).parameters || x in names)
            && (k != key ==> r.GetOr(k, NewStore) == ts.GetOr(k, NewStore) && (k in r.values <==> k in ts.values))
            && r.keys == (if key in ts.values then ts.keys else ts.keys + [key]))
  {
    if node.id !in seen && node.path == PathExpression("t") && |node.params| == 1 && node.params[0].StringLiteral? {
      var key := node.params[0].original;
      AddAllMeaning(ts.GetOr(key, NewStore).parameters, HashKeys(node.hash));
    }
  }

  // ---------------------------------------------------------------------------
  // Many call sites
  // ---------------------------------------------------------------------------

  /** An accepted call site: its key, its hash names and its location. */
  datatype Call = Call(key: string, names: seq<string>, loc: SourceLocation)

  /** Recording accepted call sites one after the other. */
  function AcceptAll(ts: OMap<string, TranslatedString>, calls: seq<Call>): (r: OMap<string, TranslatedString>)
    ensures ts.Valid() ==> r.Valid()
    decreases |calls|
  {
    if |calls| == 0 then ts
    else var c := calls[|calls| - 1]; Accept(AcceptAll(ts, calls[..|calls| - 1]), c.key, c.names, c.loc)
  }

  /** The location records of the calls under `key`, in call order. */
  function RecordsFor(calls: seq<Call>, key: string): seq<LocationRecord>
    decreases |calls|
  {
    if |calls| == 0 then []
    else var c := calls[|calls| - 1];
      RecordsFor(calls[..|calls| - 1], key) + (if c.key == key then [LocationRecord(c.names, c.loc)] else [])
  }

  /** A name some call under `key` passed. */
  predicate NamedUnder(calls: seq<Call>, key: string, x: string) {
    exists i :: 0 <= i < |calls| && calls[i].key == key && x in calls[i].names
  }

  /** After any run of accepted calls, a key's locations are its call sites' records in
      call order, and its parameter set is the union of the names over those call sites. */
  lemma AcceptAllMeaning(calls: seq<Call>, key: string, x: string)
    ensures AcceptAll(Empty(), calls).GetOr(key, NewStore).locations == RecordsFor(calls, key)
    ensures x in AcceptAll(Empty(), calls).GetOr(key, NewStore).parameters <==> NamedUnder(calls, key, x)
  {
    AcceptAllRecords(calls, key);
    AcceptAllNames(calls, key, x);
  }

  /** The locations half of `AcceptAllMeaning`. */
  lemma {:induction false} AcceptAllRecords(calls: seq<Call>, key: string)
    ensures AcceptAll(Empty(), calls).GetOr(key, NewStore).locations == RecordsFor(calls, key)
    decreases |calls|
  {
    if |calls| > 0 {
      AcceptAllRecords(calls[..|calls| - 1], key);
    }
  }

  /** The parameter-set half of `AcceptAllMeaning`. */
  lemma {:induction false} AcceptAllNames(calls: seq<Call>, key: string, x: string)
    ensures x in AcceptAll(Empty(), calls).GetOr(key, NewStore).parameters <==> NamedUnder(calls, key, x)
    decreases |calls|
  {
    if |calls| > 0 {
      var init := calls[..|calls| - 1];
      var c := calls[|calls| - 1];
      AcceptAllNames(init, key, x);
      var before := AcceptAll(Empty(), init);
      AddAllMeaning(before.GetOr(c.key, NewStore).parameters, c.names);
      if NamedUnder(calls, key, x) {
        var i :| 0 <= i < |calls| && calls[i].key == key && x in calls[i].names;
        if i < |init| {
          assert init[i] == calls[i];
        }
      }
      if NamedUnder(init, key, x) {
        var i :| 0 <= i < |init| && init[i].key == key && x in init[i].names;
        assert calls[i] == init[i];
      }
    }
  }

  // ---------------------------------------------------------------------------
  // The visitor
  // ---------------------------------------------------------------------------

  class TranslatedStringsVisitor {
    const sourceLines: seq<string>
    const context: Context
    /** `seenLocs`: the identities of the `loc` objects already visited. */
    var seenLocs: set<nat>

    constructor (sourceLines: seq<string>, context: Context)
      ensures this.sourceLines == sourceLines && this.context == context && seenLocs == {}
    {
      this.sourceLines := sourceLines;
      this.context := context;
      seenLocs := {};
    }

    /** `consumeTHelper(node)`: marks the node seen before anything else, then records a
        well-formed `{{t "key"}}` call. */
    method ConsumeTHelper(node: Node) returns (r: Outcome)
      requires node.MustacheStatement? || node.SubExpression?
      requires context.Valid()
      modifies this, context
      ensures seenLocs == old(seenLocs) + {node.id}
      ensures context.Valid() && context.textToTranslate == old(context.textToTranslate)
      ensures (context.translatedStrings, r) == ConsumeT(old(context.translatedStrings), old(seenLocs), node)
    {
      if node.id in seenLocs {
        return Pass;
      }
      seenLocs := seenLocs + {node.id};

      var path := node.path;
      if !path.PathExpression? {
        return Fail(NotImplemented);
      }
      var blockName := path.original;
      if blockName != "t" {
        return Pass;
      }
      if |node.params| != 1 {
        return Fail(NotImplemented);
      }
      var parameter := node.params[0];
      if !parameter.StringLiteral? {
        return Fail(NotImplemented);
      }
      var translationKey := parameter.original;

      var store := context.translatedStrings.GetOr(translationKey, NewStore);
      // the location record and the store both take the names the hash loop gathers,
      // so they are written once it has run
      var parameters: seq<string> := [];
      var storeParameters := store.parameters;
      if node.hash.Some? {
        parameters, storeParameters := CollectNames(node.hash.value, store.parameters);
      }
      context.translatedStrings := context.translatedStrings.Put(
        translationKey, TranslatedString(storeParameters, store.locations + [LocationRecord(parameters, node.loc)]));
      r := Pass;
    }

    /** The loop over `node.hash.pairs`: each key goes, in order, into the location
        record's names and into the key's parameter set `known`. */
    static method CollectNames(pairs: seq<HashPair>, known: seq<string>) returns (names: seq<string>, parameters: seq<string>)
      ensures names == Keys(pairs)
      ensures parameters == AddAll(known, Keys(pairs))
    {
      names, parameters := [], known;
      var i := 0;
      while i < |pairs|
        invariant 0 <= i <= |pairs|
        invariant names == Keys(pairs[..i])
        invariant parameters == AddAll(known, Keys(pairs[..i]))
      {
        assert pairs[..i + 1][..i] == pairs[..i];
        names := names + [pairs[i].key];
        parameters := Add(parameters, pairs[i].key);
        i := i + 1;
      }
      assert pairs[..|pairs|] == pairs;
    }

    /** The handler table: `MustacheStatement` and `SubExpression` go to `consumeTHelper`;
        every other node kind is only walked. */
    method Visit(node: Node) returns (r: Outcome)
      requires context.Valid()
      modifies this, context
      ensures context.Valid() && context.textToTranslate == old(context.textToTranslate)
      ensures node.MustacheStatement? || node.SubExpression? ==>
                && seenLocs == old(seenLocs) + {node.id}
                && (context.translatedStrings, r) == ConsumeT(old(context.translatedStrings), old(seenLocs), node)
      ensures !(node.MustacheStatement? || node.SubExpression?) ==>
                && r == Pass && seenLocs == old(seenLocs)
                && context.translatedStrings == old(context.translatedStrings)
    {
      if node.MustacheStatement? || node.SubExpression? {
        r := ConsumeTHelper(node);
      } else {
        r := Pass;
      }
    }
  }
}
