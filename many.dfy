/** The visitor fan-out (src/ast/visitors/many.js): `multiVisitor(visitors)` makes one
    visitor out of several. Its context merges theirs, it holds one instance of each, all
    sharing that context, and each handler it has forwards the call to every instance in
    the order the visitors were given. The instances' handlers are the visitors' own
    code, so they are parameters here: a handler takes the state of the run and an
    instance, and gives the new state and whether it threw. */
module Many {
  import opened Wrappers
  import opened Ast
  import opened OrderedMaps
  import opened Contexts

  // ---------------------------------------------------------------------------
  // createContext
  // ---------------------------------------------------------------------------

  /** `Object.assign(target, source)`: each own property of `source`, in order, is set on
      `target`. */
  function Assign<V>(target: OMap<string, V>, source: OMap<string, V>, n: nat): (r: OMap<string, V>)
    requires source.Valid() && n <= |source.keys|
    ensures target.Valid() ==> r.Valid()
    decreases n
  {
    if n == 0 then target
    else var k := source.keys[n - 1]; Assign(target, source, n - 1).Put(k, source.values[k])
  }

  /** After assigning, the target has its own properties and those of `source`, and
      where both have one, the value from `source`. */
  lemma {:induction false} AssignValues<V>(target: OMap<string, V>, source: OMap<string, V>, n: nat, k: string)
    requires source.Valid() && n <= |source.keys|
    ensures k in Assign(target, source, n).values <==> k in target.values || k in source.keys[..n]
    ensures k in Assign(target, source, n).values ==>
              Assign(target, source, n).values[k] == if k in source.keys[..n] then source.values[k] else target.values[k]
    decreases n
  {
    if n > 0 {
      AssignValues(target, source, n - 1, k);
      assert source.keys[..n] == source.keys[..n - 1] + [source.keys[n - 1]];
    }
  }

  /** The merged context of the visitors' contexts `cs`, in order. */
  function Merged<V>(cs: seq<OMap<string, V>>): (r: OMap<string, V>)
    requires forall i :: 0 <= i < |cs| ==> cs[i].Valid()
    ensures r.Valid()
    decreases |cs|
  {
    if |cs| == 0 then Empty()
    else var last := cs[|cs| - 1]; Assign(Merged(cs[..|cs| - 1]), last, |last.keys|)
  }

  /** The merged context has a property exactly when some visitor's context has it. */
  lemma {:induction false} MergedHas<V>(cs: seq<OMap<string, V>>, k: string)
    requires forall i :: 0 <= i < |cs| ==> cs[i].Valid()
    ensures k in Merged(cs).values <==> exists i :: 0 <= i < |cs| && k in cs[i].values
    decreases |cs|
  {
    if |cs| > 0 {
      var init := cs[..|cs| - 1];
      var last := cs[|cs| - 1];
      MergedHas(init, k);
      AssignValues(Merged(init), last, |last.keys|, k);
      assert last.keys[..|last.keys|] == last.keys;
      if k in Merged(init).values {
        var i :| 0 <= i < |init| && k in init[i].values;
        assert cs[i] == init[i];
      }
      if exists i :: 0 <= i < |cs| && k in cs[i].values {
        var i :| 0 <= i < |cs| && k in cs[i].values;
        if i < |cs| - 1 {
          assert init[i] == cs[i];
        }
      }
    }
  }

  /** A property of the merged context has the value of the last visitor whose context
      has it: later visitors win. */
  lemma {:induction false} MergedLaterWins<V>(cs: seq<OMap<string, V>>, k: string, i: nat)
    requires forall j :: 0 <= j < |cs| ==> cs[j].Valid()
    requires i < |cs| && k in cs[i].values
    requires forall j :: i < j < |cs| ==> k !in cs[j].values
    ensures k in Merged(cs).values && Merged(cs).values[k] == cs[i].values[k]
    decreases |cs|
  {
    var init := cs[..|cs| - 1];
    var last := cs[|cs| - 1];
    AssignValues(Merged(init), last, |last.keys|, k);
    assert last.keys[..|last.keys|] == last.keys;
    if i < |cs| - 1 {
      assert init[i] == cs[i];
      assert k !in last.values;
      MergedLaterWins(init, k, i);
    }
  }

  /** `createContext()`: a fresh object, then `Object.assign` of each visitor's context. */
  method CreateContext<V>(cs: seq<OMap<string, V>>) returns (context: OMap<string, V>)
    requires forall i :: 0 <= i < |cs| ==> cs[i].Valid()
    ensures context == Merged(cs)
  {
    context := Empty();
    for i := 0 to |cs|
      invariant context == Merged(cs[..i])
    {
      assert cs[..i + 1][..i] == cs[..i];
      context := Assign(context, cs[i], |cs[i].keys|);
    }
    assert cs[..|cs|] == cs;
  }

  // ---------------------------------------------------------------------------
  // Dispatch
  // ---------------------------------------------------------------------------

  /** The options every instance is built with. */
  datatype Options = Options(source: string, fileName: string)

  /** An instance of the visitor class `visitorClass`, built with `options` and `context`. */
  datatype Instance<C> = Instance(visitorClass: C, options: Options, context: Context)

  /** Calling `handler` on each instance in turn, stopping at the first that throws. */
  function DispatchAll<S, C>(handler: (S, Instance<C>) -> (S, Outcome), s: S, vs: seq<Instance<C>>): (S, Outcome)
    decreases |vs|
  {
    if |vs| == 0 then (s, Pass)
    else
      var (s1, o) := handler(s, vs[0]);
      if o.Fail? then (s1, o) else DispatchAll(handler, s1, vs[1..])
  }

  /** The instances whose handler runs, in the order it runs. */
  function Called<S, C>(handler: (S, Instance<C>) -> (S, Outcome), s: S, vs: seq<Instance<C>>): seq<Instance<C>>
    decreases |vs|
  {
    if |vs| == 0 then []
    else
      var (s1, o) := handler(s, vs[0]);
      if o.Fail? then [vs[0]] else [vs[0]] + Called(handler, s1, vs[1..])
  }

  /** The handlers run in registration order, each at most once: on every instance when
      none throws, otherwise on a prefix of them; when no handler can throw, all run. */
  lemma {:induction false} DispatchOrder<S, C>(handler: (S, Instance<C>) -> (S, Outcome), s: S, vs: seq<Instance<C>>)
    ensures Called(handler, s, vs) <= vs
    ensures DispatchAll(handler, s, vs).1.Pass? ==> Called(handler, s, vs) == vs
    ensures DispatchAll(handler, s, vs).1.Fail? ==> |Called(handler, s, vs)| > 0
    ensures (forall t, i :: 0 <= i < |vs| ==> handler(t, vs[i]).1.Pass?) ==> DispatchAll(handler, s, vs).1.Pass?
    decreases |vs|
  {
    if |vs| > 0 {
      var (s1, o) := handler(s, vs[0]);
      if o.Pass? {
        DispatchOrder(handler, s1, vs[1..]);
        assert vs == [vs[0]] + vs[1..];
        if forall t, i :: 0 <= i < |vs| ==> handler(t, vs[i]).1.Pass? {
          assert forall t, i :: 0 <= i < |vs[1..]| ==> handler(t, vs[1..][i]).1.Pass? by {
            forall t, i | 0 <= i < |vs[1..]| ensures handler(t, vs[1..][i]).1.Pass? {
              assert vs[1..][i] == vs[i + 1];
            }
          }
        }
      } else {
        assert [vs[0]] <= vs;
      }
    }
  }

  class MultiVisitor<C> {
    const context: Context
    /** One instance per visitor class, in the given order. */
    const visitors: seq<Instance<C>>

    /** The constructor: `new Visitor(options, context)` for each class, in order. */
    constructor (classes: seq<C>, options: Options, context: Context)
      ensures this.context == context
      ensures |visitors| == |classes|
      ensures forall i :: 0 <= i < |classes| ==> visitors[i] == Instance(classes[i], options, context)
    {
      var visitorInstances: seq<Instance<C>> := [];
      for i := 0 to |classes|
        invariant |visitorInstances| == i
        invariant forall j :: 0 <= j < i ==> visitorInstances[j] == Instance(classes[j], options, context)
      {
        visitorInstances := visitorInstances + [Instance(classes[i], options, context)];
      }
      this.context := context;
      visitors := visitorInstances;
    }

    /** A forwarded handler: the same call on each instance in turn; an exception from one
        instance ends the loop. */
    method Dispatch<S>(handler: (S, Instance<C>) -> (S, Outcome), s: S) returns (t: S, r: Outcome)
      ensures (t, r) == DispatchAll(handler, s, visitors)
    {
      t := s;
      var i := 0;
      while i < |visitors|
        invariant 0 <= i <= |visitors|
        invariant DispatchAll(handler, s, visitors) == DispatchAll(handler, t, visitors[i..])
      {
        assert visitors[i..][1..] == visitors[i + 1..];
        var (t1, o) := handler(t, visitors[i]);
        t := t1;
        if o.Fail? {
          return t, o;
        }
        i := i + 1;
      }
      r := Pass;
    }

    /** `afterEnter()`: each instance's `afterEnter`, in order. */
    method AfterEnter<S>(afterEnter: (S, Instance<C>) -> (S, Outcome), s: S) returns (t: S, r: Outcome)
      ensures (t, r) == DispatchAll(afterEnter, s, visitors)
    {
      t, r := Dispatch(afterEnter, s);
    }
  }
}
