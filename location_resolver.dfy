/** Offset-to-position resolution over one text block (src/util/location-resolver.js).
    The resolver records where every newline of the block falls and answers
    `[start, end)` queries with a forward-only cursor kept in two fields. */
module LocationResolvers {
  import opened Wrappers
  import opened Ast
  import opened JsString

  // ---------------------------------------------------------------------------
  // Specification
  // ---------------------------------------------------------------------------

  /** The indices of the '\n' characters of `text` at or after `from`, left to right. */
  function NewlinesFrom(text: string, from: nat): seq<int>
    decreases |text| - from
  {
    if from >= |text| then []
    else if text[from] == '\n' then [from] + NewlinesFrom(text, from + 1)
    else NewlinesFrom(text, from + 1)
  }

  predicate Increasing(s: seq<int>) {
    forall i, j :: 0 <= i < j < |s| ==> s[i] < s[j]
  }

  /** Number of '\n' characters in `s`. */
  function NewlineCount(s: string): nat {
    if |s| == 0 then 0 else (if s[0] == '\n' then 1 else 0) + NewlineCount(s[1..])
  }

  /** Number of entries of `nl` strictly below `x`: for the newline list of a text, the
      number of newlines before offset `x`. */
  function CountBelow(nl: seq<int>, x: int): (r: nat)
    ensures r <= |nl|
  {
    if |nl| == 0 then 0 else (if nl[0] < x then 1 else 0) + CountBelow(nl[1..], x)
  }

  function Max(a: int, b: int): int {
    if a < b then b else a
  }

  /** The text index the column of line `c` (counted from 0 within the block) is measured
      from: the newline that ends line `c - 1`, or `-firstColumnOffset` on the first line. */
  function LineBase(nl: seq<int>, firstColumnOffset: int, c: int): int {
    if 0 < c <= |nl| then nl[c - 1] else -firstColumnOffset
  }

  /** The position of offset `x` of a block that begins on line `lineOffset` at
      1-based column `firstColumnOffset`, given the block's newline list `nl`. */
  function PositionOf(nl: seq<int>, lineOffset: int, firstColumnOffset: int, x: int): Position {
    var c := CountBelow(nl, x);
    Position(lineOffset + c, x - LineBase(nl, firstColumnOffset, c) - 1)
  }

  // ---------------------------------------------------------------------------
  // Properties of the specification
  // ---------------------------------------------------------------------------

  /** The newline list of a whole text is strictly increasing. */
  lemma NewlinesIncreasing(text: string)
    ensures Increasing(NewlinesFrom(text, 0))
  {
    NewlinesFromExact(text, 0);
  }

  /** `NewlinesFrom` lists exactly the newline indices at or after `from`, strictly increasing. */
  lemma {:induction false} NewlinesFromExact(text: string, from: nat)
    ensures Increasing(NewlinesFrom(text, from))
    ensures forall k :: 0 <= k < |NewlinesFrom(text, from)| ==>
              from <= NewlinesFrom(text, from)[k] < |text| && text[NewlinesFrom(text, from)[k]] == '\n'
    ensures forall i :: from <= i < |text| && text[i] == '\n' ==> i in NewlinesFrom(text, from)
    decreases |text| - from
  {
    if from < |text| {
      NewlinesFromExact(text, from + 1);
      var rest := NewlinesFrom(text, from + 1);
      if text[from] == '\n' {
        var all := [from] + rest;
        assert NewlinesFrom(text, from) == all;
        forall i, j | 0 <= i < j < |all| ensures all[i] < all[j] {
          if i == 0 {
            assert all[j] == rest[j - 1];
          } else {
            assert all[i] == rest[i - 1] && all[j] == rest[j - 1];
          }
        }
      }
    }
  }

  /** In an increasing list, the entries below `x` are exactly the first `CountBelow(nl, x)`. */
  lemma {:induction false} CountBelowSplits(nl: seq<int>, x: int)
    requires Increasing(nl)
    ensures forall k :: 0 <= k < |nl| ==> (nl[k] < x <==> k < CountBelow(nl, x))
  {
    if |nl| > 0 {
      var tail := nl[1..];
      assert Increasing(tail);
      CountBelowSplits(tail, x);
      forall k | 0 <= k < |nl| ensures nl[k] < x <==> k < CountBelow(nl, x) {
        if k > 0 {
          assert nl[k] == tail[k - 1];
        }
        if nl[0] >= x && |tail| > 0 {
          assert tail[0] == nl[1] && nl[0] < nl[1];
        }
      }
    }
  }

  /** Before offset `x` there are as many entries of the newline list as newlines in `text[..x]`. */
  lemma {:induction false} CountBelowIsNewlineCount(text: string, from: nat, x: nat)
    requires from <= x <= |text|
    ensures CountBelow(NewlinesFrom(text, from), x) == NewlineCount(text[from..x])
    decreases |text| - from
  {
    if from == x {
      NewlinesFromExact(text, from);
      CountBelowSplits(NewlinesFrom(text, from), x);
      var nl := NewlinesFrom(text, from);
      if |nl| > 0 {
        assert from <= nl[0];
      }
    } else {
      CountBelowIsNewlineCount(text, from + 1, x);
      assert text[from..x][1..] == text[from + 1..x];
      if text[from] == '\n' {
        assert ([from] + NewlinesFrom(text, from + 1))[1..] == NewlinesFrom(text, from + 1);
      }
    }
  }

  /** The last newline before `x` (the `CountBelow(nl, x)`-th entry) has no newline after it before `x`. */
  lemma LastNewlineBefore(text: string, x: nat)
    requires x <= |text| && CountBelow(NewlinesFrom(text, 0), x) > 0
    ensures var nl := NewlinesFrom(text, 0); var base := nl[CountBelow(nl, x) - 1];
      && 0 <= base < x && text[base] == '\n'
      && forall i :: base < i < x ==> text[i] != '\n'
  {
    var nl := NewlinesFrom(text, 0);
    NewlinesFromExact(text, 0);
    CountBelowSplits(nl, x);
    var c := CountBelow(nl, x);
    var base := nl[c - 1];
    forall i | 0 <= i < x && text[i] == '\n' ensures i <= base {
      assert i in nl;
      var k :| 0 <= k < |nl| && nl[k] == i;
      assert k < c;
      if k < c - 1 {
        assert nl[k] < nl[c - 1];
      }
    }
  }

  /** The meaning of a resolved position: its line is `lineOffset` plus the number of newlines
      before the offset (a '\n' belongs to the line it ends), and its column counts the
      characters since the last newline, or is `offset + firstColumnOffset - 1` on the first line. */
  lemma PositionOfMeaning(text: string, lineOffset: int, firstColumnOffset: int, x: nat)
    requires x <= |text|
    ensures var p := PositionOf(NewlinesFrom(text, 0), lineOffset, firstColumnOffset, x);
      && p.line == lineOffset + NewlineCount(text[..x])
      && (NewlineCount(text[..x]) == 0 ==> p.column == x + firstColumnOffset - 1)
      && (NewlineCount(text[..x]) > 0 ==>
            0 <= p.column < x && text[x - p.column - 1] == '\n'
            && forall i :: x - p.column <= i < x ==> text[i] != '\n')
  {
    CountBelowIsNewlineCount(text, 0, x);
    assert text[0..x] == text[..x];
    if CountBelow(NewlinesFrom(text, 0), x) > 0 {
      LastNewlineBefore(text, x);
    }
  }

  /** Resolution respects order: a later offset never gets an earlier position. */
  lemma PositionOfMonotone(nl: seq<int>, lineOffset: int, firstColumnOffset: int, x: int, y: int)
    requires Increasing(nl) && x <= y
    ensures PosLe(PositionOf(nl, lineOffset, firstColumnOffset, x), PositionOf(nl, lineOffset, firstColumnOffset, y))
  {
    CountBelowSplits(nl, x);
    CountBelowSplits(nl, y);
    if CountBelow(nl, x) > 0 {
      assert nl[CountBelow(nl, x) - 1] < y;
    }
  }

  /** The cursor line reached for offset `x` from cursor `c0`: the cursor never moves back. */
  function Reached(nl: seq<int>, c0: int, x: int): int {
    Max(c0, CountBelow(nl, x))
  }

  /** Resolving the later offset of a range reaches at least as far, and yields a position
      no earlier than that of the earlier offset. */
  lemma ReachedOrdered(nl: seq<int>, lineOffset: int, firstColumnOffset: int, c0: int, x: int, y: int)
    requires Increasing(nl) && x <= y
    ensures Reached(nl, c0, x) <= Reached(nl, c0, y)
    ensures var s, e := Reached(nl, c0, x), Reached(nl, c0, y);
      PosLe(Position(lineOffset + s, x - LineBase(nl, firstColumnOffset, s) - 1),
            Position(lineOffset + e, y - LineBase(nl, firstColumnOffset, e) - 1))
  {
    CountBelowSplits(nl, y);
    if CountBelow(nl, x) > 0 {
      CountBelowSplits(nl, x);
      assert nl[CountBelow(nl, x) - 1] < y;
    }
  }

  /** When the newline before cursor `c0` lies before `x`, the cursor does not hold `x` back. */
  lemma ReachedClean(nl: seq<int>, c0: int, x: int)
    requires Increasing(nl) && 0 <= c0 <= |nl| && (c0 == 0 || nl[c0 - 1] < x)
    ensures Reached(nl, c0, x) == CountBelow(nl, x)
  {
    CountBelowSplits(nl, x);
  }

  /** `indexOf('\n', from)` steps through `NewlinesFrom` one entry at a time. */
  lemma {:induction false} NewlinesFromIndexOf(text: string, from: nat)
    ensures var i := IndexOf(text, "\n", from);
      NewlinesFrom(text, from) == if i == -1 then [] else [i] + NewlinesFrom(text, i + 1)
    decreases |text| - from
  {
    if from < |text| {
      assert OccursAt(text, "\n", from) <==> text[from] == '\n';
      if text[from] != '\n' {
        NewlinesFromIndexOf(text, from + 1);
        var i := IndexOf(text, "\n", from + 1);
        assert IndexOf(text, "\n", from) == i;
      }
    }
  }

  // ---------------------------------------------------------------------------
  // The resolver
  // ---------------------------------------------------------------------------

  class LocationResolver {
    const fileName: string
    const offset: int
    const firstColumnOffset: int
    const newlineIndices: seq<int>
    ghost const source: string
    var previousNewLineArrayIndex: int
    var currentNewlineArrayIndex: int

    /** The newline list is that of `source` (hence increasing); the cursor is within it
        and `previousNewLineArrayIndex` trails `currentNewlineArrayIndex` by one. */
    ghost predicate Valid()
      reads this
    {
      && newlineIndices == NewlinesFrom(source, 0)
      && Increasing(newlineIndices)
      && 0 <= currentNewlineArrayIndex <= |newlineIndices|
      && previousNewLineArrayIndex == currentNewlineArrayIndex - 1
    }

    /** `LocationResolver.getNewlineIndices`: the indices of every '\n', found with `indexOf`. */
    static method GetNewlineIndices(text: string) returns (response: seq<int>)
      ensures response == NewlinesFrom(text, 0)
      ensures Increasing(response)
      ensures forall k :: 0 <= k < |response| ==> 0 <= response[k] < |text| && text[response[k]] == '\n'
      ensures forall i :: 0 <= i < |text| && text[i] == '\n' ==> i in response
    {
      response := [];
      var lastIndex := -1;
      while true
        invariant -1 <= lastIndex < |text|
        invariant response + NewlinesFrom(text, lastIndex + 1) == NewlinesFrom(text, 0)
        decreases |text| - lastIndex
      {
        var index := IndexOf(text, "\n", lastIndex + 1);
        NewlinesFromIndexOf(text, lastIndex + 1);
        if index == -1 {
          break;
        }
        assert response + [index] + NewlinesFrom(text, index + 1) == NewlinesFrom(text, 0);
        response := response + [index];
        lastIndex := index;
      }
      assert response == NewlinesFrom(text, 0);
      NewlinesFromExact(text, 0);
    }

    constructor (fileName: string, source: string, lineOffset: int, firstColumnOffset: int)
      ensures Valid()
      ensures this.fileName == fileName && this.source == source
      ensures offset == lineOffset && this.firstColumnOffset == firstColumnOffset
      ensures previousNewLineArrayIndex == -1 && currentNewlineArrayIndex == 0
    {
      this.fileName := fileName;
      this.source := source;
      offset := lineOffset;
      this.firstColumnOffset := firstColumnOffset;
      var indices := GetNewlineIndices(source);
      newlineIndices := indices;
      previousNewLineArrayIndex := -1;
      currentNewlineArrayIndex := 0;
    }

    /** The `previousNewLineTextIndex` getter: the newline last passed, or `-firstColumnOffset`. */
    function PreviousNewLineTextIndex(): (r: int)
      reads this
      requires Valid()
      ensures r == LineBase(newlineIndices, firstColumnOffset, currentNewlineArrayIndex)
    {
      if 0 <= previousNewLineArrayIndex < |newlineIndices| then newlineIndices[previousNewLineArrayIndex]
      else -firstColumnOffset
    }

    /** Moves the cursor forward past every newline before `index`; never moves it back. */
    method AdvanceTo(index: int)
      requires Valid()
      modifies this
      ensures Valid()
      ensures currentNewlineArrayIndex == Reached(newlineIndices, old(currentNewlineArrayIndex), index)
    {
      CountBelowSplits(newlineIndices, index);
      while currentNewlineArrayIndex < |newlineIndices| && index > newlineIndices[currentNewlineArrayIndex]
        invariant Valid()
        invariant old(currentNewlineArrayIndex) <= currentNewlineArrayIndex
        invariant currentNewlineArrayIndex == old(currentNewlineArrayIndex)
                  || currentNewlineArrayIndex <= CountBelow(newlineIndices, index)
        decreases |newlineIndices| - currentNewlineArrayIndex
      {
        previousNewLineArrayIndex := currentNewlineArrayIndex;
        currentNewlineArrayIndex := currentNewlineArrayIndex + 1;
      }
    }

    /** `getLocationForRange`: throws a `RangeError` for a reversed range or for a start
        before the newline the cursor last passed (queries are forward-only); otherwise
        resolves both ends, moving the cursor. */
    method GetLocationForRange(startingIndex: int, endingIndex: int) returns (r: Result<SourceLocation>)
      requires Valid()
      modifies this
      ensures Valid()
      ensures r.Err? <==> (startingIndex > endingIndex
                           || (old(previousNewLineArrayIndex) >= 0
                               && startingIndex < newlineIndices[old(previousNewLineArrayIndex)]))
      ensures r.Err? ==> r.error.RangeError? && currentNewlineArrayIndex == old(currentNewlineArrayIndex)
      ensures r.Ok? ==> r.value.source == fileName && PosLe(r.value.start, r.value.end)
      ensures r.Ok? ==>
        var s := Reached(newlineIndices, old(currentNewlineArrayIndex), startingIndex);
        var e := Reached(newlineIndices, old(currentNewlineArrayIndex), endingIndex);
        && currentNewlineArrayIndex == e
        && r.value.start == Position(offset + s, startingIndex - LineBase(newlineIndices, firstColumnOffset, s) - 1)
        && r.value.end == Position(offset + e, endingIndex - LineBase(newlineIndices, firstColumnOffset, e) - 1)
      ensures r.Ok? && (old(previousNewLineArrayIndex) < 0
                        || newlineIndices[old(previousNewLineArrayIndex)] < startingIndex) ==>
        && r.value.start == PositionOf(newlineIndices, offset, firstColumnOffset, startingIndex)
        && r.value.end == PositionOf(newlineIndices, offset, firstColumnOffset, endingIndex)
    {
      if startingIndex > endingIndex {
        return Err(RangeError("Starting index is after ending index"));
      }
      if previousNewLineArrayIndex >= 0 && startingIndex < newlineIndices[previousNewLineArrayIndex] {
        return Err(RangeError("Starting index is before the last newline"));
      }
      ghost var c0 := currentNewlineArrayIndex;
      ReachedOrdered(newlineIndices, offset, firstColumnOffset, c0, startingIndex, endingIndex);
      AdvanceTo(startingIndex);
      var start := Position(currentNewlineArrayIndex + offset, startingIndex - PreviousNewLineTextIndex() - 1);
      AdvanceTo(endingIndex);
      var end := Position(currentNewlineArrayIndex + offset, endingIndex - PreviousNewLineTextIndex() - 1);
      if c0 == 0 || newlineIndices[c0 - 1] < startingIndex {
        ReachedClean(newlineIndices, c0, startingIndex);
        ReachedClean(newlineIndices, c0, endingIndex);
      }
      r := Ok(SourceLocation(fileName, start, end));
    }
  }

  /** Splitting a query at an intermediate offset gives the same positions as asking for the
      whole range from a fresh resolver: resolving `[a, b]` then `[b, c]` ends where `[a, c]` ends. */
  method ForwardQueriesAgree(fileName: string, text: string, lineOffset: int, firstColumnOffset: int,
                             a: int, b: int, c: int)
    returns (first: Result<SourceLocation>, second: Result<SourceLocation>, whole: Result<SourceLocation>)
    requires a <= b <= c
    ensures first.Ok? && second.Ok? && whole.Ok?
    ensures first.value.end == second.value.start
    ensures first.value.start == whole.value.start && second.value.end == whole.value.end
  {
    var resolver := new LocationResolver(fileName, text, lineOffset, firstColumnOffset);
    first := resolver.GetLocationForRange(a, b);
    NewlinesFromExact(text, 0);
    CountBelowSplits(resolver.newlineIndices, b);
    second := resolver.GetLocationForRange(b, c);
    var other := new LocationResolver(fileName, text, lineOffset, firstColumnOffset);
    whole := other.GetLocationForRange(a, c);
  }
}
