/** Stable sorting into descending order of a rank, the behaviour of
    `Array.prototype.sort` with a comparator that orders by a numeric rank, highest first.
    The sort is stable: elements of equal rank keep their relative order. Ranks are pairs
    compared lexicographically, so a sort by line and then column, or by a single score,
    are both instances. */
module Sorting {

  type Rank = (int, int)

  /** `a` ranks strictly above `b`. */
  predicate Above(a: Rank, b: Rank) {
    a.0 > b.0 || (a.0 == b.0 && a.1 > b.1)
  }

  /** No element ranks strictly above one before it. */
  predicate Descending<T>(s: seq<T>, rank: T -> Rank) {
    forall i, j :: 0 <= i < j < |s| ==> !Above(rank(s[j]), rank(s[i]))
  }

  /** The elements of `s` of rank `k`, in order. */
  function WithRank<T>(s: seq<T>, rank: T -> Rank, k: Rank): (r: seq<T>)
    ensures |r| <= |s|
  {
    if |s| == 0 then []
    else (if rank(s[0]) == k then [s[0]] else []) + WithRank(s[1..], rank, k)
  }

  /** `x` placed before the first element it ranks strictly above, so after every element
      of the same rank. */
  function Insert<T>(s: seq<T>, x: T, rank: T -> Rank): seq<T> {
    if |s| == 0 then [x]
    else if Above(rank(x), rank(s[0])) then [x] + s
    else [s[0]] + Insert(s[1..], x, rank)
  }

  /** The stable descending sort, by insertion of each element in turn. */
  function SortDesc<T>(s: seq<T>, rank: T -> Rank): seq<T>
    decreases |s|
  {
    if |s| == 0 then [] else Insert(SortDesc(s[..|s| - 1], rank), s[|s| - 1], rank)
  }

  lemma DescendingTail<T>(s: seq<T>, rank: T -> Rank)
    requires |s| > 0 && Descending(s, rank)
    ensures Descending(s[1..], rank)
  {
    var t := s[1..];
    forall i, j | 0 <= i < j < |t| ensures !Above(rank(t[j]), rank(t[i])) {
      assert t[i] == s[i + 1] && t[j] == s[j + 1];
    }
  }

  lemma {:induction false} InsertPermutes<T>(s: seq<T>, x: T, rank: T -> Rank)
    ensures multiset(Insert(s, x, rank)) == multiset(s) + multiset{x}
    decreases |s|
  {
    if |s| > 0 && !Above(rank(x), rank(s[0])) {
      InsertPermutes(s[1..], x, rank);
      assert s == [s[0]] + s[1..];
    }
  }

  lemma {:induction false} InsertDescending<T>(s: seq<T>, x: T, rank: T -> Rank)
    requires Descending(s, rank)
    ensures Descending(Insert(s, x, rank), rank)
    ensures |Insert(s, x, rank)| == |s| + 1
    ensures |s| > 0 ==> Insert(s, x, rank)[0] == s[0] || Insert(s, x, rank)[0] == x
    decreases |s|
  {
    if |s| > 0 && !Above(rank(x), rank(s[0])) {
      var t := s[1..];
      DescendingTail(s, rank);
      InsertDescending(t, x, rank);
      var r := Insert(s, x, rank);
      assert r == [s[0]] + Insert(t, x, rank);
      forall i, j | 0 <= i < j < |r| ensures !Above(rank(r[j]), rank(r[i])) {
        if i == 0 {
          InsertMembers(t, x, rank, j - 1);
        }
      }
    } else if |s| > 0 {
      var r := Insert(s, x, rank);
      assert r == [x] + s;
      forall i, j | 0 <= i < j < |r| ensures !Above(rank(r[j]), rank(r[i])) {
        if i == 0 {
          assert r[j] == s[j - 1];
          assert !Above(rank(s[j - 1]), rank(s[0]));
        } else {
          assert r[i] == s[i - 1] && r[j] == s[j - 1];
        }
      }
    }
  }

  /** Every element of an insertion is `x` or an element of `s`. */
  lemma {:induction false} InsertMembers<T>(s: seq<T>, x: T, rank: T -> Rank, j: int)
    requires 0 <= j < |Insert(s, x, rank)|
    ensures Insert(s, x, rank)[j] == x || exists i :: 0 <= i < |s| && Insert(s, x, rank)[j] == s[i]
    decreases |s|
  {
    if |s| > 0 && !Above(rank(x), rank(s[0])) && j > 0 {
      InsertMembers(s[1..], x, rank, j - 1);
      if Insert(s, x, rank)[j] != x {
        var i :| 0 <= i < |s[1..]| && Insert(s[1..], x, rank)[j - 1] == s[1..][i];
        assert s[1..][i] == s[i + 1];
      }
    } else if |s| > 0 && Above(rank(x), rank(s[0])) && j > 0 {
      assert Insert(s, x, rank)[j] == s[j - 1];
    }
  }

  lemma {:induction false} WithRankAppend<T>(a: seq<T>, b: seq<T>, rank: T -> Rank, k: Rank)
    ensures WithRank(a + b, rank, k) == WithRank(a, rank, k) + WithRank(b, rank, k)
    decreases |a|
  {
    if |a| == 0 {
      assert a + b == b;
    } else {
      assert (a + b)[1..] == a[1..] + b;
      WithRankAppend(a[1..], b, rank, k);
    }
  }

  lemma WithRankSingle<T>(x: T, rank: T -> Rank, k: Rank)
    ensures WithRank([x], rank, k) == if rank(x) == k then [x] else []
  {
    assert WithRank([x], rank, k) == (if rank(x) == k then [x] else []) + WithRank([x][1..], rank, k);
  }

  /** In a descending sequence that `x` ranks strictly above the head of, nothing has the
      rank of `x`. */
  lemma {:induction false} NoneOfRank<T>(s: seq<T>, x: T, rank: T -> Rank)
    requires Descending(s, rank) && (|s| == 0 || Above(rank(x), rank(s[0])))
    ensures WithRank(s, rank, rank(x)) == []
    decreases |s|
  {
    if |s| > 0 {
      var t := s[1..];
      DescendingTail(s, rank);
      if |t| > 0 {
        assert !Above(rank(t[0]), rank(s[0]));
      }
      NoneOfRank(t, x, rank);
    }
  }

  /** Inserting into a descending sequence puts `x` after every element of its rank. */
  lemma {:induction false} InsertStable<T>(s: seq<T>, x: T, rank: T -> Rank, k: Rank)
    requires Descending(s, rank)
    ensures WithRank(Insert(s, x, rank), rank, k) == WithRank(s, rank, k) + (if rank(x) == k then [x] else [])
    decreases |s|
  {
    if |s| == 0 {
      WithRankSingle(x, rank, k);
    } else if Above(rank(x), rank(s[0])) {
      WithRankAppend([x], s, rank, k);
      WithRankSingle(x, rank, k);
      if rank(x) == k {
        NoneOfRank(s, x, rank);
      }
    } else {
      var t := s[1..];
      DescendingTail(s, rank);
      InsertStable(t, x, rank, k);
      assert Insert(s, x, rank)[1..] == Insert(t, x, rank);
    }
  }

  /** The sort gives a descending permutation of its input in which elements of equal rank
      keep their input order. */
  lemma {:induction false} SortDescMeaning<T>(s: seq<T>, rank: T -> Rank)
    ensures Descending(SortDesc(s, rank), rank)
    ensures multiset(SortDesc(s, rank)) == multiset(s)
    ensures forall k :: WithRank(SortDesc(s, rank), rank, k) == WithRank(s, rank, k)
    decreases |s|
  {
    if |s| > 0 {
      var init := s[..|s| - 1];
      var x := s[|s| - 1];
      SortDescMeaning(init, rank);
      InsertDescending(SortDesc(init, rank), x, rank);
      InsertPermutes(SortDesc(init, rank), x, rank);
      assert s == init + [x];
      forall k ensures WithRank(SortDesc(s, rank), rank, k) == WithRank(s, rank, k) {
        InsertStable(SortDesc(init, rank), x, rank, k);
        WithRankAppend(init, [x], rank, k);
        WithRankSingle(x, rank, k);
      }
    }
  }

  /** `array.sort(comparator)` on a copy of the elements. */
  method Sort<T>(s: seq<T>, rank: T -> Rank) returns (r: seq<T>)
    ensures r == SortDesc(s, rank)
  {
    r := [];
    for i := 0 to |s|
      invariant r == SortDesc(s[..i], rank)
    {
      assert s[..i + 1][..i] == s[..i];
      r := Insert(r, s[i], rank);
    }
    assert s[..|s|] == s;
  }
}
