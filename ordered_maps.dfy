/** An insertion-ordered map, the behaviour of an ECMAScript `Map` and of the string keys
    of a plain object: `set` on a new key appends it, `set` on a present key keeps its
    position, `delete` removes it. */
module OrderedMaps {

  datatype OMap<K(==, !new), V> = OMap(keys: seq<K>, values: map<K, V>) {

    /** Keys are distinct and are exactly the keys of `values`. */
    ghost predicate Valid() {
      && Distinct(keys)
      && (forall k :: k in values <==> k in keys)
    }

    /** `m.get(k) ?? d`. */
    function GetOr(k: K, d: V): V {
      if k in values then values[k] else d
    }

    /** `m.set(k, v)`. */
    function Put(k: K, v: V): (r: OMap<K, V>)
      ensures Valid() ==> r.Valid()
      ensures r.values == values[k := v]
      ensures k in values ==> r.keys == keys
      ensures k !in values ==> r.keys == keys + [k]
    {
      if k in values then OMap(keys, values[k := v]) else OMap(keys + [k], values[k := v])
    }

    /** `m.delete(k)` / `delete obj[k]`. */
    function Delete(k: K): (r: OMap<K, V>)
      ensures Valid() ==> r.Valid()
      ensures r.values == values - {k}
      ensures forall i :: 0 <= i < |r.keys| ==> r.keys[i] in keys
      ensures |r.keys| <= |keys|
    {
      OMap(Without(keys, k), values - {k})
    }
  }

  function Empty<K(==, !new), V>(): (r: OMap<K, V>)
    ensures r.Valid() && r.keys == [] && r.values == map[]
  {
    OMap([], map[])
  }

  predicate Distinct<K(==)>(s: seq<K>) {
    forall i, j :: 0 <= i < j < |s| ==> s[i] != s[j]
  }

  /** Membership in a prefix one longer. */
  lemma InPrefix<T>(s: seq<T>, n: nat, x: T)
    requires 0 < n <= |s|
    ensures x in s[..n] <==> x in s[..n - 1] || x == s[n - 1]
  {
    assert s[..n] == s[..n - 1] + [s[n - 1]];
  }

  /** An element of a distinct sequence does not occur before its position. */
  lemma DistinctPrefix<K>(keys: seq<K>, n: nat)
    requires Distinct(keys) && n < |keys|
    ensures keys[n] !in keys[..n]
  {
  }

  /** The sequence with every occurrence of `k` removed, order otherwise kept. */
  function Without<K(==, !new)>(s: seq<K>, k: K): (r: seq<K>)
    ensures forall x :: x in r <==> x in s && x != k
    ensures |r| <= |s|
    ensures Distinct(s) ==> Distinct(r)
  {
    if |s| == 0 then []
    else if s[0] == k then
      assert Distinct(s) ==> Distinct(s[1..]);
      Without(s[1..], k)
    else
      var rest := Without(s[1..], k);
      assert Distinct(s) ==> Distinct(s[1..]) && s[0] !in s[1..];
      assert Distinct(s) ==> Distinct([s[0]] + rest) by {
        if Distinct(s) {
          forall i, j | 0 <= i < j < |[s[0]] + rest| ensures ([s[0]] + rest)[i] != ([s[0]] + rest)[j] {
            if i == 0 {
              assert ([s[0]] + rest)[j] == rest[j - 1];
              assert rest[j - 1] in rest;
            }
          }
        }
      }
      [s[0]] + rest
  }
}
