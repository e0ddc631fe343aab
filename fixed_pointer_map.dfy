/*
 * `FixedPointerMap<K, V, N>` (libs/fixed_map/FixedPointerMap.hpp): at most
 * N key/pointer pairs in a fixed array, the first `size` of them in use,
 * searched linearly. Removal moves the last pair into the freed slot. A
 * `V*` is an `Option<V>` whose `None` is nullptr.
 */
module FixedPointerMaps {
  import opened Options

  /** The keys of the pairs in `s` are pairwise distinct. */
  predicate DistinctKeys<K(==), V>(s: seq<(K, V)>)
  {
    forall i, j :: 0 <= i < j < |s| ==> s[i].0 != s[j].0
  }

  /** The association list `s` read as a map. */
  function MapOf<K, V>(s: seq<(K, V)>): map<K, V>
  {
    if |s| == 0 then map[] else MapOf(s[..|s| - 1])[s[|s| - 1].0 := s[|s| - 1].1]
  }

  /** The index of the first pair with key `key`, or |s| when there is none. */
  function FindIndex<K(==), V>(s: seq<(K, V)>, key: K): (i: nat)
    ensures i <= |s|
    ensures i < |s| ==> s[i].0 == key
    ensures forall j :: 0 <= j < i ==> s[j].0 != key
  {
    if |s| == 0 then 0
    else if s[0].0 == key then 0
    else 1 + FindIndex(s[1..], key)
  }

  /** `data_[i] = data_[size_ - 1]; --size_;` on the used prefix `s`. */
  function SwapRemove<K, V>(s: seq<(K, V)>, i: nat): (t: seq<(K, V)>)
    requires i < |s|
    ensures |t| == |s| - 1
  {
    s[i := s[|s| - 1]][..|s| - 1]
  }

  lemma {:induction false} MapOfDomain<K, V>(s: seq<(K, V)>, key: K)
    ensures key in MapOf(s) <==> exists i :: 0 <= i < |s| && s[i].0 == key
    decreases |s|
  {
    if |s| > 0 {
      var front := s[..|s| - 1];
      MapOfDomain(front, key);
      if key in MapOf(front) {
        var i :| 0 <= i < |front| && front[i].0 == key;
        assert s[i].0 == key;
      }
      if exists i :: 0 <= i < |s| && s[i].0 == key {
        var i :| 0 <= i < |s| && s[i].0 == key;
        if i < |s| - 1 {
          assert front[i].0 == key;
        }
      }
    }
  }

  lemma {:induction false} MapOfValue<K, V>(s: seq<(K, V)>, i: nat)
    requires DistinctKeys(s) && i < |s|
    ensures s[i].0 in MapOf(s) && MapOf(s)[s[i].0] == s[i].1
    decreases |s|
  {
    if i < |s| - 1 {
      MapOfValue(s[..|s| - 1], i);
    }
  }

  /** With distinct keys the map has one entry per pair. */
  lemma {:induction false} MapOfSize<K, V>(s: seq<(K, V)>)
    requires DistinctKeys(s)
    ensures |MapOf(s)| == |s|
    decreases |s|
  {
    if |s| > 0 {
      var front := s[..|s| - 1];
      MapOfSize(front);
      MapOfDomain(front, s[|s| - 1].0);
      assert s[|s| - 1].0 !in MapOf(front);
      assert MapOf(s).Keys == MapOf(front).Keys + {s[|s| - 1].0};
    }
  }

  /** Pair j of the removed list is pair j of s, except that slot i now holds the last pair. */
  lemma SwapRemoveAt<K, V>(s: seq<(K, V)>, i: nat, j: nat)
    requires i < |s| && j < |s| - 1
    ensures SwapRemove(s, i)[j] == s[if j == i then |s| - 1 else j]
  {
  }

  lemma SwapRemoveDistinct<K, V>(s: seq<(K, V)>, i: nat)
    requires DistinctKeys(s) && i < |s|
    ensures DistinctKeys(SwapRemove(s, i))
  {
    var t := SwapRemove(s, i);
    forall a, b | 0 <= a < b < |t| ensures t[a].0 != t[b].0 {
      SwapRemoveAt(s, i, a);
      SwapRemoveAt(s, i, b);
    }
  }

  lemma SwapRemoveKept<K, V>(s: seq<(K, V)>, i: nat, key: K)
    requires DistinctKeys(s) && i < |s| && key in MapOf(SwapRemove(s, i))
    ensures key in MapOf(s) && key != s[i].0 && MapOf(SwapRemove(s, i))[key] == MapOf(s)[key]
  {
    var t := SwapRemove(s, i);
    SwapRemoveDistinct(s, i);
    MapOfDomain(t, key);
    var j :| 0 <= j < |t| && t[j].0 == key;
    SwapRemoveAt(s, i, j);
    MapOfValue(t, j);
    MapOfValue(s, if j == i then |s| - 1 else j);
  }

  lemma SwapRemoveKeeps<K, V>(s: seq<(K, V)>, i: nat, key: K)
    requires i < |s| && key in MapOf(s) && key != s[i].0
    ensures key in MapOf(SwapRemove(s, i))
  {
    var t := SwapRemove(s, i);
    MapOfDomain(s, key);
    var o :| 0 <= o < |s| && s[o].0 == key;
    var j := if o == |s| - 1 then i else o;
    SwapRemoveAt(s, i, j);
    MapOfDomain(t, key);
  }

  /** Swap-with-last removal deletes exactly the removed pair's key from the map. */
  lemma SwapRemoveMap<K, V>(s: seq<(K, V)>, i: nat)
    requires DistinctKeys(s) && i < |s|
    ensures DistinctKeys(SwapRemove(s, i))
    ensures MapOf(SwapRemove(s, i)) == MapOf(s) - {s[i].0}
  {
    var t := SwapRemove(s, i);
    SwapRemoveDistinct(s, i);
    forall key | key in MapOf(t) ensures key in MapOf(s) && key != s[i].0 && MapOf(t)[key] == MapOf(s)[key] {
      SwapRemoveKept(s, i, key);
    }
    forall key | key in MapOf(s) && key != s[i].0 ensures key in MapOf(t) {
      SwapRemoveKeeps(s, i, key);
    }
    assert MapOf(t).Keys == MapOf(s).Keys - {s[i].0};
  }

  class FixedPointerMap<K(==,0), V> {
    /** The template parameter N. */
    const n: nat
    const data: array<(K, Option<V>)>
    var size: nat

    ghost predicate Valid()
      reads this, data
    {
      data.Length == n && size <= n && DistinctKeys(data[..size])
    }

    /** The key-to-pointer map the used pairs stand for. */
    ghost function Map(): map<K, Option<V>>
      reads this, data
      requires size <= data.Length
    {
      MapOf(data[..size])
    }

    constructor (capacity: nat)
      ensures Valid() && n == capacity && size == 0 && Map() == map[] && fresh(data)
    {
      n := capacity;
      data := new (K, Option<V>)[capacity];
      size := 0;
    }

    /** `size()`: the number of keys in the map, at most N. */
    function Size(): (r: nat)
      reads this, data
      requires Valid()
      ensures r <= n && r == |Map()|
    {
      MapOfSize(data[..size]);
      size
    }

    /** `insert(key, value)`: fails on a present key or a full map, changing nothing. */
    method Insert(key: K, value: Option<V>) returns (ok: bool)
      requires Valid()
      modifies this, data
      ensures Valid()
      ensures ok <==> key !in old(Map()) && old(size) < n
      ensures !ok ==> size == old(size) && data[..] == old(data[..])
      ensures ok ==> (size == old(size) + 1 && data[..] == old(data[..])[old(size) := (key, value)])
      ensures ok ==> Map() == old(Map())[key := value]
    {
      for i := 0 to size
        invariant forall j :: 0 <= j < i ==> data[j].0 != key
      {
        if data[i].0 == key {
          MapOfDomain(data[..size], key);
          assert data[..size][i].0 == key;
          return false;
        }
      }
      MapOfDomain(data[..size], key);
      if size < n {
        ghost var before := data[..size];
        data[size] := (key, value);
        size := size + 1;
        assert data[..size] == before + [(key, value)];
        assert data[..size][..size - 1] == before;
        return true;
      }
      return false;
    }

    /** `find(key)`: the pointer stored with `key`, nullptr when the key is absent. */
    method Find(key: K) returns (r: Option<V>)
      requires Valid()
      ensures r == (if key in Map() then Map()[key] else None)
    {
      MapOfDomain(data[..size], key);
      for i := 0 to size
        invariant forall j :: 0 <= j < i ==> data[j].0 != key
      {
        if data[i].0 == key {
          MapOfValue(data[..size], i);
          return data[i].1;
        }
      }
      return None;
    }

    /** `erase(key)`: moves the last pair into the key's slot. */
    method Erase(key: K) returns (ok: bool)
      requires Valid()
      modifies this, data
      ensures Valid()
      ensures ok <==> key in old(Map())
      ensures !ok ==> size == old(size) && data[..] == old(data[..])
      ensures ok ==> FindIndex(old(data[..size]), key) < old(size)
      ensures ok ==> (size == old(size) - 1
                      && data[..size] == SwapRemove(old(data[..size]), FindIndex(old(data[..size]), key)))
      ensures ok ==> Map() == old(Map()) - {key}
    {
      MapOfDomain(data[..size], key);
      for i := 0 to size
        invariant forall j :: 0 <= j < i ==> data[j].0 != key
      {
        if data[i].0 == key {
          ghost var before := data[..size];
          assert FindIndex(before, key) == i;
          data[i] := data[size - 1];
          size := size - 1;
          assert data[..size] == SwapRemove(before, i);
          SwapRemoveMap(before, i);
          return true;
        }
      }
      return false;
    }
  }
}
