/** A bounded association list with distinct keys, against a finite map. */
module Assoc {

  datatype Pair<K, V> = Pair(key: K, val: V)

  /** First position of a key, or -1. */
  function IndexOf<K(==), V>(es: seq<Pair<K, V>>, k: K): (r: int)
    ensures -1 <= r < |es|
    ensures r >= 0 ==> es[r].key == k
    ensures forall i :: 0 <= i < (if r == -1 then |es| else r) ==> es[i].key != k
  {
    if es == [] then -1
    else
      var n := |es| - 1;
      var r := IndexOf(es[..n], k);
      if r >= 0 then r else if es[n].key == k then n else -1
  }

  ghost predicate Differ<K, V>(es: seq<Pair<K, V>>, i: int, j: int)
    requires 0 <= i < |es| && 0 <= j < |es|
  {
    es[i].key != es[j].key
  }

  ghost predicate DistinctKeys<K, V>(es: seq<Pair<K, V>>) {
    forall i, j {:trigger Differ(es, i, j)} :: 0 <= i < j < |es| ==> Differ(es, i, j)
  }

  lemma {:induction false} PrefixIsDistinct<K, V>(es: seq<Pair<K, V>>, n: nat)
    requires DistinctKeys(es) && n <= |es|
    ensures DistinctKeys(es[..n])
  {
    forall i, j | 0 <= i < j < n
      ensures Differ(es[..n], i, j)
    {
      assert Differ(es, i, j);
    }
  }

  /** The map a list stands for. */
  ghost function AsMap<K, V>(es: seq<Pair<K, V>>): map<K, V> {
    if es == [] then map[] else AsMap(es[..|es| - 1])[es[|es| - 1].key := es[|es| - 1].val]
  }

  /** Overwrite, or append while there is room. */
  function Put<K(==), V>(es: seq<Pair<K, V>>, k: K, v: V, cap: nat): seq<Pair<K, V>> {
    var i := IndexOf(es, k);
    if i >= 0 then es[i := Pair(k, v)] else if |es| < cap then es + [Pair(k, v)] else es
  }

  function Remove<K(==), V>(es: seq<Pair<K, V>>, k: K): seq<Pair<K, V>> {
    var i := IndexOf(es, k);
    if i >= 0 then es[..i] + es[i + 1..] else es
  }

  lemma {:induction false} LastIsNew<K, V>(es: seq<Pair<K, V>>)
    requires DistinctKeys(es) && es != []
    ensures IndexOf(es[..|es| - 1], es[|es| - 1].key) == -1
  {
    var n := |es| - 1;
    var i := IndexOf(es[..n], es[n].key);
    assert i >= 0 ==> Differ(es, i, n);
  }

  /** Looking a key up in the list is looking it up in the map. */
  lemma {:induction false} LookupIsMap<K, V>(es: seq<Pair<K, V>>, k: K)
    requires DistinctKeys(es)
    ensures IndexOf(es, k) >= 0 <==> k in AsMap(es)
    ensures k in AsMap(es) ==> es[IndexOf(es, k)].val == AsMap(es)[k]
    decreases |es|
  {
    if es != [] {
      PrefixIsDistinct(es, |es| - 1);
      LookupIsMap(es[..|es| - 1], k);
      LastIsNew(es);
    }
  }

  lemma {:induction false} SizeIsMapSize<K, V>(es: seq<Pair<K, V>>)
    requires DistinctKeys(es)
    ensures |AsMap(es)| == |es|
    decreases |es|
  {
    if es != [] {
      var n := |es| - 1;
      PrefixIsDistinct(es, n);
      SizeIsMapSize(es[..n]);
      LastIsNew(es);
      LookupIsMap(es[..n], es[n].key);
      assert AsMap(es).Keys == AsMap(es[..n]).Keys + {es[n].key};
    }
  }

  /** Where a key may stand in a list with distinct keys. */
  lemma {:induction false} OnlyPlace<K, V>(es: seq<Pair<K, V>>, k: K, i: int)
    requires DistinctKeys(es) && 0 <= i < |es| && es[i].key == k
    ensures IndexOf(es, k) == i
  {
    var j := IndexOf(es, k);
    assert j < i ==> Differ(es, j, i);
  }

  ghost predicate SameAt<K, V>(a: map<K, V>, b: map<K, V>, x: K) {
    (x in a <==> x in b) && (x in a ==> a[x] == b[x])
  }

  lemma {:induction false} SameEverywhere<K(!new), V>(a: map<K, V>, b: map<K, V>)
    requires forall x :: SameAt(a, b, x)
    ensures a == b
  {
    forall x
      ensures x in a <==> x in b
      ensures x in a ==> a[x] == b[x]
    {
      assert SameAt(a, b, x);
    }
  }

  /** Put updates the map, unless the key is new and the list full. */
  lemma {:induction false} PutIsUpdate<K(!new), V>(es: seq<Pair<K, V>>, k: K, v: V, cap: nat)
    requires DistinctKeys(es) && |es| <= cap
    ensures var r := Put(es, k, v, cap);
            && DistinctKeys(r) && |r| <= cap
            && AsMap(r) == if k in AsMap(es) || |AsMap(es)| < cap then AsMap(es)[k := v] else AsMap(es)
  {
    SizeIsMapSize(es);
    LookupIsMap(es, k);
    PutKeepsDistinct(es, k, v, cap);
    var r, i := Put(es, k, v, cap), IndexOf(es, k);
    if i >= 0 || |es| < cap {
      var m := AsMap(es)[k := v];
      forall x
        ensures SameAt(AsMap(r), m, x)
      {
        LookupIsMap(r, x);
        LookupIsMap(es, x);
        PutLookup(es, k, v, cap, x);
      }
      SameEverywhere(AsMap(r), m);
    }
  }

  lemma {:induction false} PutKeepsDistinct<K, V>(es: seq<Pair<K, V>>, k: K, v: V, cap: nat)
    requires DistinctKeys(es)
    ensures DistinctKeys(Put(es, k, v, cap))
  {
    var r := Put(es, k, v, cap);
    forall i, j | 0 <= i < j < |r|
      ensures Differ(r, i, j)
    {
      assert j < |es| ==> Differ(es, i, j);
    }
  }

  lemma {:induction false} PutLookup<K, V>(es: seq<Pair<K, V>>, k: K, v: V, cap: nat, x: K)
    requires DistinctKeys(es) && (IndexOf(es, k) >= 0 || |es| < cap)
    ensures var r := Put(es, k, v, cap);
            if x == k then IndexOf(r, x) >= 0 && r[IndexOf(r, x)].val == v
            else IndexOf(r, x) == IndexOf(es, x) && (IndexOf(es, x) >= 0 ==> r[IndexOf(r, x)] == es[IndexOf(es, x)])
  {
    var r, i := Put(es, k, v, cap), IndexOf(es, k);
    PutKeepsDistinct(es, k, v, cap);
    if x == k {
      OnlyPlace(r, k, if i >= 0 then i else |es|);
    } else if IndexOf(es, x) >= 0 {
      OnlyPlace(r, x, IndexOf(es, x));
    }
  }

  /** Remove deletes the key and keeps the order of the rest. */
  lemma {:induction false} RemoveIsDelete<K(!new), V>(es: seq<Pair<K, V>>, k: K)
    requires DistinctKeys(es)
    ensures DistinctKeys(Remove(es, k)) && AsMap(Remove(es, k)) == AsMap(es) - {k}
  {
    var r := Remove(es, k);
    var m := AsMap(es) - {k};
    RemoveKeepsDistinct(es, k);
    forall x
      ensures SameAt(AsMap(r), m, x)
    {
      LookupIsMap(r, x);
      LookupIsMap(es, x);
      RemoveLookup(es, k, x);
    }
    SameEverywhere(AsMap(r), m);
  }

  lemma {:induction false} RemoveKeepsDistinct<K, V>(es: seq<Pair<K, V>>, k: K)
    requires DistinctKeys(es)
    ensures DistinctKeys(Remove(es, k))
  {
    var r, n := Remove(es, k), IndexOf(es, k);
    if n >= 0 {
      forall i, j | 0 <= i < j < |r|
        ensures Differ(r, i, j)
      {
        assert Differ(es, if i < n then i else i + 1, if j < n then j else j + 1);
      }
    }
  }

  lemma {:induction false} RemoveLookup<K, V>(es: seq<Pair<K, V>>, k: K, x: K)
    requires DistinctKeys(es)
    ensures var r := Remove(es, k);
            if x == k then IndexOf(r, x) == -1
            else (IndexOf(r, x) >= 0 <==> IndexOf(es, x) >= 0)
                 && (IndexOf(es, x) >= 0 ==> r[IndexOf(r, x)] == es[IndexOf(es, x)])
  {
    var i := IndexOf(es, k);
    if x == k {
      RemovedIsGone(es, k);
    } else if i >= 0 {
      RemoveKeepsDistinct(es, k);
      OthersStay(es, i, x);
    }
  }

  lemma {:induction false} OthersStay<K, V>(es: seq<Pair<K, V>>, i: nat, x: K)
    requires i < |es| && es[i].key != x && DistinctKeys(es[..i] + es[i + 1..])
    ensures var r := es[..i] + es[i + 1..];
            && (IndexOf(r, x) >= 0 <==> IndexOf(es, x) >= 0)
            && (IndexOf(es, x) >= 0 ==> r[IndexOf(r, x)] == es[IndexOf(es, x)])
  {
    var r, j := es[..i] + es[i + 1..], IndexOf(es, x);
    if j >= 0 {
      OnlyPlace(r, x, if j < i then j else j - 1);
    } else {
      assert forall l :: 0 <= l < |r| ==> r[l] == es[if l < i then l else l + 1];
    }
  }

  lemma {:induction false} RemovedIsGone<K, V>(es: seq<Pair<K, V>>, k: K)
    requires DistinctKeys(es)
    ensures IndexOf(Remove(es, k), k) == -1
  {
    var r, n := Remove(es, k), IndexOf(es, k);
    if n >= 0 {
      forall j | 0 <= j < |r|
        ensures r[j].key != k
      {
        assert if j < n then Differ(es, j, n) else Differ(es, n, j + 1);
      }
    }
  }
}
