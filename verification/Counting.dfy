/** Counting distinct small numbers. */
module Counting {

  ghost predicate Distinct(q: seq<int>) {
    forall j, k :: 0 <= j < k < |q| ==> q[j] != q[k]
  }

  ghost predicate Below(q: seq<int>, n: int) {
    forall j :: 0 <= j < |q| ==> 0 <= q[j] < n
  }

  /** The numbers without the largest possible one. */
  lemma {:induction false} WithoutOne(q: seq<int>, k: nat, n: nat, r: seq<int>)
    requires Below(q, n) && Distinct(q) && k < |q| && q[k] == n - 1 && r == q[..k] + q[k + 1..]
    ensures Below(r, n - 1) && Distinct(r) && |r| == |q| - 1
    ensures forall x :: x in q && x != n - 1 ==> x in r
  {
    forall j | 0 <= j < |r|
      ensures 0 <= r[j] < n - 1 && forall i :: 0 <= i < j ==> r[i] != r[j]
    {
      var at := if j < k then j else j + 1;
      assert r[j] == q[at] && at != k;
      forall i | 0 <= i < j
        ensures r[i] != r[j]
      {
        assert r[i] == q[if i < k then i else i + 1];
      }
    }
    forall x | x in q && x != n - 1
      ensures x in r
    {
      var i :| 0 <= i < |q| && q[i] == x;
      assert x == r[if i < k then i else i - 1];
    }
  }

  /** Distinct numbers below `n`: at most `n` of them. */
  lemma {:induction false} Pigeonhole(q: seq<int>, n: nat)
    requires Below(q, n) && Distinct(q)
    ensures |q| <= n
    decreases n
  {
    if q != [] {
      assert 0 <= q[0] < n;
      if n - 1 in q {
        var k :| 0 <= k < |q| && q[k] == n - 1;
        var r := q[..k] + q[k + 1..];
        WithoutOne(q, k, n, r);
        Pigeonhole(r, n - 1);
      } else {
        Pigeonhole(q, n - 1);
      }
    }
  }

  lemma {:induction false} PigeonholeExact(q: seq<int>, n: nat)
    requires Below(q, n) && Distinct(q)
    requires forall x :: 0 <= x < n ==> x in q
    ensures |q| == n
    decreases n
  {
    if q == [] {
      assert 0 !in q;
    } else {
      assert 0 <= q[0] < n;
      assert n - 1 in q;
      var k :| 0 <= k < |q| && q[k] == n - 1;
      var r := q[..k] + q[k + 1..];
      WithoutOne(q, k, n, r);
      PigeonholeExact(r, n - 1);
    }
  }
}
