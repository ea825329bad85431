/** Sequence and set helpers shared by the tree modules. */
module Seqs {

  /** No element occurs twice. */
  predicate Distinct<T(==)>(s: seq<T>) {
    forall i, j :: 0 <= i < j < |s| ==> s[i] != s[j]
  }

  /** The set of arena indices below `n`. */
  function Indices(n: nat): (r: set<nat>)
    ensures forall i: nat :: i in r <==> i < n
  {
    if n == 0 then {} else Indices(n - 1) + {n - 1}
  }

  /** Position of the first occurrence of `x` in `s`. */
  function IndexOf<T(==)>(s: seq<T>, x: T): (k: nat)
    requires x in s
    ensures k < |s| && s[k] == x && x !in s[..k]
  {
    if s[0] == x then 0 else 1 + IndexOf(s[1..], x)
  }

  /** `s` without its first occurrence of `x` (the elements before and after it
      keep their order); `s` itself when `x` does not occur. */
  function RemoveFirst<T(==)>(s: seq<T>, x: T): (r: seq<T>)
    ensures x in s ==> |r| == |s| - 1
    ensures x !in s ==> r == s
    ensures forall y :: y in r ==> y in s
  {
    if x in s then
      var k := IndexOf(s, x);
      s[..k] + s[k + 1..]
    else s
  }

  /** RemoveFirst, one element at a time. */
  lemma RemoveFirstCons<T>(s: seq<T>, x: T)
    requires s != []
    ensures RemoveFirst(s, x) == if s[0] == x then s[1..] else [s[0]] + RemoveFirst(s[1..], x)
  {
    if s[0] != x && x in s {
      var k := IndexOf(s, x);
      assert x in s[1..];
      var k1 := IndexOf(s[1..], x);
      assert k == k1 + 1 by {
        assert s[1..][..k - 1] == s[..k][1..];
        assert x !in s[1..][..k - 1];
        assert s[1..][k - 1] == x;
        assert x !in s[1..][..k1];
      }
      assert s[..k] == [s[0]] + s[1..][..k1];
      assert s[k + 1..] == s[1..][k1 + 1..];
    }
  }

  /** Removing the first occurrence takes exactly one copy of `x` away. */
  lemma RemoveFirstCount<T>(s: seq<T>, x: T)
    ensures multiset(RemoveFirst(s, x)) == multiset(s) - multiset{x}
  {
    if x in s {
      var k := IndexOf(s, x);
      assert s == s[..k] + [x] + s[k + 1..];
    }
  }

  lemma RemoveFirstDistinct<T>(s: seq<T>, x: T)
    requires Distinct(s)
    ensures Distinct(RemoveFirst(s, x))
  {
    if x in s {
      var k := IndexOf(s, x);
      var r := RemoveFirst(s, x);
      forall i, j | 0 <= i < j < |r|
        ensures r[i] != r[j]
      {
        var si := if i < k then i else i + 1;
        var sj := if j < k then j else j + 1;
        assert r[i] == s[si] && r[j] == s[sj];
      }
    }
  }

  lemma IndicesCard(n: nat)
    ensures |Indices(n)| == n
  {
    if n > 0 {
      assert Indices(n) == Indices(n - 1) + {n - 1};
      IndicesCard(n - 1);
    }
  }

  lemma DistinctSetCard<T>(s: seq<T>)
    requires Distinct(s)
    ensures |set x | x in s| == |s|
  {
    if s != [] {
      var tail := s[1..];
      assert (set x | x in s) == (set x | x in tail) + {s[0]};
      forall k | 0 <= k < |tail|
        ensures tail[k] != s[0]
      {
        assert tail[k] == s[k + 1];
      }
      DistinctSetCard(tail);
    }
  }

  lemma SubsetCard<T>(a: set<T>, b: set<T>)
    requires a <= b
    ensures |a| <= |b|
  {
    assert b == a + (b - a);
  }

  /** A duplicate-free sequence of indices below `n` has at most `n` elements. */
  lemma DistinctBound(s: seq<nat>, n: nat)
    requires Distinct(s)
    requires forall k :: 0 <= k < |s| ==> s[k] < n
    ensures |s| <= n
  {
    DistinctSetCard(s);
    SubsetCard((set x | x in s), Indices(n));
    IndicesCard(n);
  }
}
