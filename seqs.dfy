/** Sequence operations the service relies on from the Kotlin collections library. */
module Seqs {

  /** No element occurs twice. */
  ghost predicate Distinct<T>(s: seq<T>) {
    forall i, j :: 0 <= i < j < |s| ==> s[i] != s[j]
  }

  /** Kotlin's `list - element`: drops the first occurrence of `x`, if any. */
  function RemoveFirst<T(==)>(s: seq<T>, x: T): (r: seq<T>)
    ensures x !in s ==> r == s
    ensures x in s ==> |r| == |s| - 1
  {
    if s == [] then []
    else if s[0] == x then
      assert s == [s[0]] + s[1..];
      s[1..]
    else
      assert s == [s[0]] + s[1..];
      [s[0]] + RemoveFirst(s[1..], x)
  }

  /** Position of the first occurrence of `x` in `s`. */
  function FirstIndex<T(==)>(s: seq<T>, x: T): (i: nat)
    requires x in s
    ensures i < |s| && s[i] == x && x !in s[..i]
  {
    if s[0] == x then 0 else FirstIndex(s[1..], x) + 1
  }

  /** What is dropped is exactly the first occurrence; everything else keeps its order. */
  lemma {:induction false} RemoveFirstSplices<T>(s: seq<T>, x: T)
    requires x in s
    ensures RemoveFirst(s, x) == s[..FirstIndex(s, x)] + s[FirstIndex(s, x) + 1..]
  {
    if s[0] != x {
      var t := s[1..];
      var k := FirstIndex(t, x);
      var rest := RemoveFirst(t, x);
      assert FirstIndex(s, x) == k + 1;
      assert RemoveFirst(s, x) == [s[0]] + rest;
      assert rest == t[..k] + t[k + 1..] by {
        RemoveFirstSplices(t, x);
      }
      assert s[..k + 1] == [s[0]] + t[..k];
      assert s[k + 2..] == t[k + 1..];
    }
  }

  /** Exactly one copy of `x` is dropped, when there is one. */
  lemma {:induction false} RemoveFirstCounts<T>(s: seq<T>, x: T)
    ensures multiset(RemoveFirst(s, x)) == multiset(s) - multiset{x}
  {
    if s != [] {
      var t := s[1..];
      assert s == [s[0]] + t;
      assert multiset(s) == multiset{s[0]} + multiset(t);
      if s[0] != x {
        RemoveFirstCounts(t, x);
        assert multiset(RemoveFirst(s, x)) == multiset{s[0]} + multiset(RemoveFirst(t, x));
      }
    }
  }

  /** Removing an element just appended to a sequence that did not hold it gives the sequence back. */
  lemma {:induction false} RemoveFirstOfAppended<T>(s: seq<T>, x: T)
    requires x !in s
    ensures RemoveFirst(s + [x], x) == s
  {
    if s != [] {
      assert (s + [x])[1..] == s[1..] + [x];
      RemoveFirstOfAppended(s[1..], x);
      assert [s[0]] + s[1..] == s;
    }
  }

  /** The values of `m` at `keys`, in the order of `keys`. */
  function ValuesInOrder<K, V>(m: map<K, V>, keys: seq<K>): (r: seq<V>)
    requires forall k | k in keys :: k in m
    ensures |r| == |keys|
    ensures forall i :: 0 <= i < |keys| ==> r[i] == m[keys[i]]
  {
    if keys == [] then [] else [m[keys[0]]] + ValuesInOrder(m, keys[1..])
  }

  /** A duplicate-free sequence listing exactly a set's elements has the set's size. */
  lemma {:induction false} DistinctCardinality<T>(s: seq<T>, elems: set<T>)
    requires Distinct(s)
    requires forall x :: x in s <==> x in elems
    ensures |elems| == |s|
  {
    if s != [] {
      var rest := elems - {s[0]};
      forall x ensures x in s[1..] <==> x in rest {
        if x in s[1..] {
          var j :| 0 <= j < |s[1..]| && s[1..][j] == x;
          assert s[j + 1] == x;
        }
        if x in rest {
          var j :| 0 <= j < |s| && s[j] == x;
          assert j != 0;
          assert s[1..][j - 1] == x;
        }
      }
      DistinctCardinality(s[1..], rest);
    }
  }
}
