/**
 * Duplicate-free sequences and the first-occurrence deduplication that
 * `[...new Set(xs)]` performs: a JavaScript Set iterates in insertion
 * order, so each value appears once, where it was first seen.
 */
module Sequences {

  predicate NoDuplicates<T(==)>(s: seq<T>)
  {
    forall i, j :: 0 <= i < j < |s| ==> s[i] != s[j]
  }

  /** Index of the first occurrence of `x` in `s`. */
  function FirstIndex<T(==)>(s: seq<T>, x: T): (k: nat)
    requires x in s
    ensures k < |s| && s[k] == x
    ensures forall j :: 0 <= j < k ==> s[j] != x
  {
    if s[0] == x then 0 else 1 + FirstIndex(s[1..], x)
  }

  /** `[...new Set(s)]`: the distinct elements of `s`, in order of first occurrence. */
  function Distinct<T(==, !new)>(s: seq<T>): (r: seq<T>)
    decreases |s|
    ensures NoDuplicates(r)
    ensures forall x :: x in r <==> x in s
    ensures |r| <= |s|
  {
    if |s| == 0 then []
    else
      var prefix := Distinct(s[..|s| - 1]);
      var last := s[|s| - 1];
      assert forall x :: x in s <==> x in s[..|s| - 1] || x == last;
      if last in prefix then prefix else prefix + [last]
  }

  /** A value first seen at the same place in `s` and in a longer sequence extending `s`. */
  lemma FirstIndexPrefix<T>(s: seq<T>, t: seq<T>, x: T)
    requires s <= t && x in s
    ensures x in t && FirstIndex(t, x) == FirstIndex(s, x)
  {
    var k := FirstIndex(s, x);
    assert t[k] == x;
    assert forall j :: 0 <= j < |s| ==> s[j] == t[j];
  }

  /** Deduplication keeps the order in which values are first seen. */
  lemma {:induction false} DistinctFirstSeenOrder<T(!new)>(s: seq<T>)
    ensures forall i, j :: 0 <= i < j < |Distinct(s)| ==> FirstIndex(s, Distinct(s)[i]) < FirstIndex(s, Distinct(s)[j])
    decreases |s|
  {
    if |s| > 0 {
      var init := s[..|s| - 1];
      var last := s[|s| - 1];
      var p := Distinct(init);
      DistinctFirstSeenOrder(init);
      var r := Distinct(s);
      forall i, j | 0 <= i < j < |r|
        ensures FirstIndex(s, r[i]) < FirstIndex(s, r[j])
      {
        assert r[i] == p[i];
        FirstIndexPrefix(init, s, r[i]);
        if j < |p| {
          assert r[j] == p[j];
          FirstIndexPrefix(init, s, r[j]);
          assert FirstIndex(init, p[i]) < FirstIndex(init, p[j]);
        } else {
          assert r[j] == last && last !in init;
          assert forall k :: 0 <= k < |init| ==> init[k] == s[k];
          assert FirstIndex(s, r[j]) == |s| - 1;
        }
      }
    }
  }

  /**
   * Keeping the first `n` deduplicated values keeps exactly the values
   * first seen before every dropped one: if a kept value is first seen
   * after some other value, that other value is kept too.
   */
  lemma DistinctPrefixClosed<T(!new)>(s: seq<T>, n: nat, x: T, y: T)
    requires x in Distinct(s)[..if n <= |Distinct(s)| then n else |Distinct(s)|]
    requires y in s && FirstIndex(s, y) <= FirstIndex(s, x)
    ensures y in Distinct(s)[..if n <= |Distinct(s)| then n else |Distinct(s)|]
  {
    var r := Distinct(s);
    var m := if n <= |r| then n else |r|;
    DistinctFirstSeenOrder(s);
    var i :| 0 <= i < m && r[..m][i] == x;
    assert y in r;
    var j :| 0 <= j < |r| && r[j] == y;
    assert r[i] == x;
    assert FirstIndex(s, r[j]) <= FirstIndex(s, r[i]);
    assert j <= i;
    assert r[..m][j] == y;
  }
}
