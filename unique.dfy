/** pandas' `Series.unique()`: distinct values in order of first appearance. */
module Unique {

  /** Position of the first occurrence of `x` in `s`. */
  function FirstIndex<T(==)>(s: seq<T>, x: T): (k: nat)
    requires x in s
    ensures k < |s| && s[k] == x && x !in s[..k]
    decreases |s|
  {
    if s[0] == x then 0
    else
      var k := 1 + FirstIndex(s[1..], x);
      assert s[..k] == [s[0]] + s[1..][..k - 1];
      k
  }

  /** Keeps the first occurrence of each value, dropping later repeats. */
  function Distinct<T(==)>(s: seq<T>): (r: seq<T>)
    ensures forall k :: 0 <= k < |r| ==> r[k] in s
    ensures forall k :: 0 <= k < |s| ==> s[k] in r
    ensures forall i, j :: 0 <= i < j < |r| ==> r[i] != r[j]
    decreases |s|
  {
    if s == [] then []
    else
      var p := Distinct(s[..|s| - 1]);
      assert s == s[..|s| - 1] + [s[|s| - 1]];
      if s[|s| - 1] in p then p else p + [s[|s| - 1]]
  }

  lemma FirstIndexInPrefix<T>(s: seq<T>, n: nat, x: T)
    requires n <= |s| && x in s[..n]
    ensures FirstIndex(s, x) == FirstIndex(s[..n], x)
  {
    var m := FirstIndex(s[..n], x);
    assert s[..n][..m] == s[..m];
  }

  /** The distinct values come out in the order in which each first appears. */
  lemma {:induction false} DistinctFirstSeenOrder<T>(s: seq<T>)
    ensures var r := Distinct(s);
      forall i, j :: 0 <= i < j < |r| ==> FirstIndex(s, r[i]) < FirstIndex(s, r[j])
    decreases |s|
  {
    if s != [] {
      DistinctFirstSeenOrder(s[..|s| - 1]);
      forall i, j | 0 <= i < j < |Distinct(s)|
        ensures FirstIndex(s, Distinct(s)[i]) < FirstIndex(s, Distinct(s)[j])
      {
        DistinctOrderStep(s, i, j);
      }
    }
  }

  /** One pair of the inductive step: the order found on the prefix carries over to `s`. */
  lemma DistinctOrderStep<T>(s: seq<T>, i: nat, j: nat)
    requires s != []
    requires var p := Distinct(s[..|s| - 1]);
      forall i', j' :: 0 <= i' < j' < |p| ==> FirstIndex(s[..|s| - 1], p[i']) < FirstIndex(s[..|s| - 1], p[j'])
    requires i < j < |Distinct(s)|
    ensures FirstIndex(s, Distinct(s)[i]) < FirstIndex(s, Distinct(s)[j])
  {
    var n := |s| - 1;
    var p := Distinct(s[..n]);
    DistinctSnoc(s);
    FirstIndexInPrefix(s, n, p[i]);
    if j < |p| {
      FirstIndexInPrefix(s, n, p[j]);
    } else {
      LastIsNew(s);
    }
  }

  /** How `Distinct` grows by one element, and that a value it adds is new. */
  lemma DistinctSnoc<T>(s: seq<T>)
    requires s != []
    ensures var p := Distinct(s[..|s| - 1]);
      && Distinct(s) == (if s[|s| - 1] in p then p else p + [s[|s| - 1]])
      && (s[|s| - 1] !in p ==> s[|s| - 1] !in s[..|s| - 1])
  {
    var front := s[..|s| - 1];
    var p := Distinct(front);
    if s[|s| - 1] in front {
      var k :| 0 <= k < |front| && front[k] == s[|s| - 1];
      assert front[k] in p;
    }
  }

  /** A value seen only at the last position has that position as its first index. */
  lemma LastIsNew<T>(s: seq<T>)
    requires s != [] && s[|s| - 1] !in s[..|s| - 1]
    ensures FirstIndex(s, s[|s| - 1]) == |s| - 1
  {
    forall k | 0 <= k < |s| - 1 ensures s[k] != s[|s| - 1] {
      assert s[..|s| - 1][k] == s[k];
    }
  }
}
