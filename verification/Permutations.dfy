/** Permutations of 0 .. n, as sequences. */
module Permutations {
  ghost predicate Distinct(s: seq<nat>) { forall i, j :: 0 <= i < j < |s| ==> s[i] != s[j] }

  ghost predicate Permutation(p: seq<nat>) {
    && (forall i :: 0 <= i < |p| ==> p[i] < |p|)
    && Distinct(p)
  }

  ghost function Below(n: nat): (s: set<nat>)
    ensures |s| == n && forall x: nat :: x in s <==> x < n
  {
    if n == 0 then {} else Below(n - 1) + {n - 1}
  }

  ghost function Values(p: seq<nat>): (s: set<nat>)
    ensures forall x :: x in s <==> x in p
  {
    set x | x in p
  }

  lemma {:induction false} DistinctValues(p: seq<nat>)
    requires Distinct(p)
    ensures |Values(p)| == |p|
    decreases |p|
  {
    if p != [] {
      var q := p[..|p| - 1];
      DistinctValues(q);
      assert Values(p) == Values(q) + {p[|p| - 1]};
      assert p[|p| - 1] !in q;
    }
  }

  lemma {:induction false} SubsetSize(a: set<nat>, b: set<nat>)
    requires a <= b && |a| == |b|
    ensures a == b
    decreases |a|
  {
    if a == {} {
      assert b == {};
    } else {
      var x :| x in a;
      SubsetSize(a - {x}, b - {x});
      assert a == (a - {x}) + {x} && b == (b - {x}) + {x};
    }
  }

  /** Every number below the length occurs. */
  lemma Occurs(p: seq<nat>, x: nat) returns (i: nat)
    requires Permutation(p) && x < |p|
    ensures i < |p| && p[i] == x
  {
    DistinctValues(p);
    SubsetSize(Values(p), Below(|p|));
    assert x in p;
    i :| 0 <= i < |p| && p[i] == x;
  }
}
