/**
 Small facts about sequences of indices that the battle model relies on:
 duplicate-freedom, "is a permutation of 0..n-1", and the position of the
 last occurrence of a value.
 */
module Seqs {

  /** No value occurs twice in `s`. */
  ghost predicate NoDup<T>(s: seq<T>) {
    forall i, j :: 0 <= i < j < |s| ==> s[i] != s[j]
  }

  /** Every entry of `s` is a valid index of a roster of size `n`. */
  ghost predicate InRange(s: seq<nat>, n: nat) {
    forall k :: 0 <= k < |s| ==> s[k] < n
  }

  /** `s` lists each of 0, 1, ..., n-1 exactly once. */
  ghost predicate IsPermutation(s: seq<nat>, n: nat) {
    |s| == n && NoDup(s) && InRange(s, n)
  }

  /** The indices of a roster of size `n`. */
  ghost function Range(n: nat): (r: set<nat>)
    ensures forall i :: i in r <==> 0 <= i < n
  {
    if n == 0 then {} else Range(n - 1) + {n - 1}
  }

  lemma {:induction false} RangeCard(n: nat)
    ensures |Range(n)| == n
  {
    if n > 0 {
      var smaller := Range(n - 1);
      RangeCard(n - 1);
      assert n - 1 !in smaller;
      assert |smaller + {n - 1}| == |smaller| + 1;
    }
  }

  /** The values listed in `s`. */
  ghost function Elements<T>(s: seq<T>): set<T> {
    set x | x in s
  }

  lemma {:induction false} NoDupCard<T>(s: seq<T>)
    requires NoDup(s)
    ensures |Elements(s)| == |s|
  {
    if |s| > 0 {
      var init := s[..|s| - 1];
      NoDupCard(init);
      assert Elements(s) == Elements(init) + {s[|s| - 1]};
      assert s[|s| - 1] !in init;
    }
  }

  /** A duplicate-free sequence of indices below `n` that mentions every
      index below `n` is a permutation of 0..n-1: in particular its length
      is exactly `n`. */
  lemma CoverIsPermutation(s: seq<nat>, n: nat)
    requires NoDup(s) && InRange(s, n)
    requires forall i :: 0 <= i < n ==> i in s
    ensures IsPermutation(s, n)
  {
    NoDupCard(s);
    RangeCard(n);
    var elems := Elements(s);
    forall i | i in Range(n) ensures i in elems {
      assert i < n;
    }
    forall i | i in elems ensures i in Range(n) {
      var k :| 0 <= k < |s| && s[k] == i;
    }
    assert elems == Range(n);
  }

  /** Position of the last occurrence of `x` in `s`. */
  function LastIndexOf<T(==)>(s: seq<T>, x: T): (k: nat)
    requires x in s
    ensures k < |s| && s[k] == x
    ensures forall j :: k < j < |s| ==> s[j] != x
  {
    if s[|s| - 1] == x then |s| - 1 else LastIndexOf(s[..|s| - 1], x)
  }

  /** Appending `x` makes it the last occurrence of itself and moves no
      other value's last occurrence. */
  lemma LastIndexOfAppend<T>(s: seq<T>, x: T, y: T)
    requires y in s + [x]
    ensures y == x ==> LastIndexOf(s + [x], y) == |s|
    ensures y != x ==> y in s && LastIndexOf(s + [x], y) == LastIndexOf(s, y)
  {
    if y != x {
      assert (s + [x])[..|s|] == s;
    }
  }

  /** Strictly increasing, as an enumeration of indices is. */
  ghost predicate Increasing(s: seq<nat>) {
    forall k, l :: 0 <= k < l < |s| ==> s[k] < s[l]
  }

  /** Joining two duplicate-free sequences with no value in common gives a
      duplicate-free sequence. */
  lemma NoDupConcat<T>(a: seq<T>, b: seq<T>)
    requires NoDup(a) && NoDup(b)
    requires forall k :: 0 <= k < |b| ==> b[k] !in a
    ensures NoDup(a + b)
  {
    forall i, j | 0 <= i < j < |a + b| ensures (a + b)[i] != (a + b)[j] {
      if i < |a| && j >= |a| {
        assert (a + b)[j] == b[j - |a|];
        assert (a + b)[i] in a;
      }
    }
  }

  /** A permutation of 0..n-1 mentions every index below `n`. */
  lemma PermutationCovers(s: seq<nat>, n: nat, i: nat)
    requires IsPermutation(s, n) && i < n
    ensures i in s
  {
    NoDupCard(s);
    RangeCard(n);
    if i !in s {
      var rest := Range(n) - {i};
      assert Elements(s) <= rest;
      assert |rest| == n - 1;
      SubsetCard(Elements(s), rest);
    }
  }

  lemma {:induction false} SubsetCard<T>(a: set<T>, b: set<T>)
    requires a <= b
    ensures |a| <= |b|
    decreases |b|
  {
    if a != {} {
      var x :| x in a;
      SubsetCard(a - {x}, b - {x});
    }
  }
}
