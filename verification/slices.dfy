/**
 `two_mut`: two exclusive views of distinct slots of one slice, obtained by
 splitting the slice at the larger index. In a value model the two views
 are the two elements read out of the split halves, and the mutation
 through them is the write-back of both halves.
 */
module Slices {

  /** The pair (slot i, slot j) read out of the two halves of a split at
      max(i, j). */
  function TwoMut<T>(s: seq<T>, i: nat, j: nat): (r: (T, T))
    requires i != j
    requires i < |s| && j < |s|
    ensures r.0 == s[i] && r.1 == s[j]
  {
    if i < j then
      var first, rest := s[..j], s[j..];
      (first[i], rest[0])
    else
      var first, rest := s[..i], s[i..];
      (rest[0], first[j])
  }

  /** Writes `x` into slot i and `y` into slot j through the two halves of
      the same split, then rejoins them. */
  function WriteBack<T>(s: seq<T>, i: nat, j: nat, x: T, y: T): (r: seq<T>)
    requires i != j
    requires i < |s| && j < |s|
    ensures |r| == |s|
    ensures r[i] == x && r[j] == y
    ensures forall k :: 0 <= k < |s| && k != i && k != j ==> r[k] == s[k]
  {
    if i < j then
      var first, rest := s[..j], s[j..];
      first[i := x] + rest[0 := y]
    else
      var first, rest := s[..i], s[i..];
      first[j := y] + rest[0 := x]
  }

  /** Because the slots differ, the two writes commute and do not clobber
      each other: the split-and-rejoin is the pair of point updates in
      either order. */
  lemma WriteBackIsDisjoint<T>(s: seq<T>, i: nat, j: nat, x: T, y: T)
    requires i != j
    requires i < |s| && j < |s|
    ensures WriteBack(s, i, j, x, y) == s[i := x][j := y]
    ensures WriteBack(s, i, j, x, y) == s[j := y][i := x]
  {
  }
}
