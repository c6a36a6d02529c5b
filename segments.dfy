/** Shared vocabulary for segmenting a text at a list of cut offsets. */
module Segments {

  datatype Option<+T> = None | Some(value: T)

  /** Concatenation of a sequence of pieces. */
  function Flatten<T>(parts: seq<seq<T>>): seq<T>
    decreases |parts|
  {
    if parts == [] then [] else parts[0] + Flatten(parts[1..])
  }

  /** Cut offsets that are strictly increasing and lie within a text of length n. */
  ghost predicate ValidCuts(cuts: seq<nat>, n: nat)
  {
    && (forall i, j :: 0 <= i < j < |cuts| ==> cuts[i] < cuts[j])
    && (forall i :: 0 <= i < |cuts| ==> cuts[i] <= n)
  }

  /** The pieces of s between consecutive cut offsets. */
  function Slices<T>(s: seq<T>, cuts: seq<nat>): (r: seq<seq<T>>)
    requires ValidCuts(cuts, |s|)
    ensures |r| == if cuts == [] then 0 else |cuts| - 1
    decreases |cuts|
  {
    if |cuts| < 2 then [] else [s[cuts[0]..cuts[1]]] + Slices(s, cuts[1..])
  }

  lemma {:induction false} SliceAt<T>(s: seq<T>, cuts: seq<nat>, k: nat)
    requires ValidCuts(cuts, |s|)
    requires k + 1 < |cuts|
    ensures Slices(s, cuts)[k] == s[cuts[k]..cuts[k + 1]]
    ensures |Slices(s, cuts)[k]| > 0
    decreases k
  {
    if k > 0 {
      SliceAt(s, cuts[1..], k - 1);
    }
  }

  /** Cutting at increasing offsets loses nothing and duplicates nothing:
      the pieces concatenate back to the text between the first and last cut. */
  lemma {:induction false} FlattenSlices<T>(s: seq<T>, cuts: seq<nat>)
    requires ValidCuts(cuts, |s|)
    requires |cuts| >= 1
    ensures Flatten(Slices(s, cuts)) == s[cuts[0]..cuts[|cuts| - 1]]
    decreases |cuts|
  {
    if |cuts| >= 2 {
      FlattenSlices(s, cuts[1..]);
      assert s[cuts[0]..cuts[1]] + s[cuts[1]..cuts[|cuts| - 1]] == s[cuts[0]..cuts[|cuts| - 1]];
    }
  }

  /** The marked positions from i on, in increasing order. */
  function MarkedFrom(marks: seq<bool>, i: nat): seq<nat>
    requires i <= |marks|
    decreases |marks| - i
  {
    if i == |marks| then [] else (if marks[i] then [i] else []) + MarkedFrom(marks, i + 1)
  }

  /** The marked positions from i on are increasing, lie in i..|marks| - 1, and
      are at most as many as the positions from i on. */
  lemma {:induction false} MarkedFromOrdered(marks: seq<bool>, i: nat)
    requires i <= |marks|
    ensures ValidCuts(MarkedFrom(marks, i), |marks|)
    ensures forall k :: 0 <= k < |MarkedFrom(marks, i)| ==> i <= MarkedFrom(marks, i)[k] < |marks|
    ensures |MarkedFrom(marks, i)| <= |marks| - i
    decreases |marks| - i
  {
    if i < |marks| {
      MarkedFromOrdered(marks, i + 1);
      var rest := MarkedFrom(marks, i + 1);
      var r := MarkedFrom(marks, i);
      if marks[i] {
        assert r == [i] + rest;
        ConsCuts(i, rest, |marks|);
        assert forall k :: 1 <= k < |r| ==> r[k] == rest[k - 1];
      } else {
        assert r == rest;
      }
    }
  }

  /** The list from i on holds exactly the marked positions from i on. */
  lemma {:induction false} MarkedFromMembers(marks: seq<bool>, i: nat)
    requires i <= |marks|
    ensures forall k: nat :: k in MarkedFrom(marks, i) <==> i <= k < |marks| && marks[k]
    decreases |marks| - i
  {
    if i < |marks| {
      MarkedFromMembers(marks, i + 1);
      assert MarkedFrom(marks, i) == (if marks[i] then [i] else []) + MarkedFrom(marks, i + 1);
    }
  }

  /** Increasing cuts in 0..n, none below lo, number at most n + 1 - lo. */
  lemma {:induction false} CutsCount(cuts: seq<nat>, n: nat, lo: nat)
    requires ValidCuts(cuts, n) && lo <= n + 1
    requires forall k :: 0 <= k < |cuts| ==> lo <= cuts[k]
    ensures |cuts| + lo <= n + 1
    decreases |cuts|
  {
    if cuts != [] {
      var rest := cuts[1..];
      assert forall k :: 0 <= k < |rest| ==> rest[k] == cuts[k + 1];
      CutsCount(rest, n, cuts[0] + 1);
    }
  }

  /** A cut below every later cut can be put in front of them. */
  lemma ConsCuts(c: nat, cuts: seq<nat>, n: nat)
    requires ValidCuts(cuts, n) && c <= n
    requires forall k :: 0 <= k < |cuts| ==> c < cuts[k]
    ensures ValidCuts([c] + cuts, n)
  {
    var r := [c] + cuts;
    assert forall k :: 1 <= k < |r| ==> r[k] == cuts[k - 1];
  }

  /** Removing the first cut drops the first piece, the text between the first two cuts. */
  lemma SlicesTail<T>(s: seq<T>, cuts: seq<nat>)
    requires ValidCuts(cuts, |s|)
    requires |cuts| >= 2
    ensures cuts[0] < cuts[1] <= |s| && ValidCuts(cuts[1..], |s|)
    ensures Slices(s, cuts) == [s[cuts[0]..cuts[1]]] + Slices(s, cuts[1..])
  {
  }

  /** Boundary marks for a text of length |marks| - 1: marks[i] says whether
      position i is a boundary; both ends of the text always are. */
  ghost predicate EndsMarked(marks: seq<bool>)
  {
    |marks| >= 1 && marks[0] && marks[|marks| - 1]
  }

  /** The least marked position after i. */
  function NextMark(marks: seq<bool>, i: nat): (j: nat)
    requires EndsMarked(marks) && i < |marks| - 1
    ensures i < j < |marks| && marks[j]
    ensures forall k :: i < k < j ==> !marks[k]
    decreases |marks| - i
  {
    if marks[i + 1] then i + 1 else NextMark(marks, i + 1)
  }

  /** The greatest marked position before i. */
  function PrevMark(marks: seq<bool>, i: nat): (j: nat)
    requires EndsMarked(marks) && 0 < i < |marks|
    ensures j < i && marks[j]
    ensures forall k :: j < k < i ==> !marks[k]
    decreases i
  {
    if marks[i - 1] then i - 1 else PrevMark(marks, i - 1)
  }

  /** Two marked positions with no mark strictly between them are each other's neighbours. */
  lemma Adjacent(marks: seq<bool>, a: nat, b: nat)
    requires EndsMarked(marks) && a < b < |marks| && marks[a] && marks[b]
    ensures NextMark(marks, a) <= b && PrevMark(marks, b) >= a
    ensures NextMark(marks, a) == b <==> PrevMark(marks, b) == a
  {
  }

  /** The marked positions from a to b, in increasing order, found by stepping forwards. */
  function ForwardMarks(marks: seq<bool>, a: nat, b: nat): (bs: seq<nat>)
    requires EndsMarked(marks) && a <= b < |marks| && marks[a] && marks[b]
    ensures 1 <= |bs| <= b - a + 1 && bs[0] == a && bs[|bs| - 1] == b
    ensures a < b ==> |bs| >= 2
    ensures ValidCuts(bs, |marks| - 1)
    ensures forall k :: 0 <= k < |bs| ==> a <= bs[k] <= b
    decreases b - a
  {
    if a == b then [a]
    else
      Adjacent(marks, a, b);
      var rest := ForwardMarks(marks, NextMark(marks, a), b);
      assert forall k :: 0 < k < |rest| ==> rest[0] < rest[k];
      [a] + rest
  }

  /** The forward list holds exactly the marked positions between a and b. */
  lemma {:induction false} ForwardMarksComplete(marks: seq<bool>, a: nat, b: nat)
    requires EndsMarked(marks) && a <= b < |marks| && marks[a] && marks[b]
    ensures forall k :: k in ForwardMarks(marks, a, b) <==> a <= k <= b && marks[k]
    decreases b - a
  {
    if a < b {
      Adjacent(marks, a, b);
      var n := NextMark(marks, a);
      ForwardMarksComplete(marks, n, b);
      assert ForwardMarks(marks, a, b) == [a] + ForwardMarks(marks, n, b);
    }
  }
}
