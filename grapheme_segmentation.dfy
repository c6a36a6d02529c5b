/** The grapheme clusters of a whole text, read forwards and backwards from the
    boundary predicate. */
module GraphemeSegmentation {
  import opened Segments
  import opened GraphemeRules

  /** The boundary predicate at every position 0..|s| of the text. */
  function BoundaryMarks(gcat: GraphemeTable, extended: bool, s: seq<char>): (marks: seq<bool>)
    ensures |marks| == |s| + 1 && EndsMarked(marks)
    ensures forall i :: 0 <= i <= |s| ==> marks[i] == IsGraphemeBoundary(gcat, extended, s, i)
  {
    seq(|s| + 1, i requires 0 <= i <= |s| => IsGraphemeBoundary(gcat, extended, s, i))
  }

  /** The least boundary after position i. */
  function NextBoundaryAfter(gcat: GraphemeTable, extended: bool, s: seq<char>, i: nat): (j: nat)
    requires i < |s|
    ensures i < j <= |s| && IsGraphemeBoundary(gcat, extended, s, j)
    ensures forall k :: i < k < j ==> !IsGraphemeBoundary(gcat, extended, s, k)
  {
    NextMark(BoundaryMarks(gcat, extended, s), i)
  }

  /** The greatest boundary before position i. */
  function PrevBoundaryBefore(gcat: GraphemeTable, extended: bool, s: seq<char>, i: nat): (j: nat)
    requires 0 < i <= |s|
    ensures j < i && IsGraphemeBoundary(gcat, extended, s, j)
    ensures forall k :: j < k < i ==> !IsGraphemeBoundary(gcat, extended, s, k)
  {
    PrevMark(BoundaryMarks(gcat, extended, s), i)
  }

  /** A boundary after i with none strictly between is the least boundary after i. */
  lemma NextBoundaryIs(gcat: GraphemeTable, extended: bool, s: seq<char>, i: nat, j: nat)
    requires i < j <= |s| && IsGraphemeBoundary(gcat, extended, s, j)
    requires forall k :: i < k < j ==> !IsGraphemeBoundary(gcat, extended, s, k)
    ensures NextBoundaryAfter(gcat, extended, s, i) == j
  {
    var n := NextBoundaryAfter(gcat, extended, s, i);
    assert !(n < j) && !(j < n);
  }

  /** A boundary before i with none strictly between is the greatest boundary before i. */
  lemma PrevBoundaryIs(gcat: GraphemeTable, extended: bool, s: seq<char>, i: nat, j: nat)
    requires j < i <= |s| && IsGraphemeBoundary(gcat, extended, s, j)
    requires forall k :: j < k < i ==> !IsGraphemeBoundary(gcat, extended, s, k)
    ensures PrevBoundaryBefore(gcat, extended, s, i) == j
  {
    var p := PrevBoundaryBefore(gcat, extended, s, i);
    assert !(p < j) && !(j < p);
  }

  /** The boundaries from a to b, in increasing order, found by stepping forwards. */
  function ForwardBoundaries(gcat: GraphemeTable, extended: bool, s: seq<char>, a: nat, b: nat): (bs: seq<nat>)
    requires a <= b <= |s|
    requires IsGraphemeBoundary(gcat, extended, s, a) && IsGraphemeBoundary(gcat, extended, s, b)
  {
    ForwardMarks(BoundaryMarks(gcat, extended, s), a, b)
  }

  /** The clusters between two boundaries a <= b, front to back: the text up to
      the next boundary after a, then the clusters from there on. */
  function ClustersBetween(gcat: GraphemeTable, extended: bool, s: seq<char>, a: nat, b: nat): seq<seq<char>>
    requires a <= b <= |s|
    requires IsGraphemeBoundary(gcat, extended, s, a) && IsGraphemeBoundary(gcat, extended, s, b)
    decreases b - a
  {
    if a == b then []
    else
      var n := NextBoundaryAfter(gcat, extended, s, a);
      [s[a..n]] + ClustersBetween(gcat, extended, s, n, b)
  }

  /** The clusters between a and b are the slices of the text at the boundaries from a to b. */
  lemma {:induction false} ClustersBetweenSlices(gcat: GraphemeTable, extended: bool, s: seq<char>, a: nat, b: nat)
    requires a <= b <= |s|
    requires IsGraphemeBoundary(gcat, extended, s, a) && IsGraphemeBoundary(gcat, extended, s, b)
    ensures ClustersBetween(gcat, extended, s, a, b) == Slices(s, ForwardBoundaries(gcat, extended, s, a, b))
    decreases b - a
  {
    if a < b {
      var marks := BoundaryMarks(gcat, extended, s);
      var n := NextBoundaryAfter(gcat, extended, s, a);
      Adjacent(marks, a, b);
      ClustersBetweenSlices(gcat, extended, s, n, b);
      var rest := ForwardMarks(marks, n, b);
      assert ForwardMarks(marks, a, b) == [a] + rest;
      assert ([a] + rest)[1..] == rest;
    }
  }

  /** Read from the back: the clusters between a and b end with the one from the
      greatest boundary before b. */
  lemma {:induction false} ClustersBetweenSnoc(gcat: GraphemeTable, extended: bool, s: seq<char>, a: nat, b: nat)
    requires a < b <= |s|
    requires IsGraphemeBoundary(gcat, extended, s, a) && IsGraphemeBoundary(gcat, extended, s, b)
    ensures a <= PrevBoundaryBefore(gcat, extended, s, b)
    ensures ClustersBetween(gcat, extended, s, a, b) ==
              ClustersBetween(gcat, extended, s, a, PrevBoundaryBefore(gcat, extended, s, b)) +
              [s[PrevBoundaryBefore(gcat, extended, s, b)..b]]
    decreases b - a
  {
    var n := NextBoundaryAfter(gcat, extended, s, a);
    var p := PrevBoundaryBefore(gcat, extended, s, b);
    if n == b {
      assert p == a;
    } else {
      ClustersBetweenSnoc(gcat, extended, s, n, b);
      assert ClustersBetween(gcat, extended, s, a, p) == [s[a..n]] + ClustersBetween(gcat, extended, s, n, p);
    }
  }

  /** The clusters between a and b concatenate to the text from a to b, none is
      empty, there is at least one when a < b, and no more than b - a. */
  lemma ClustersBetweenPartition(gcat: GraphemeTable, extended: bool, s: seq<char>, a: nat, b: nat)
    requires a <= b <= |s|
    requires IsGraphemeBoundary(gcat, extended, s, a) && IsGraphemeBoundary(gcat, extended, s, b)
    ensures Flatten(ClustersBetween(gcat, extended, s, a, b)) == s[a..b]
    ensures forall k :: 0 <= k < |ClustersBetween(gcat, extended, s, a, b)| ==> |ClustersBetween(gcat, extended, s, a, b)[k]| > 0
    ensures |ClustersBetween(gcat, extended, s, a, b)| <= b - a
    ensures a < b <==> |ClustersBetween(gcat, extended, s, a, b)| >= 1
  {
    var bs := ForwardBoundaries(gcat, extended, s, a, b);
    ClustersBetweenSlices(gcat, extended, s, a, b);
    FlattenSlices(s, bs);
    forall k | 0 <= k < |ClustersBetween(gcat, extended, s, a, b)|
      ensures |ClustersBetween(gcat, extended, s, a, b)[k]| > 0
    {
      SliceAt(s, bs, k);
    }
  }

  /** The grapheme clusters of the whole text, front to back. */
  function Clusters(gcat: GraphemeTable, extended: bool, s: seq<char>): seq<seq<char>>
  {
    ClustersBetween(gcat, extended, s, 0, |s|)
  }

  /** The clusters partition the text: none is empty, together they are the text,
      there are no more clusters than characters, and the boundaries the forward
      scan visits are exactly the boundaries of the text. */
  lemma ClustersPartition(gcat: GraphemeTable, extended: bool, s: seq<char>)
    ensures Flatten(Clusters(gcat, extended, s)) == s
    ensures forall k :: 0 <= k < |Clusters(gcat, extended, s)| ==> |Clusters(gcat, extended, s)[k]| > 0
    ensures |Clusters(gcat, extended, s)| <= |s|
    ensures s != [] <==> |Clusters(gcat, extended, s)| >= 1
    ensures Clusters(gcat, extended, s) == Slices(s, ForwardBoundaries(gcat, extended, s, 0, |s|))
    ensures forall k: nat :: k in ForwardBoundaries(gcat, extended, s, 0, |s|) <==>
                        k <= |s| && IsGraphemeBoundary(gcat, extended, s, k)
  {
    ClustersBetweenPartition(gcat, extended, s, 0, |s|);
    ClustersBetweenSlices(gcat, extended, s, 0, |s|);
    ForwardMarksComplete(BoundaryMarks(gcat, extended, s), 0, |s|);
  }

  /** The clusters between a and b found by stepping backwards from b: the ones
      up to the greatest boundary before b, then the text from there to b. */
  function ClustersBackBetween(gcat: GraphemeTable, extended: bool, s: seq<char>, a: nat, b: nat): seq<seq<char>>
    requires a <= b <= |s|
    requires IsGraphemeBoundary(gcat, extended, s, a) && IsGraphemeBoundary(gcat, extended, s, b)
    decreases b - a
  {
    if a == b then []
    else
      var p := PrevBoundaryBefore(gcat, extended, s, b);
      if p < a then [] // cannot happen: a is a boundary before b
      else ClustersBackBetween(gcat, extended, s, a, p) + [s[p..b]]
  }

  /** Forward/backward agreement: stepping backwards finds the same clusters as stepping forwards. */
  lemma {:induction false} ClustersBackMatchesForward(gcat: GraphemeTable, extended: bool, s: seq<char>, a: nat, b: nat)
    requires a <= b <= |s|
    requires IsGraphemeBoundary(gcat, extended, s, a) && IsGraphemeBoundary(gcat, extended, s, b)
    ensures ClustersBackBetween(gcat, extended, s, a, b) == ClustersBetween(gcat, extended, s, a, b)
    decreases b - a
  {
    if a < b {
      ClustersBetweenSnoc(gcat, extended, s, a, b);
      ClustersBackMatchesForward(gcat, extended, s, a, PrevBoundaryBefore(gcat, extended, s, b));
    }
  }

  /** Reading the whole text from its end yields the clusters in reverse order. */
  lemma ClustersBackward(gcat: GraphemeTable, extended: bool, s: seq<char>)
    ensures ClustersBackBetween(gcat, extended, s, 0, |s|) == Clusters(gcat, extended, s)
  {
    ClustersBackMatchesForward(gcat, extended, s, 0, |s|);
  }

  /** With CR and LF folded into Control, "\n\r\n\r" splits into "\n", "\r\n", "\r";
      read from the back that is "\r", "\r\n", "\n". */
  lemma CrLfExample(gcat: GraphemeTable, extended: bool)
    requires FoldsCrLfIntoControl(gcat)
    ensures Clusters(gcat, extended, "\n\r\n\r") == ["\n", "\r\n", "\r"]
    ensures ClustersBackBetween(gcat, extended, "\n\r\n\r", 0, 4) == ["\n", "\r\n", "\r"]
  {
    var s := "\n\r\n\r";
    assert IsGraphemeBoundary(gcat, extended, s, 1);
    assert !IsGraphemeBoundary(gcat, extended, s, 2);
    assert IsGraphemeBoundary(gcat, extended, s, 3);
    assert NextBoundaryAfter(gcat, extended, s, 0) == 1;
    assert NextBoundaryAfter(gcat, extended, s, 1) == 3;
    assert NextBoundaryAfter(gcat, extended, s, 3) == 4;
    assert ClustersBetween(gcat, extended, s, 3, 4) == [s[3..4]];
    assert ClustersBetween(gcat, extended, s, 1, 4) == [s[1..3]] + ClustersBetween(gcat, extended, s, 3, 4);
    assert ClustersBetween(gcat, extended, s, 0, 4) == [s[0..1]] + ClustersBetween(gcat, extended, s, 1, 4);
    assert s[0..1] == "\n" && s[1..3] == "\r\n" && s[3..4] == "\r";
    ClustersBackward(gcat, extended, s);
  }
}
