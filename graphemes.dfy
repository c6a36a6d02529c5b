/** The double-ended iterators over the grapheme clusters of a text: a front
    cursor and a back cursor walk towards each other over the same text. */
module GraphemeIterators {
  import opened Segments
  import opened GraphemeRules
  import opened GraphemeSegmentation
  import opened GraphemeCursors

  class Graphemes {
    const text: seq<char>
    const gcat: GraphemeTable          // the category table both cursors consult
    const cursor: GraphemeCursor       // next cluster starts here
    const cursorBack: GraphemeCursor   // last unread cluster ends here

    /** Both cursors walk over the text in the same mode and sit on boundaries,
        the front one no later than the back one. */
    ghost predicate Valid()
      reads this, cursor, cursorBack
    {
      && cursor != cursorBack
      && cursor.Valid(gcat, text) && cursorBack.Valid(gcat, text)
      && cursor.isExtended == cursorBack.isExtended
      && cursor.offset <= cursorBack.offset
      && IsGraphemeBoundary(gcat, cursor.isExtended, text, cursor.offset)
      && IsGraphemeBoundary(gcat, cursor.isExtended, text, cursorBack.offset)
    }

    /** The clusters not yet returned from either end, front to back. */
    ghost function Remaining(): seq<seq<char>>
      reads this, cursor, cursorBack
      requires Valid()
    {
      ClustersBetween(gcat, cursor.isExtended, text, cursor.offset, cursorBack.offset)
    }

    /** new_graphemes: a front cursor at 0 and a back cursor at the end of the text. */
    constructor (gcat: GraphemeTable, s: seq<char>, isExtended: bool)
      ensures Valid() && text == s && this.gcat == gcat
      ensures cursor.isExtended == isExtended
      ensures Remaining() == Clusters(gcat, isExtended, s)
      ensures fresh(cursor) && fresh(cursorBack)
    {
      text := s;
      this.gcat := gcat;
      cursor := new GraphemeCursor(0, |s|, isExtended);
      cursorBack := new GraphemeCursor(|s|, |s|, isExtended);
    }

    /** The part of the text not yet returned from either end. */
    function AsStr(): (r: seq<char>)
      reads this, cursor, cursorBack
      requires Valid()
      ensures r == Flatten(Remaining())
    {
      ClustersBetweenPartition(gcat, cursor.isExtended, text, cursor.offset, cursorBack.offset);
      text[cursor.offset..cursorBack.offset]
    }

    /** At least one cluster remains while any text does, and never more clusters than characters. */
    function SizeHint(): (r: (nat, Option<nat>))
      reads this, cursor, cursorBack
      requires Valid()
      ensures r.0 <= |Remaining()|
      ensures r.1.Some? && |Remaining()| <= r.1.value
      ensures r.0 == 0 <==> Remaining() == []
    {
      ClustersBetweenPartition(gcat, cursor.isExtended, text, cursor.offset, cursorBack.offset);
      var slen := cursorBack.offset - cursor.offset;
      (if slen < 1 then slen else 1, Some(slen))
    }

    /** Returns the first remaining cluster and drops it from the front. */
    method Next() returns (r: Option<seq<char>>)
      requires Valid()
      modifies cursor
      ensures Valid() && cursor.isExtended == old(cursor.isExtended)
      ensures old(Remaining()) == [] ==> r == None && Remaining() == old(Remaining())
      ensures old(Remaining()) != [] ==> r == Some(old(Remaining())[0]) && Remaining() == old(Remaining())[1..]
      ensures r.Some? ==> old(cursor.offset) < cursor.offset && r.value == text[old(cursor.offset)..cursor.offset]
    {
      var start := cursor.CurCursor();
      var end := cursorBack.CurCursor();
      if start == end {
        return None;
      }
      var next := cursor.NextBoundary(gcat, text);
      // the text is handed over whole, so a boundary after `start` always exists
      assert next.Some?;
      r := Some(text[start..next.value]);
    }

    /** Returns the last remaining cluster and drops it from the back. */
    method NextBack() returns (r: Option<seq<char>>)
      requires Valid()
      modifies cursorBack
      ensures Valid() && cursor.isExtended == old(cursor.isExtended)
      ensures old(Remaining()) == [] ==> r == None && Remaining() == old(Remaining())
      ensures old(Remaining()) != [] ==>
                r == Some(old(Remaining())[|old(Remaining())| - 1]) &&
                Remaining() == old(Remaining())[..|old(Remaining())| - 1]
      ensures r.Some? ==> cursorBack.offset < old(cursorBack.offset) && r.value == text[cursorBack.offset..old(cursorBack.offset)]
    {
      var end := cursorBack.CurCursor();
      var start := cursor.CurCursor();
      if end == start {
        return None;
      }
      ClustersBetweenSnoc(gcat, cursor.isExtended, text, start, end);
      var prev := cursorBack.PrevBoundary(gcat, text);
      // the text is handed over whole, so a boundary before `end` always exists
      assert prev.Some?;
      r := Some(text[prev.value..end]);
    }
  }

  /** The grapheme iterator that also reports where each cluster starts in the text. */
  class GraphemeIndices {
    const iter: Graphemes

    ghost predicate Valid()
      reads this, iter, iter.cursor, iter.cursorBack
    {
      iter.Valid()
    }

    /** new_grapheme_indices. */
    constructor (gcat: GraphemeTable, s: seq<char>, isExtended: bool)
      ensures Valid() && iter.text == s && iter.gcat == gcat
      ensures iter.Remaining() == Clusters(gcat, isExtended, s)
      ensures fresh(iter) && fresh(iter.cursor) && fresh(iter.cursorBack)
    {
      iter := new Graphemes(gcat, s, isExtended);
    }

    function AsStr(): (r: seq<char>)
      reads this, iter, iter.cursor, iter.cursorBack
      requires Valid()
      ensures r == Flatten(iter.Remaining())
    {
      iter.AsStr()
    }

    function SizeHint(): (r: (nat, Option<nat>))
      reads this, iter, iter.cursor, iter.cursorBack
      requires Valid()
      ensures r.0 <= |iter.Remaining()|
      ensures r.1.Some? && |iter.Remaining()| <= r.1.value
      ensures r.0 == 0 <==> iter.Remaining() == []
    {
      iter.SizeHint()
    }

    /** The first remaining cluster, with the offset in the text where it starts. */
    method Next() returns (r: Option<(nat, seq<char>)>)
      requires Valid()
      modifies iter.cursor
      ensures Valid()
      ensures old(iter.Remaining()) == [] ==> r == None && iter.Remaining() == old(iter.Remaining())
      ensures old(iter.Remaining()) != [] ==>
                && r.Some? && r.value.1 == old(iter.Remaining())[0]
                && r.value.0 == old(iter.cursor.offset)
                && r.value.0 + |r.value.1| <= |iter.text|
                && iter.text[r.value.0..r.value.0 + |r.value.1|] == r.value.1
                && iter.Remaining() == old(iter.Remaining())[1..]
    {
      var start := iter.cursor.CurCursor();
      var s := iter.Next();
      if s.Some? {
        r := Some((start, s.value));
      } else {
        r := None;
      }
    }

    /** The last remaining cluster, with the offset in the text where it starts. */
    method NextBack() returns (r: Option<(nat, seq<char>)>)
      requires Valid()
      modifies iter.cursorBack
      ensures Valid()
      ensures old(iter.Remaining()) == [] ==> r == None && iter.Remaining() == old(iter.Remaining())
      ensures old(iter.Remaining()) != [] ==>
                && r.Some? && r.value.1 == old(iter.Remaining())[|old(iter.Remaining())| - 1]
                && r.value.0 == iter.cursorBack.offset
                && r.value.0 + |r.value.1| == old(iter.cursorBack.offset)
                && iter.text[r.value.0..r.value.0 + |r.value.1|] == r.value.1
                && iter.Remaining() == old(iter.Remaining())[..|old(iter.Remaining())| - 1]
    {
      var s := iter.NextBack();
      if s.Some? {
        var start := iter.cursorBack.CurCursor();
        r := Some((start, s.value));
      } else {
        r := None;
      }
    }
  }
}
