/** The grapheme-cluster cursor of src/grapheme.rs, on a text supplied whole:
    the chunk handed to every query is the entire text and starts at offset 0. */
module GraphemeCursors {
  import opened Segments
  import opened GraphemeRules
  import opened GraphemeSegmentation

  /** What the cursor knows about the position it is at. */
  datatype GraphemeState = Unknown | NotBreak | Break | CheckCrlf | Regional | Emoji

  class GraphemeCursor {
    var offset: nat                      // current cursor position
    var len: nat                         // total length of the text
    var isExtended: bool
    var state: GraphemeState
    var catBefore: Option<GraphemeCat>   // category of the character just before offset
    var catAfter: Option<GraphemeCat>    // category of the character just after offset
    var risCount: Option<nat>            // regional indicators just before offset

    /** The cursor's cached knowledge agrees with the text s it walks over. */
    ghost predicate Valid(gcat: GraphemeTable, s: seq<char>)
      reads this
    {
      && len == |s| && offset <= len
      && (catBefore.Some? ==> 0 < offset && catBefore.value == gcat(s[offset - 1]))
      && (catAfter.Some? ==> offset < len && catAfter.value == gcat(s[offset]))
      && (risCount.Some? ==> risCount.value == RiRun(gcat, s, offset))
      && state in {GraphemeState.Unknown, GraphemeState.Break, GraphemeState.NotBreak}
      && (state == GraphemeState.Break ==> IsGraphemeBoundary(gcat, isExtended, s, offset))
      && (state == GraphemeState.NotBreak ==> !IsGraphemeBoundary(gcat, isExtended, s, offset))
      && ((offset == 0 || offset == len) ==> state == GraphemeState.Break)
    }

    /** A cursor at `offset` in a text of length `len`; nothing about the text is known yet. */
    constructor (offset: nat, len: nat, isExtended: bool)
      requires offset <= len
      ensures this.offset == offset && this.len == len && this.isExtended == isExtended
      ensures state == if offset == 0 || offset == len then GraphemeState.Break else GraphemeState.Unknown
      ensures catBefore == None && catAfter == None && risCount == None
    {
      this.offset := offset;
      this.len := len;
      this.isExtended := isExtended;
      state := if offset == 0 || offset == len then GraphemeState.Break else GraphemeState.Unknown;
      catBefore := None;
      catAfter := None;
      risCount := None;
    }

    /** Moves the cursor; everything derived from the text around it is forgotten. */
    method SetCursor(offset: nat, ghost gcat: GraphemeTable, ghost s: seq<char>)
      requires Valid(gcat, s) && offset <= len
      modifies this
      ensures Valid(gcat, s)
      ensures this.offset == offset && len == old(len) && isExtended == old(isExtended)
      ensures offset == old(this.offset) ==>
                state == old(state) && catBefore == old(catBefore) && catAfter == old(catAfter) && risCount == old(risCount)
      ensures offset != old(this.offset) ==>
                && state == (if offset == 0 || offset == len then GraphemeState.Break else GraphemeState.Unknown)
                && catBefore == None && catAfter == None && risCount == None
    {
      if offset != this.offset {
        this.offset := offset;
        state := if offset == 0 || offset == len then GraphemeState.Break else GraphemeState.Unknown;
        catBefore := None;
        catAfter := None;
        risCount := None;
      }
    }

    /** The current offset: the last one given to the constructor or SetCursor,
        or returned by NextBoundary or PrevBoundary. */
    method CurCursor() returns (o: nat)
      ensures o == offset
    {
      o := offset;
    }

    method Decide(isBreak: bool)
      modifies this`state
      ensures state == if isBreak then GraphemeState.Break else GraphemeState.NotBreak
    {
      state := if isBreak then GraphemeState.Break else GraphemeState.NotBreak;
    }

    method Decision(isBreak: bool) returns (b: bool)
      modifies this`state
      ensures b == isBreak
      ensures state == if isBreak then GraphemeState.Break else GraphemeState.NotBreak
    {
      Decide(isBreak);
      b := isBreak;
    }

    /** Counts the regional indicators at the end of `chunk` on top of the count
        already known, and decides: a break iff the total is even. */
    method HandleRegional(gcat: GraphemeTable, chunk: seq<char>)
      modifies this`risCount, this`state
      ensures risCount == Some((if old(risCount).Some? then old(risCount).value else 0) + RiRun(gcat, chunk, |chunk|))
      ensures state == if risCount.value % 2 == 0 then GraphemeState.Break else GraphemeState.NotBreak
    {
      var count := if risCount.Some? then risCount.value else 0;
      var i := |chunk|;
      while i > 0
        invariant 0 <= i <= |chunk|
        invariant forall k :: i <= k < |chunk| ==> gcat(chunk[k]) == RegionalIndicator
        invariant count == (if old(risCount).Some? then old(risCount).value else 0) + (|chunk| - i)
        invariant risCount == old(risCount)
      {
        if gcat(chunk[i - 1]) != RegionalIndicator {
          RiRunFromStart(gcat, chunk, i, |chunk| - i);
          risCount := Some(count);
          Decide(count % 2 == 0);
          return;
        }
        count := count + 1;
        i := i - 1;
      }
      RiRunFromStart(gcat, chunk, 0, |chunk|);
      risCount := Some(count);
      // the chunk starts the text, so no earlier context can be asked for
      Decide(count % 2 == 0);
    }

    /** Scans `chunk` backwards over Extend: an emoji base means no break;
        any other category, or the start of the text, means a break. */
    method HandleEmoji(gcat: GraphemeTable, chunk: seq<char>)
      modifies this`state
      ensures state == if EmojiBaseBefore(gcat, chunk, |chunk|) then GraphemeState.NotBreak else GraphemeState.Break
    {
      var i := |chunk|;
      while i > 0
        invariant 0 <= i <= |chunk|
        invariant EmojiBaseBefore(gcat, chunk, |chunk|) == EmojiBaseBefore(gcat, chunk, i)
      {
        match gcat(chunk[i - 1]) {
          case Extend =>
          case EBase | EBaseGaz =>
            Decide(false);
            return;
          case _ =>
            Decide(true);
            return;
        }
        i := i - 1;
      }
      // the chunk starts the text, so no earlier context can be asked for
      Decide(true);
    }

    /** Decides whether the cursor is at a grapheme cluster boundary of s. */
    method IsBoundary(gcat: GraphemeTable, s: seq<char>) returns (b: bool)
      requires Valid(gcat, s)
      modifies this
      ensures Valid(gcat, s)
      ensures b == IsGraphemeBoundary(gcat, isExtended, s, offset)
      ensures state == if b then GraphemeState.Break else GraphemeState.NotBreak
      ensures offset == old(offset) && len == old(len) && isExtended == old(isExtended)
      ensures old(state) != GraphemeState.Unknown ==>
                catBefore == old(catBefore) && catAfter == old(catAfter) && risCount == old(risCount)
      ensures old(state) == GraphemeState.Unknown ==>
                catBefore == Some(gcat(s[offset - 1])) && catAfter == Some(gcat(s[offset]))
    {
      if state == GraphemeState.Break {
        return true;
      }
      if state == GraphemeState.NotBreak {
        return false;
      }
      // An undecided cursor lies strictly inside the text, so on the whole text
      // the checks against the chunk's bounds and its start never fire.
      assert 0 < offset < len;
      if catAfter.None? {
        catAfter := Some(gcat(s[offset]));
      }
      if catBefore.None? {
        catBefore := Some(gcat(s[offset - 1]));
      }
      b := DecidePair(gcat, s);
    }

    /** The decision at an inner position once both neighbouring categories are known:
        check_pair's verdict, refined by the context it asks for. */
    method DecidePair(gcat: GraphemeTable, s: seq<char>) returns (b: bool)
      requires Valid(gcat, s) && 0 < offset < len && state == GraphemeState.Unknown
      requires catBefore == Some(gcat(s[offset - 1])) && catAfter == Some(gcat(s[offset]))
      modifies this`state, this`risCount
      ensures Valid(gcat, s)
      ensures b == IsGraphemeBoundary(gcat, isExtended, s, offset)
      ensures state == if b then GraphemeState.Break else GraphemeState.NotBreak
    {
      match CheckPair(catBefore.value, catAfter.value) {
        case NotBreak =>
          b := Decision(false);
        case Break =>
          b := Decision(true);
        case Extended =>
          b := Decision(!isExtended);
        case CheckCrlf =>
          if s[offset] != '\n' {
            b := Decision(true);
          } else {
            b := Decision(s[offset - 1] != '\r');
          }
        case Regional =>
          if risCount.Some? {
            b := Decision(risCount.value % 2 == 0);
          } else {
            RiRunPrefix(gcat, s, offset);
            HandleRegional(gcat, s[..offset]);
            assert risCount == Some(RiRun(gcat, s, offset));
            b := state == GraphemeState.Break;
          }
        case Emoji =>
          EmojiBaseBeforePrefix(gcat, s, offset, offset);
          HandleEmoji(gcat, s[..offset]);
          b := state == GraphemeState.Break;
      }
    }

    /** Moves the cursor forwards over the character ch just after it, shifting the
        cached categories and extending or restarting the regional-indicator count. */
    method StepForward(gcat: GraphemeTable, s: seq<char>, ch: char) returns (next: char)
      requires Valid(gcat, s) && offset < len && ch == s[offset]
      modifies this
      ensures Valid(gcat, s) && len == old(len) && isExtended == old(isExtended)
      ensures offset == old(offset) + 1
      ensures state == if offset == len then GraphemeState.Break else GraphemeState.Unknown
      ensures offset < len ==> next == s[offset]
      ensures catBefore == Some(gcat(s[offset - 1]))
      ensures catAfter == if offset < len then Some(gcat(s[offset])) else None
      ensures risCount == if gcat(s[offset - 1]) != RegionalIndicator then Some(0)
                          else if old(risCount).Some? then Some(old(risCount).value + 1)
                          else None
    {
      offset := offset + 1;
      state := GraphemeState.Unknown;
      catBefore := catAfter;
      catAfter := None;
      if catBefore.None? {
        catBefore := Some(gcat(ch));
      }
      assert catBefore.value == gcat(s[offset - 1]);
      if catBefore.value == RegionalIndicator {
        risCount := if risCount.Some? then Some(risCount.value + 1) else None;
      } else {
        risCount := Some(0);
      }
      assert risCount.Some? ==> risCount.value == RiRun(gcat, s, offset);
      next := ch;
      if offset < |s| {
        next := s[offset];
        catAfter := Some(gcat(next));
      } else {
        Decide(true);
      }
    }

    /** Moves the cursor backwards over the character ch just before it, shifting the
        cached categories and shortening the regional-indicator count, or forgetting
        it when it was zero. */
    method StepBack(gcat: GraphemeTable, s: seq<char>, ch: char) returns (prev: char)
      requires Valid(gcat, s) && 0 < offset && ch == s[offset - 1]
      modifies this
      ensures Valid(gcat, s) && len == old(len) && isExtended == old(isExtended)
      ensures offset == old(offset) - 1
      ensures state == if offset == 0 then GraphemeState.Break else GraphemeState.Unknown
      ensures offset > 0 ==> prev == s[offset - 1]
      ensures catAfter == old(catBefore)
      ensures catBefore == if offset > 0 then Some(gcat(s[offset - 1])) else None
      ensures risCount == if old(risCount).Some? && old(risCount).value > 0 then Some(old(risCount).value - 1)
                          else None
    {
      offset := offset - 1;
      catAfter := catBefore;
      catBefore := None;
      state := GraphemeState.Unknown;
      if risCount.Some? {
        risCount := if risCount.value > 0 then Some(risCount.value - 1) else None;
      }
      prev := ch;
      if offset > 0 {
        prev := s[offset - 1];
        catBefore := Some(gcat(prev));
      } else {
        Decide(true);
      }
    }

    /** Steps to the least boundary after the cursor; None at the end of the text. */
    method NextBoundary(gcat: GraphemeTable, s: seq<char>) returns (r: Option<nat>)
      requires Valid(gcat, s)
      modifies this
      ensures Valid(gcat, s) && len == old(len) && isExtended == old(isExtended)
      ensures old(offset) == len ==>
                && r == None && offset == old(offset) && state == old(state)
                && catBefore == old(catBefore) && catAfter == old(catAfter) && risCount == old(risCount)
      ensures old(offset) < len ==>
                && r == Some(NextBoundaryAfter(gcat, isExtended, s, old(offset)))
                && offset == r.value && state == GraphemeState.Break
    {
      if offset == len {
        return None;
      }
      var ch := s[offset];
      while true
        invariant Valid(gcat, s) && len == old(len) && isExtended == old(isExtended)
        invariant old(offset) <= offset < len && ch == s[offset]
        invariant forall k :: old(offset) < k <= offset ==> !IsGraphemeBoundary(gcat, isExtended, s, k)
        decreases len - offset
      {
        ch := StepForward(gcat, s, ch);
        var b := IsBoundary(gcat, s);
        if b {
          NextBoundaryIs(gcat, isExtended, s, old(offset), offset);
          return Some(offset);
        }
      }
    }

    /** Steps to the greatest boundary before the cursor; None at the start of the text. */
    method PrevBoundary(gcat: GraphemeTable, s: seq<char>) returns (r: Option<nat>)
      requires Valid(gcat, s)
      modifies this
      ensures Valid(gcat, s) && len == old(len) && isExtended == old(isExtended)
      ensures old(offset) == 0 ==>
                && r == None && offset == old(offset) && state == old(state)
                && catBefore == old(catBefore) && catAfter == old(catAfter) && risCount == old(risCount)
      ensures old(offset) > 0 ==>
                && r == Some(PrevBoundaryBefore(gcat, isExtended, s, old(offset)))
                && offset == r.value && state == GraphemeState.Break
    {
      if offset == 0 {
        return None;
      }
      var ch := s[offset - 1];
      while true
        invariant Valid(gcat, s) && len == old(len) && isExtended == old(isExtended)
        invariant 0 < offset <= old(offset) && ch == s[offset - 1]
        invariant forall k :: offset <= k < old(offset) ==> !IsGraphemeBoundary(gcat, isExtended, s, k)
        decreases offset
      {
        ch := StepBack(gcat, s, ch);
        var b := IsBoundary(gcat, s);
        if b {
          PrevBoundaryIs(gcat, isExtended, s, old(offset), offset);
          return Some(offset);
        }
      }
    }
  }
}
