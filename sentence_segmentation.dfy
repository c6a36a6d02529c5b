/** The sentence breaks of a whole text as the forward scan finds them, and the
    unbounded history of which its four-slot window is the tail. */
module SentenceSegmentation {
  import opened Segments
  import opened SentenceRules

  /** The window in front of position i: the scan's state after the first i characters. */
  function StateAt(scat: SentenceTable, s: seq<char>, i: nat): Parts
    requires i <= |s|
    decreases i
  {
    if i == 0 then InitialState else Advance(StateAt(scat, s, i - 1), scat(s[i - 1]))
  }

  /** The scan reports a break before character i. */
  predicate IsBreakAt(scat: SentenceTable, s: seq<char>, i: nat)
    requires i < |s|
  {
    Decide(scat, StateAt(scat, s, i), scat(s[i]), s[i..]) == Break
  }

  /** Which characters the scan reports a break before. */
  function BreakMarks(scat: SentenceTable, s: seq<char>): (m: seq<bool>)
    ensures |m| == |s| && forall k :: 0 <= k < |s| ==> m[k] == IsBreakAt(scat, s, k)
  {
    seq(|s|, k requires 0 <= k < |s| => IsBreakAt(scat, s, k))
  }

  /** The breaks the scan reports before characters i, i + 1, ..., in order. */
  function BreaksFrom(scat: SentenceTable, s: seq<char>, i: nat): seq<nat>
    requires i <= |s|
  {
    MarkedFrom(BreakMarks(scat, s), i)
  }

  /** Every offset the scan reports for s: the breaks before characters, then the
      end of the text unless the text is empty. */
  function SentenceBreakList(scat: SentenceTable, s: seq<char>): seq<nat>
  {
    BreaksFrom(scat, s, 0) + (if s == [] then [] else [|s|])
  }

  /** The breaks from i on are increasing, lie in i..|s| - 1, and are exactly the
      positions there that the scan breaks before. */
  lemma BreaksFromSpec(scat: SentenceTable, s: seq<char>, i: nat)
    requires i <= |s|
    ensures ValidCuts(BreaksFrom(scat, s, i), |s|)
    ensures forall k :: 0 <= k < |BreaksFrom(scat, s, i)| ==> i <= BreaksFrom(scat, s, i)[k] < |s|
    ensures forall k: nat :: k in BreaksFrom(scat, s, i) <==> i <= k < |s| && IsBreakAt(scat, s, k)
    ensures |BreaksFrom(scat, s, i)| <= |s| - i
  {
    MarkedFromOrdered(BreakMarks(scat, s), i);
    MarkedFromMembers(BreakMarks(scat, s), i);
  }

  /** One step of the scan at character i: the decision taken there says whether i
      is reported, and the window it leaves (the old one on Restore, the shifted one
      otherwise) is the window in front of i + 1. */
  lemma ScanStep(scat: SentenceTable, s: seq<char>, i: nat)
    requires i < |s|
    ensures var step := Decide(scat, StateAt(scat, s, i), scat(s[i]), s[i..]);
            && (step == Restore ==> StateAt(scat, s, i + 1) == StateAt(scat, s, i))
            && (step != Restore ==> StateAt(scat, s, i + 1) == NextState(StateAt(scat, s, i), scat(s[i])))
            && BreaksFrom(scat, s, i) == (if step == Break then [i] else []) + BreaksFrom(scat, s, i + 1)
            && StateAt(scat, s, i + 1)[3] != StatePart.Sot && StateAt(scat, s, i + 1)[3] != StatePart.Eot
  {
    DecideRestores(scat, StateAt(scat, s, i), scat(s[i]), s[i..]);
    StateAtSlots(scat, s, i + 1);
  }

  /** The first slot of the scan's history: the start of the text exactly at position 0,
      and the end of the text never. */
  lemma {:induction false} StateAtSlots(scat: SentenceTable, s: seq<char>, i: nat)
    requires i <= |s|
    ensures StateAt(scat, s, i)[3] == StatePart.Sot <==> i == 0
    ensures forall k :: 0 <= k < 4 ==> StateAt(scat, s, i)[k] != StatePart.Eot
    decreases i
  {
    if i > 0 {
      StateAtSlots(scat, s, i - 1);
      var w := StateAt(scat, s, i - 1);
      NextStateShifts(w, scat(s[i - 1]));
    }
  }

  /** The offsets reported for s (SB1, SB2): none for the empty text; otherwise 0
      first and |s| last, strictly increasing, and exactly the positions the scan
      breaks before together with the end of the text. */
  lemma SentenceBreakListSpec(scat: SentenceTable, s: seq<char>)
    ensures s == [] ==> SentenceBreakList(scat, s) == []
    ensures s != [] ==> |SentenceBreakList(scat, s)| >= 2
    ensures s != [] ==> SentenceBreakList(scat, s)[0] == 0
    ensures s != [] ==> SentenceBreakList(scat, s)[|SentenceBreakList(scat, s)| - 1] == |s|
    ensures ValidCuts(SentenceBreakList(scat, s), |s|)
    ensures forall k: nat :: k in SentenceBreakList(scat, s) <==>
              (k < |s| && IsBreakAt(scat, s, k)) || (s != [] && k == |s|)
  {
    BreaksFromSpec(scat, s, 0);
    var bs := BreaksFrom(scat, s, 0);
    var l := SentenceBreakList(scat, s);
    if s != [] {
      assert IsBreakAt(scat, s, 0);
      assert bs == [0] + BreaksFrom(scat, s, 1);
      assert l == bs + [|s|];
      forall i, j | 0 <= i < j < |l|
        ensures l[i] < l[j]
      {
        if j == |l| - 1 {
          assert l[i] == bs[i];
        }
      }
    }
  }

  /** SB3: a CR followed by LF is never split. */
  lemma Sb3(scat: SentenceTable, s: seq<char>, i: nat)
    requires 0 < i < |s|
    requires scat(s[i - 1]) == SentenceCat.CR && scat(s[i]) == SentenceCat.LF
    ensures !IsBreakAt(scat, s, i)
  {
  }

  /** SB4: after a paragraph separator there is always a break, unless it is CR
      followed by LF. */
  lemma Sb4(scat: SentenceTable, s: seq<char>, i: nat)
    requires 0 < i < |s|
    requires scat(s[i - 1]) in {SentenceCat.Sep, SentenceCat.CR, SentenceCat.LF}
    requires !(scat(s[i - 1]) == SentenceCat.CR && scat(s[i]) == SentenceCat.LF)
    ensures IsBreakAt(scat, s, i)
  {
  }

  /** SB5: an Extend or Format character that neither starts the text nor follows
      a paragraph separator is no break and leaves the window as it was, so it
      changes no later decision. */
  lemma Sb5(scat: SentenceTable, s: seq<char>, i: nat)
    requires 0 < i < |s|
    requires scat(s[i]) in {SentenceCat.Extend, SentenceCat.Format}
    requires !IsParaSep(StateAt(scat, s, i)[3])
    ensures !IsBreakAt(scat, s, i)
    ensures StateAt(scat, s, i + 1) == StateAt(scat, s, i)
  {
    StateAtSlots(scat, s, i);
  }

  /** The last slot of a history, or the start of the text for an empty one. */
  function LastSlot(h: seq<StatePart>): StatePart
  {
    if h == [] then StatePart.Sot else h[|h| - 1]
  }

  /** One character of category c added to a history: nothing for an Extend or
      Format that neither starts the text nor follows a paragraph separator, or for
      a Close or Sp joining a run of its kind; the character's slot otherwise. */
  function HistoryStep(h: seq<StatePart>, c: SentenceCat): seq<StatePart>
  {
    var last := LastSlot(h);
    if (c == SentenceCat.Extend || c == SentenceCat.Format) && last != StatePart.Sot && !IsParaSep(last) then h
    else if JoinsRun(last, c) then h
    else h + [PartOf(c)]
  }

  /** The history of the first i characters. */
  function History(scat: SentenceTable, s: seq<char>, i: nat): seq<StatePart>
    requires i <= |s|
    decreases i
  {
    if i == 0 then [] else HistoryStep(History(scat, s, i - 1), scat(s[i - 1]))
  }

  /** No two Close runs and no two Sp runs are adjacent, and no slot is the start of the text. */
  ghost predicate Collapsed(h: seq<StatePart>)
  {
    && (forall k :: 0 <= k < |h| ==> h[k] != StatePart.Sot)
    && (forall k :: 0 < k < |h| ==> !(h[k - 1] == StatePart.ClosePlus && h[k] == StatePart.ClosePlus))
    && (forall k :: 0 < k < |h| ==> !(h[k - 1] == StatePart.SpPlus && h[k] == StatePart.SpPlus))
  }

  /** The slot j places from the end of the history, or the start of the text
      when the history is shorter. */
  function FromEnd(h: seq<StatePart>, j: nat): StatePart
    requires 1 <= j
  {
    if |h| >= j then h[|h| - j] else StatePart.Sot
  }

  /** The last four slots of the history, padded with the start of the text. */
  function LastFour(h: seq<StatePart>): Parts
  {
    [FromEnd(h, 4), FromEnd(h, 3), FromEnd(h, 2), FromEnd(h, 1)]
  }

  /** Appending a slot to the history shifts its last four. */
  lemma LastFourSnoc(h: seq<StatePart>, p: StatePart)
    ensures LastFour(h + [p]) == [FromEnd(h, 3), FromEnd(h, 2), FromEnd(h, 1), p]
  {
    var h' := h + [p];
    assert FromEnd(h', 4) == FromEnd(h, 3);
    assert FromEnd(h', 3) == FromEnd(h, 2);
    assert FromEnd(h', 2) == FromEnd(h, 1);
  }

  /** A character the history does not record leaves the window as it was. */
  lemma AdvanceKeeps(h: seq<StatePart>, c: SentenceCat)
    requires HistoryStep(h, c) == h
    ensures Advance(LastFour(h), c) == LastFour(h)
  {
    assert LastFour(h)[3] == LastSlot(h);
  }

  /** A character the history records shifts the window by its slot. */
  lemma AdvanceAppends(h: seq<StatePart>, c: SentenceCat)
    requires HistoryStep(h, c) != h
    ensures HistoryStep(h, c) == h + [PartOf(c)]
    ensures Advance(LastFour(h), c) == LastFour(h + [PartOf(c)])
  {
    var w := LastFour(h);
    assert w[3] == LastSlot(h);
    assert !JoinsRun(w[3], c) && !Absorbed(w, c);
    LastFourSnoc(h, PartOf(c));
  }

  /** A history step never puts two runs of the same kind side by side. */
  lemma HistoryStepCollapsed(h: seq<StatePart>, c: SentenceCat)
    requires Collapsed(h)
    ensures Collapsed(HistoryStep(h, c))
  {
    if HistoryStep(h, c) != h {
      var h' := h + [PartOf(c)];
      assert forall k :: 0 <= k < |h| ==> h'[k] == h[k];
    }
  }

  /** The window the scan keeps is the tail of the unbounded history, and that
      history has no adjacent runs of the same kind. */
  lemma {:induction false} WindowIsHistoryTail(scat: SentenceTable, s: seq<char>, i: nat)
    requires i <= |s|
    ensures StateAt(scat, s, i) == LastFour(History(scat, s, i))
    ensures Collapsed(History(scat, s, i))
    decreases i
  {
    if i > 0 {
      WindowIsHistoryTail(scat, s, i - 1);
      var h := History(scat, s, i - 1);
      var c := scat(s[i - 1]);
      HistoryStepCollapsed(h, c);
      if HistoryStep(h, c) == h {
        AdvanceKeeps(h, c);
      } else {
        AdvanceAppends(h, c);
      }
    }
  }

  /** All trailing copies of p removed. */
  function DropTrailing(h: seq<StatePart>, p: StatePart): (t: seq<StatePart>)
    ensures |t| <= |h| && t == h[..|t|]
    ensures t == [] || t[|t| - 1] != p
    decreases |h|
  {
    if h != [] && h[|h| - 1] == p then DropTrailing(h[..|h| - 1], p) else h
  }

  /** The history ends in STerm or ATerm. */
  predicate EndsSATerm(h: seq<StatePart>)
  {
    h != [] && IsSATerm(h[|h| - 1])
  }

  /** SATerm Close*, read on the whole history. */
  predicate HistorySb9(h: seq<StatePart>)
  {
    EndsSATerm(DropTrailing(h, StatePart.ClosePlus))
  }

  /** SATerm Close* Sp*, read on the whole history. */
  predicate HistorySb8a(h: seq<StatePart>)
  {
    EndsSATerm(DropTrailing(DropTrailing(h, StatePart.SpPlus), StatePart.ClosePlus))
  }

  /** ATerm Close* Sp*, read on the whole history. */
  predicate HistorySb8Term(h: seq<StatePart>)
  {
    var t := DropTrailing(DropTrailing(h, StatePart.SpPlus), StatePart.ClosePlus);
    t != [] && t[|t| - 1] == StatePart.ATerm
  }

  /** SATerm Close* Sp* ParaSep?, read on the whole history. */
  predicate HistorySb11(h: seq<StatePart>)
  {
    HistorySb8a(if h != [] && IsParaSep(h[|h| - 1]) then h[..|h| - 1] else h)
  }

  /** On a collapsed history, removing trailing copies of a run slot removes at most one. */
  lemma DropTrailingRun(h: seq<StatePart>, p: StatePart)
    requires Collapsed(h) && (p == StatePart.ClosePlus || p == StatePart.SpPlus)
    ensures DropTrailing(h, p) == if h != [] && h[|h| - 1] == p then h[..|h| - 1] else h
    ensures Collapsed(DropTrailing(h, p))
  {
    if h != [] && h[|h| - 1] == p {
      var h1 := h[..|h| - 1];
      assert h1 == [] || h1[|h1| - 1] != p;
    }
  }

  /** The lookback of match_sb9 decides the same as SATerm Close* on the whole collapsed history. */
  lemma LookbackSb9(h: seq<StatePart>)
    requires Collapsed(h)
    ensures MatchSb9(LastFour(h)) == HistorySb9(h)
  {
    DropTrailingRun(h, StatePart.ClosePlus);
  }

  /** Stepping back over one Sp run and one Close run in the window reaches the
      slot that ends the history once its trailing Sp and Close runs are removed. */
  lemma LookbackSpClose(h: seq<StatePart>)
    requires Collapsed(h)
    ensures var t := DropTrailing(DropTrailing(h, StatePart.SpPlus), StatePart.ClosePlus);
            var w := LastFour(h);
            (t == [] ==> w[SkipSpClose(w)] == StatePart.Sot) &&
            (t != [] ==> w[SkipSpClose(w)] == t[|t| - 1])
  {
    var n := |h|;
    var w := LastFour(h);
    DropTrailingRun(h, StatePart.SpPlus);
    var t1 := DropTrailing(h, StatePart.SpPlus);
    DropTrailingRun(t1, StatePart.ClosePlus);
    if n > 0 && h[n - 1] == StatePart.SpPlus {
      assert t1 == h[..n - 1] && SkipSpClose(w) <= 2;
      if n > 1 && h[n - 2] == StatePart.ClosePlus {
        assert SkipSpClose(w) == 1 && w[1] == if n >= 3 then h[n - 3] else StatePart.Sot;
      } else {
        assert SkipSpClose(w) == 2 && w[2] == if n >= 2 then h[n - 2] else StatePart.Sot;
      }
    } else {
      assert t1 == h;
      if n > 0 && h[n - 1] == StatePart.ClosePlus {
        assert SkipSpClose(w) == 2 && w[2] == if n >= 2 then h[n - 2] else StatePart.Sot;
      } else {
        assert SkipSpClose(w) == 3;
      }
    }
  }

  /** The lookbacks of match_sb8 and match_sb8a decide the same as ATerm Close* Sp*
      and SATerm Close* Sp* on the whole collapsed history. */
  lemma LookbackSb8(h: seq<StatePart>)
    requires Collapsed(h)
    ensures MatchSb8a(LastFour(h)) == HistorySb8a(h)
    ensures (LastFour(h)[SkipSpClose(LastFour(h))] == StatePart.ATerm) == HistorySb8Term(h)
  {
    LookbackSpClose(h);
  }

  /** With a paragraph separator last, match_sb11 reads the window one slot
      further back as match_sb8a would read it. */
  lemma MatchSb11AfterParaSep(w: Parts, w1: Parts)
    requires IsParaSep(w[3])
    requires w[0] == w1[1] && w[1] == w1[2] && w[2] == w1[3]
    ensures MatchSb11(w) == MatchSb8a(w1)
  {
    assert SkipSpClose(w1) >= 1;
  }

  /** The lookback of match_sb11 decides the same as SATerm Close* Sp* ParaSep? on
      the whole collapsed history. */
  lemma LookbackSb11(h: seq<StatePart>)
    requires Collapsed(h)
    ensures MatchSb11(LastFour(h)) == HistorySb11(h)
  {
    if h != [] && IsParaSep(h[|h| - 1]) {
      var h1 := h[..|h| - 1];
      assert h == h1 + [h[|h| - 1]];
      assert Collapsed(h1);
      LastFourSnoc(h1, h[|h| - 1]);
      MatchSb11AfterParaSep(LastFour(h), LastFour(h1));
      LookbackSb8(h1);
      assert HistorySb11(h) == HistorySb8a(h1);
    } else {
      assert MatchSb11(LastFour(h)) == MatchSb8a(LastFour(h));
      LookbackSb8(h);
      assert HistorySb11(h) == HistorySb8a(h);
    }
  }

  /** The window the scan holds in front of position i is enough: each lookback
      decides on it what its pattern decides on everything read so far. */
  lemma WindowSuffices(scat: SentenceTable, s: seq<char>, i: nat)
    requires i <= |s|
    ensures MatchSb9(StateAt(scat, s, i)) == HistorySb9(History(scat, s, i))
    ensures MatchSb8a(StateAt(scat, s, i)) == HistorySb8a(History(scat, s, i))
    ensures MatchSb11(StateAt(scat, s, i)) == HistorySb11(History(scat, s, i))
    ensures forall ahead: seq<char> ::
              MatchSb8(scat, StateAt(scat, s, i), ahead) == (HistorySb8Term(History(scat, s, i)) && LowerAhead(scat, ahead))
  {
    WindowIsHistoryTail(scat, s, i);
    var h := History(scat, s, i);
    LookbackSb9(h);
    LookbackSb8(h);
    LookbackSb11(h);
  }
}
