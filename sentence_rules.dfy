/** The forward sentence-boundary rules of Unicode Standard Annex #29, section 5.1.1
    (SB1 to SB998), decided over a four-slot window of what precedes a position. */
module SentenceRules {

  /** Sentence_Break categories as the lookup table reports them; Any is the
      table's default for every other character. */
  datatype SentenceCat =
    | Any | ATerm | CR | Close | Extend | Format | LF | Lower | Numeric
    | OLetter | SContinue | STerm | Sep | Sp | Upper

  /** The generated category table: every character has exactly one category. */
  type SentenceTable = char -> SentenceCat

  /** One slot of the window: a category class, a collapsed run of Close or Sp,
      or the start or end of the text. */
  datatype StatePart =
    | Sot | Eot | Other | CR | LF | Sep | ATerm | UpperLower | ClosePlus | SpPlus | STerm

  /** The window: the four most recent slots, oldest first. */
  type Parts = p: seq<StatePart> | |p| == 4 witness [StatePart.Sot, StatePart.Sot, StatePart.Sot, StatePart.Sot]

  const InitialState: Parts := [StatePart.Sot, StatePart.Sot, StatePart.Sot, StatePart.Sot]

  /** The slot a character of category c occupies. */
  function PartOf(c: SentenceCat): (p: StatePart)
    ensures p != StatePart.Sot && p != StatePart.Eot
  {
    match c
    case CR => StatePart.CR
    case LF => StatePart.LF
    case Sep => StatePart.Sep
    case ATerm => StatePart.ATerm
    case Upper => StatePart.UpperLower
    case Lower => StatePart.UpperLower
    case Close => StatePart.ClosePlus
    case Sp => StatePart.SpPlus
    case STerm => StatePart.STerm
    case _ => StatePart.Other
  }

  /** A Close after a Close run, or an Sp after an Sp run, joins that run. */
  predicate JoinsRun(last: StatePart, c: SentenceCat)
  {
    (last == StatePart.ClosePlus && c == SentenceCat.Close) || (last == StatePart.SpPlus && c == SentenceCat.Sp)
  }

  /** SentenceBreaksState::next: the window after one more character of category c. */
  function NextState(w: Parts, c: SentenceCat): Parts
  {
    if JoinsRun(w[3], c) then w else [w[1], w[2], w[3], PartOf(c)]
  }

  /** SentenceBreaksState::end: the window once the end of the text has been seen. */
  function End(w: Parts): Parts
  {
    [w[1], w[2], w[3], StatePart.Eot]
  }

  function Match1(w: Parts, part: StatePart): bool
  {
    part == w[3]
  }

  function Match2(w: Parts, part1: StatePart, part2: StatePart): bool
  {
    part1 == w[2] && part2 == w[3]
  }

  predicate IsSATerm(p: StatePart)
  {
    p == StatePart.STerm || p == StatePart.ATerm
  }

  predicate IsParaSep(p: StatePart)
  {
    p == StatePart.Sep || p == StatePart.CR || p == StatePart.LF
  }

  /** The slot reached by stepping back over at most one Sp run, then at most one Close run. */
  function SkipSpClose(w: Parts): (idx: nat)
    ensures 1 <= idx <= 3
  {
    var idx := if w[3] == StatePart.SpPlus then 2 else 3;
    if w[idx] == StatePart.ClosePlus then idx - 1 else idx
  }

  /** The categories that end the SB8 lookahead without a Lower. */
  predicate StopsSb8(c: SentenceCat)
  {
    c in {SentenceCat.OLetter, SentenceCat.Upper, SentenceCat.Sep, SentenceCat.CR, SentenceCat.LF,
          SentenceCat.STerm, SentenceCat.ATerm}
  }

  /** The lookahead of SB8: skipping characters that are not OLetter, Upper, Lower,
      ParaSep or SATerm, the first one left is Lower. */
  predicate LowerAhead(scat: SentenceTable, ahead: seq<char>)
    decreases |ahead|
  {
    ahead != [] &&
    match scat(ahead[0])
    case Lower => true
    case OLetter | Upper | Sep | CR | LF | STerm | ATerm => false
    case _ => LowerAhead(scat, ahead[1..])
  }

  /** match_sb8: the window ends in ATerm Close* Sp* and the text ahead has a
      Lower before any letter, paragraph separator or terminator. */
  predicate MatchSb8(scat: SentenceTable, w: Parts, ahead: seq<char>)
  {
    w[SkipSpClose(w)] == StatePart.ATerm && LowerAhead(scat, ahead)
  }

  /** match_sb8a: the window ends in SATerm Close* Sp*. */
  predicate MatchSb8a(w: Parts)
  {
    IsSATerm(w[SkipSpClose(w)])
  }

  /** match_sb9: the window ends in SATerm Close*. */
  predicate MatchSb9(w: Parts)
  {
    var idx := if w[3] == StatePart.ClosePlus then 2 else 3;
    IsSATerm(w[idx])
  }

  /** match_sb11: the window ends in SATerm Close* Sp* ParaSep?. */
  predicate MatchSb11(w: Parts)
  {
    var idx0 := if IsParaSep(w[3]) then 2 else 3;
    var idx1 := if w[idx0] == StatePart.SpPlus then idx0 - 1 else idx0;
    var idx := if w[idx1] == StatePart.ClosePlus then idx1 - 1 else idx1;
    IsSATerm(w[idx])
  }

  /** What the forward scan does at a character: report a break before it, go on,
      or go on with the window as it was before the character (SB5). */
  datatype Step = Break | Continue | Restore

  /** The rules in their order of precedence, given the window before the
      character, the character's category and the text from the character on. */
  function Decide(scat: SentenceTable, w: Parts, c: SentenceCat, ahead: seq<char>): Step
  {
    if Match1(w, StatePart.Sot) then Break                                          // SB1
    else if c == SentenceCat.LF && Match1(w, StatePart.CR) then Continue            // SB3
    else if Match1(w, StatePart.Sep) || Match1(w, StatePart.CR) || Match1(w, StatePart.LF) then Break  // SB4
    else if c == SentenceCat.Extend || c == SentenceCat.Format then Restore         // SB5
    else if c == SentenceCat.Numeric && Match1(w, StatePart.ATerm) then Continue    // SB6
    else if c == SentenceCat.Upper && Match2(w, StatePart.UpperLower, StatePart.ATerm) then Continue  // SB7
    else if MatchSb8(scat, w, ahead) then Continue                                  // SB8
    else if c in {SentenceCat.SContinue, SentenceCat.STerm, SentenceCat.ATerm} && MatchSb8a(w) then Continue  // SB8a
    else if c in {SentenceCat.Close, SentenceCat.Sp, SentenceCat.Sep, SentenceCat.CR, SentenceCat.LF}
            && MatchSb9(w) then Continue                                            // SB9
    else if c in {SentenceCat.Sp, SentenceCat.Sep, SentenceCat.CR, SentenceCat.LF} && MatchSb8a(w) then Continue  // SB10
    else if MatchSb11(w) then Break                                                 // SB11
    else Continue                                                                   // SB998
  }

  /** SB5 applies: an Extend or Format character that neither starts the text nor
      follows a paragraph separator. */
  predicate Absorbed(w: Parts, c: SentenceCat)
  {
    (c == SentenceCat.Extend || c == SentenceCat.Format) && w[3] != StatePart.Sot && !IsParaSep(w[3])
  }

  /** The window after a character: as before for an absorbed one, shifted otherwise. */
  function Advance(w: Parts, c: SentenceCat): Parts
  {
    if Absorbed(w, c) then w else NextState(w, c)
  }

  /** The scan restores the window exactly for absorbed characters, and breaks
      before none of them. */
  lemma DecideRestores(scat: SentenceTable, w: Parts, c: SentenceCat, ahead: seq<char>)
    ensures Decide(scat, w, c, ahead) == Restore <==> Absorbed(w, c)
  {
  }

  /** SentenceBreaksState::next shifts the window left and appends the slot of the
      new character, except that a Close after a Close run or an Sp after an Sp run
      leaves the window unchanged; the last slot is never the start of the text. */
  lemma NextStateShifts(w: Parts, c: SentenceCat)
    ensures JoinsRun(w[3], c) ==> NextState(w, c) == w
    ensures !JoinsRun(w[3], c) ==> NextState(w, c)[..3] == w[1..] && NextState(w, c)[3] == PartOf(c)
    ensures w[3] != StatePart.Sot ==> NextState(w, c)[3] != StatePart.Sot
    ensures (forall k :: 0 <= k < 4 ==> w[k] != StatePart.Eot) ==>
              forall k :: 0 <= k < 4 ==> NextState(w, c)[k] != StatePart.Eot
  {
  }

  /** Once SentenceBreaksState::end has run, the SB2 test sees the end of the text
      and not its start, so no further offset is reported. */
  lemma EndIsFinal(w: Parts)
    ensures Match1(End(w), StatePart.Eot) && !Match1(End(w), StatePart.Sot)
  {
  }

  /** match_sb9 looks past at most one Close run for STerm or ATerm. */
  lemma MatchSb9Reads(w: Parts)
    ensures MatchSb9(w) <==> IsSATerm(w[3]) || (w[3] == StatePart.ClosePlus && IsSATerm(w[2]))
  {
  }

  /** match_sb8a looks past at most one Sp run, then at most one Close run, for STerm or ATerm. */
  lemma MatchSb8aReads(w: Parts)
    ensures MatchSb8a(w) <==>
              || IsSATerm(w[3])
              || (w[3] == StatePart.SpPlus && IsSATerm(w[2]))
              || (w[3] == StatePart.ClosePlus && IsSATerm(w[2]))
              || (w[3] == StatePart.SpPlus && w[2] == StatePart.ClosePlus && IsSATerm(w[1]))
  {
  }

  /** match_sb11 looks past at most one paragraph separator, then one Sp run,
      then one Close run, for STerm or ATerm. */
  lemma MatchSb11Reads(w: Parts)
    ensures MatchSb11(w) <==>
              var t := if IsParaSep(w[3]) then w[..3] else w;
              var n := |t|;
              || IsSATerm(t[n - 1])
              || (t[n - 1] == StatePart.SpPlus && IsSATerm(t[n - 2]))
              || (t[n - 1] == StatePart.ClosePlus && IsSATerm(t[n - 2]))
              || (t[n - 1] == StatePart.SpPlus && t[n - 2] == StatePart.ClosePlus && IsSATerm(t[n - 3]))
  {
  }

  /** The SB8 lookahead holds iff some Lower comes before every letter,
      paragraph separator and terminator. */
  lemma {:induction false} LowerAheadSpec(scat: SentenceTable, ahead: seq<char>)
    ensures LowerAhead(scat, ahead) <==>
              exists j :: 0 <= j < |ahead| && scat(ahead[j]) == SentenceCat.Lower &&
                          forall k :: 0 <= k < j ==> scat(ahead[k]) != SentenceCat.Lower && !StopsSb8(scat(ahead[k]))
    decreases |ahead|
  {
    if ahead != [] {
      LowerAheadSpec(scat, ahead[1..]);
      var c := scat(ahead[0]);
      if c == SentenceCat.Lower {
        assert 0 < |ahead| && scat(ahead[0]) == SentenceCat.Lower;
      } else if StopsSb8(c) {
        forall j | 0 <= j < |ahead| && scat(ahead[j]) == SentenceCat.Lower
          ensures !(forall k :: 0 <= k < j ==> scat(ahead[k]) != SentenceCat.Lower && !StopsSb8(scat(ahead[k])))
        {
          assert 0 < j;
        }
      } else {
        if LowerAhead(scat, ahead[1..]) {
          var j :| 0 <= j < |ahead[1..]| && scat(ahead[1..][j]) == SentenceCat.Lower &&
                   forall k :: 0 <= k < j ==> scat(ahead[1..][k]) != SentenceCat.Lower && !StopsSb8(scat(ahead[1..][k]));
          assert scat(ahead[j + 1]) == SentenceCat.Lower;
          forall k | 0 <= k < j + 1
            ensures scat(ahead[k]) != SentenceCat.Lower && !StopsSb8(scat(ahead[k]))
          {
            if k > 0 {
              assert ahead[k] == ahead[1..][k - 1];
            }
          }
        } else {
          forall j | 0 <= j < |ahead| && scat(ahead[j]) == SentenceCat.Lower
            ensures !(forall k :: 0 <= k < j ==> scat(ahead[k]) != SentenceCat.Lower && !StopsSb8(scat(ahead[k])))
          {
            assert 0 < j;
            assert ahead[1..][j - 1] == ahead[j];
          }
        }
      }
    }
  }
}
