/** The pairwise grapheme-cluster rules of Unicode Standard Annex #29, section 3.1.1
    (GB3 to GB999), in the Unicode 9/10 form that uses E_Base, E_Modifier,
    Glue_After_Zwj and E_Base_GAZ, and the boundary predicate they induce on a text. */
module GraphemeRules {
  import opened Segments

  /** Grapheme_Cluster_Break categories as the lookup table reports them.
      CR and LF are both reported as Control; the text itself tells them apart.
      Any is the table's default for every other character. */
  datatype GraphemeCat =
    | Any | Control | Extend | Zwj | RegionalIndicator | Prepend | SpacingMark
    | L | V | T | LV | LVT | EBase | EBaseGaz | EModifier | GlueAfterZwj

  /** The generated category table: every character has exactly one category. */
  type GraphemeTable = char -> GraphemeCat

  /** The outcome of looking at the two categories around a position. */
  datatype PairResult =
    | NotBreak   // definitely not a break
    | Break      // definitely a break
    | Extended   // a break unless extended clusters are selected
    | CheckCrlf  // a break unless the pair is CR LF
    | Regional   // a break if an even number of regional indicators precede
    | Emoji      // a break unless an emoji base precedes the Extend run

  /** First-match classification of a category pair. */
  function CheckPair(before: GraphemeCat, after: GraphemeCat): PairResult
  {
    match (before, after)
    case (Control, Control) => CheckCrlf                  // GB3
    case (Control, _) => Break                            // GB4
    case (_, Control) => Break                            // GB5
    case (L, L) => NotBreak                               // GB6
    case (L, V) => NotBreak                               // GB6
    case (L, LV) => NotBreak                              // GB6
    case (L, LVT) => NotBreak                             // GB6
    case (LV, V) => NotBreak                              // GB7
    case (LV, T) => NotBreak                              // GB7
    case (V, V) => NotBreak                               // GB7
    case (V, T) => NotBreak                               // GB7
    case (LVT, T) => NotBreak                             // GB8
    case (T, T) => NotBreak                               // GB8
    case (_, Extend) => NotBreak                          // GB9
    case (_, Zwj) => NotBreak                             // GB9
    case (_, SpacingMark) => Extended                     // GB9a
    case (Prepend, _) => Extended                         // GB9b
    case (EBase, EModifier) => NotBreak                   // GB10
    case (EBaseGaz, EModifier) => NotBreak                // GB10
    case (Extend, EModifier) => Emoji                     // GB10
    case (Zwj, GlueAfterZwj) => NotBreak                  // GB11
    case (Zwj, EBaseGaz) => NotBreak                      // GB11
    case (RegionalIndicator, RegionalIndicator) => Regional  // GB12, GB13
    case (_, _) => Break                                  // GB999
  }

  /** The Hangul syllable sequences of GB6, GB7 and GB8. */
  predicate HangulPair(before: GraphemeCat, after: GraphemeCat)
  {
    || (before == L && after in {L, V, LV, LVT})
    || (before in {LV, V} && after in {V, T})
    || (before in {LVT, T} && after == T)
  }

  predicate IsEmojiBase(c: GraphemeCat)
  {
    c == EBase || c == EBaseGaz
  }

  /** The table read as the annex's rule list, one clause per rule group. */
  lemma CheckPairRules(before: GraphemeCat, after: GraphemeCat)
    ensures CheckPair(before, after) == CheckCrlf <==> before == Control && after == Control
    ensures (before == Control) != (after == Control) ==> CheckPair(before, after) == Break
    ensures HangulPair(before, after) ==> CheckPair(before, after) == NotBreak
    ensures before != Control && after in {Extend, Zwj} ==> CheckPair(before, after) == NotBreak
    ensures CheckPair(before, after) == Extended <==>
              && before != Control && after != Control
              && after !in {Extend, Zwj}
              && (after == SpacingMark || before == Prepend)
    ensures CheckPair(before, after) == Regional <==> before == RegionalIndicator && after == RegionalIndicator
    ensures CheckPair(before, after) == Emoji <==> before == Extend && after == EModifier
    ensures IsEmojiBase(before) && after == EModifier ==> CheckPair(before, after) == NotBreak
    ensures before == Zwj && after in {GlueAfterZwj, EBaseGaz} ==> CheckPair(before, after) == NotBreak
    ensures CheckPair(before, after) == NotBreak <==>
              || HangulPair(before, after)
              || (before != Control && after in {Extend, Zwj})
              || (IsEmojiBase(before) && after == EModifier)
              || (before == Zwj && after in {GlueAfterZwj, EBaseGaz})
  {
  }

  /** Number of consecutive regional indicators ending just before position i:
      the length of the maximal run of them that ends there. */
  function RiRun(gcat: GraphemeTable, s: seq<char>, i: nat): (n: nat)
    requires i <= |s|
    ensures n <= i
    decreases i
  {
    if i == 0 || gcat(s[i - 1]) != RegionalIndicator then 0 else 1 + RiRun(gcat, s, i - 1)
  }

  /** The count is the length of the maximal run: all n characters before i are
      regional indicators and the one before them, if any, is not. */
  lemma {:induction false} RiRunMaximal(gcat: GraphemeTable, s: seq<char>, i: nat)
    requires i <= |s|
    ensures forall k :: i - RiRun(gcat, s, i) <= k < i ==> gcat(s[k]) == RegionalIndicator
    ensures RiRun(gcat, s, i) == i || gcat(s[i - RiRun(gcat, s, i) - 1]) != RegionalIndicator
    decreases i
  {
    if i > 0 && gcat(s[i - 1]) == RegionalIndicator {
      RiRunMaximal(gcat, s, i - 1);
    }
  }

  /** Scanning back from position i over Extend characters reaches an emoji base. */
  predicate EmojiBaseBefore(gcat: GraphemeTable, s: seq<char>, i: nat)
    requires i <= |s|
    decreases i
  {
    i > 0 &&
    match gcat(s[i - 1])
    case Extend => EmojiBaseBefore(gcat, s, i - 1)
    case EBase => true
    case EBaseGaz => true
    case _ => false
  }

  /** Whether position i of s is a grapheme cluster boundary: the ends of the
      text always are, and an inner position is decided by its category pair
      and the context that pair asks for. */
  predicate IsGraphemeBoundary(gcat: GraphemeTable, extended: bool, s: seq<char>, i: nat)
    requires i <= |s|
  {
    i == 0 || i == |s| ||
    match CheckPair(gcat(s[i - 1]), gcat(s[i]))
    case NotBreak => false
    case Break => true
    case Extended => !extended
    case CheckCrlf => !(s[i - 1] == '\r' && s[i] == '\n')
    case Regional => RiRun(gcat, s, i) % 2 == 0
    case Emoji => !EmojiBaseBefore(gcat, s, i)
  }

  /** The category table folds CR and LF into Control, as the Unicode data does. */
  ghost predicate FoldsCrLfIntoControl(gcat: GraphemeTable)
  {
    gcat('\r') == Control && gcat('\n') == Control
  }

  /** Between two Control characters there is no boundary exactly when they are CR LF (GB3, GB4, GB5). */
  lemma ControlPairRule(gcat: GraphemeTable, extended: bool, s: seq<char>, i: nat)
    requires 0 < i < |s|
    requires gcat(s[i - 1]) == Control && gcat(s[i]) == Control
    ensures !IsGraphemeBoundary(gcat, extended, s, i) <==> s[i - 1] == '\r' && s[i] == '\n'
  {
  }

  /** Next to exactly one Control character there is always a boundary (GB4, GB5). */
  lemma BesideControlRule(gcat: GraphemeTable, extended: bool, s: seq<char>, i: nat)
    requires 0 < i < |s|
    requires (gcat(s[i - 1]) == Control) != (gcat(s[i]) == Control)
    ensures IsGraphemeBoundary(gcat, extended, s, i)
  {
  }

  /** With the table folding CR and LF into Control, CR LF is never split. */
  lemma CrLfNeverSplit(gcat: GraphemeTable, extended: bool, s: seq<char>, i: nat)
    requires FoldsCrLfIntoControl(gcat)
    requires 0 < i < |s| && s[i - 1] == '\r' && s[i] == '\n'
    ensures !IsGraphemeBoundary(gcat, extended, s, i)
  {
  }

  /** The mode flag only matters for an Extended pair (GB9a, GB9b), where the
      legacy mode breaks; every extended-mode boundary is a legacy-mode boundary. */
  lemma ModeRule(gcat: GraphemeTable, s: seq<char>, i: nat)
    requires i <= |s|
    ensures IsGraphemeBoundary(gcat, true, s, i) != IsGraphemeBoundary(gcat, false, s, i) <==>
              0 < i < |s| && CheckPair(gcat(s[i - 1]), gcat(s[i])) == Extended
    ensures IsGraphemeBoundary(gcat, true, s, i) ==> IsGraphemeBoundary(gcat, false, s, i)
  {
  }

  /** Between two regional indicators the position is a boundary iff the run of
      regional indicators ending just before it has even length (GB12, GB13). */
  lemma RegionalRule(gcat: GraphemeTable, extended: bool, s: seq<char>, i: nat)
    requires 0 < i < |s|
    requires gcat(s[i - 1]) == RegionalIndicator && gcat(s[i]) == RegionalIndicator
    ensures IsGraphemeBoundary(gcat, extended, s, i) <==> RiRun(gcat, s, i) % 2 == 0
    ensures RiRun(gcat, s, i) >= 1
  {
  }

  /** Inside a maximal run of regional indicators that starts at `start`, the
      count before position start + j is j, so flags pair up from the left. */
  lemma {:induction false} RiRunFromStart(gcat: GraphemeTable, s: seq<char>, start: nat, j: nat)
    requires start + j <= |s|
    requires start == 0 || gcat(s[start - 1]) != RegionalIndicator
    requires forall k :: start <= k < start + j ==> gcat(s[k]) == RegionalIndicator
    ensures RiRun(gcat, s, start + j) == j
    decreases j
  {
    if j > 0 {
      RiRunFromStart(gcat, s, start, j - 1);
    }
  }

  /** Within such a run, the position start + j (0 < j) is a boundary iff j is even. */
  lemma FlagPairs(gcat: GraphemeTable, extended: bool, s: seq<char>, start: nat, j: nat)
    requires 0 < j && start + j < |s|
    requires start == 0 || gcat(s[start - 1]) != RegionalIndicator
    requires forall k :: start <= k <= start + j ==> gcat(s[k]) == RegionalIndicator
    ensures IsGraphemeBoundary(gcat, extended, s, start + j) <==> j % 2 == 0
  {
    RiRunFromStart(gcat, s, start, j);
  }

  /** EmojiBaseBefore holds iff some emoji base is followed by nothing but Extend up to i. */
  lemma {:induction false} EmojiBaseBeforeSpec(gcat: GraphemeTable, s: seq<char>, i: nat)
    requires i <= |s|
    ensures EmojiBaseBefore(gcat, s, i) <==>
              exists j :: 0 <= j < i && IsEmojiBase(gcat(s[j])) &&
                          forall k :: j < k < i ==> gcat(s[k]) == Extend
    decreases i
  {
    if i > 0 {
      EmojiBaseBeforeSpec(gcat, s, i - 1);
      var c := gcat(s[i - 1]);
      if IsEmojiBase(c) {
        assert 0 <= i - 1 < i && IsEmojiBase(gcat(s[i - 1]));
      } else if c == Extend {
        if EmojiBaseBefore(gcat, s, i - 1) {
          var j :| 0 <= j < i - 1 && IsEmojiBase(gcat(s[j])) &&
                   forall k :: j < k < i - 1 ==> gcat(s[k]) == Extend;
          assert forall k :: j < k < i ==> gcat(s[k]) == Extend;
        } else {
          forall j | 0 <= j < i && IsEmojiBase(gcat(s[j]))
            ensures !(forall k :: j < k < i ==> gcat(s[k]) == Extend)
          {
          }
        }
      } else {
        forall j | 0 <= j < i && IsEmojiBase(gcat(s[j]))
          ensures !(forall k :: j < k < i ==> gcat(s[k]) == Extend)
        {
          assert j < i - 1;
          assert gcat(s[i - 1]) != Extend;
        }
      }
    }
  }

  /** Extend before E_Modifier is a non-boundary iff scanning back over Extend meets
      E_Base or E_Base_GAZ; meeting anything else or the start of text breaks (GB10). */
  lemma EmojiModifierRule(gcat: GraphemeTable, extended: bool, s: seq<char>, i: nat)
    requires 0 < i < |s|
    requires gcat(s[i - 1]) == Extend && gcat(s[i]) == EModifier
    ensures !IsGraphemeBoundary(gcat, extended, s, i) <==>
              exists j :: 0 <= j < i && IsEmojiBase(gcat(s[j])) &&
                          forall k :: j < k < i ==> gcat(s[k]) == Extend
  {
    EmojiBaseBeforeSpec(gcat, s, i);
  }

  /** The trailing regional-indicator count only looks at the text before i. */
  lemma {:induction false} RiRunPrefix(gcat: GraphemeTable, s: seq<char>, i: nat)
    requires i <= |s|
    ensures RiRun(gcat, s[..i], i) == RiRun(gcat, s, i)
  {
    var n := RiRun(gcat, s, i);
    RiRunMaximal(gcat, s, i);
    assert forall k :: 0 <= k < i ==> s[..i][k] == s[k];
    RiRunFromStart(gcat, s[..i], i - n, n);
  }

  /** The emoji scan only looks at the text before i. */
  lemma {:induction false} EmojiBaseBeforePrefix(gcat: GraphemeTable, s: seq<char>, i: nat, j: nat)
    requires j <= i <= |s|
    ensures EmojiBaseBefore(gcat, s[..i], j) == EmojiBaseBefore(gcat, s, j)
    decreases j
  {
    if j > 0 {
      assert s[..i][j - 1] == s[j - 1];
      EmojiBaseBeforePrefix(gcat, s, i, j - 1);
    }
  }
}
