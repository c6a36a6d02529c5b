# unicode-segmentation: grapheme clusters and sentences, modelled in Dafny

This project models two parts of the Rust crate `unicode-segmentation`, which
splits text at the boundaries defined by Unicode Standard Annex #29.

- **Grapheme clusters** (`src/grapheme.rs`):
  - the pair table `check_pair`, which rules GB3 to GB999 reduce to
  - the `GraphemeCursor` state machine: `new`, `set_cursor`, `cur_cursor`, `decide`,
    `decision`, `is_boundary`, `handle_regional`, `handle_emoji`, `next_boundary`
    and `prev_boundary`
  - the double-ended iterators `Graphemes` and `GraphemeIndices`, which walk a
    front cursor and a back cursor towards each other
- **Sentences** (`src/sentence.rs`):
  - the forward scan `SentenceBreaks`, which keeps a four-slot window
    (`SentenceBreaksState`) of what it has read, decides rules SB1 to SB998 on
    that window, and looks ahead once for SB8
  - `USentenceBounds`, which returns the text between consecutive breaks

Texts are `seq<char>`. Offsets count characters (code points), not UTF-8 bytes.
The generated Unicode category tables are parameters: `GraphemeTable` maps a
character to its `GraphemeCat`, and `SentenceTable` maps it to its `SentenceCat`.
Every result therefore holds for every table. The cursor is modelled on the path
the iterators use: the chunk handed to every query is the whole text, starting at
offset 0.

Modules:

- `Segments`: cutting a text at increasing offsets.
- `GraphemeRules`: `CheckPair`, the boundary predicate `IsGraphemeBoundary` that the
  cursor must compute, and lemmas reading the table as the annex's rules.
- `GraphemeSegmentation`: the clusters of a text, found by stepping forwards
  (`ClustersBetween`) and backwards (`ClustersBackBetween`).
- `GraphemeCursors`: the class `GraphemeCursor`. Each method updates the cursor's
  fields and is proved against `IsGraphemeBoundary`.
- `GraphemeIterators`: the classes `Graphemes` and `GraphemeIndices`. Their
  `Next`/`NextBack` are proved to behave as the front and back of the deque
  `Remaining()`, the clusters still unread.
- `SentenceRules`: the window (`Parts`), `NextState`, `End`, the lookback helpers
  `MatchSb8`, `MatchSb8a`, `MatchSb9` and `MatchSb11`, and the rule chain `Decide`.
- `SentenceSegmentation`: the window as a function of the text read (`StateAt`),
  the breaks it yields (`SentenceBreakList`), and the unbounded `History` that
  shows the four-slot window loses nothing the rules need.
- `SentenceIterators`: the classes `SentenceBreaks` and `USentenceBounds`, proved to
  return the elements of `SentenceBreakList` and of `Sentences`, in order.

## Model

| member | source | states |
|---|---|---|
| GraphemeRules.CheckPair | src/grapheme.rs:196-225 | The first-match classification of a (before, after) category pair into NotBreak, Break, Extended, CheckCrlf, Regional or Emoji, arm for arm as `check_pair` lists them; CheckPairRules reads it as the annex's rules |
| GraphemeRules.RiRun | src/grapheme.rs:327-345 | The number of regional indicators immediately before a position, which `handle_regional` counts backwards; never more than the position |
| GraphemeRules.EmojiBaseBefore | src/grapheme.rs:346-366 | The scan of `handle_emoji`: stepping back over Extend characters reaches E_Base or E_Base_GAZ; the start of the text or any other category stops it with false |
| GraphemeRules.IsGraphemeBoundary | src/grapheme.rs:419-447 | The boundary predicate the cursor computes: the ends of the text are boundaries; inside, the pair's class decides, Extended by the mode, CheckCrlf by the characters being CR then LF, Regional by the parity of RiRun, Emoji by EmojiBaseBefore |
| GraphemeRules.CheckPairRules | src/grapheme.rs:196-225 | The first-match table read as rules: CheckCrlf exactly for Control Control; Break next to exactly one Control; Hangul sequences and Extend/ZWJ after a non-Control never break; Extended exactly for SpacingMark after, or Prepend before, when no earlier rule applies; Regional exactly for RI RI; Emoji exactly for Extend E_Modifier; E_Base(_GAZ) E_Modifier and ZWJ Glue_After_Zwj/E_Base_GAZ never break; NotBreak occurs for exactly those pairs (GB6 to GB11), so every other pair is Break (GB999) |
| GraphemeRules.RiRunMaximal | src/grapheme.rs:327-345 | The regional-indicator count before a position is the length of the maximal run of RI ending there: all of that run are RI and the character before it is not |
| GraphemeRules.ControlPairRule | src/grapheme.rs:426-436 | Between two Control characters there is no boundary if and only if they are CR followed by LF |
| GraphemeRules.BesideControlRule | src/grapheme.rs:201-202 | Next to exactly one Control character there is always a boundary (GB4, GB5) |
| GraphemeRules.CrLfNeverSplit | src/grapheme.rs:426-436 | With CR and LF reported as Control, CR LF is never split |
| GraphemeRules.ModeRule | src/grapheme.rs:422-425 | The two modes disagree at a position exactly when its pair is Extended (GB9a, GB9b); every extended-mode boundary is a legacy-mode boundary |
| GraphemeRules.RegionalRule | src/grapheme.rs:437-443 | Between two regional indicators the position is a boundary iff the number of RI before it is even |
| GraphemeRules.RiRunFromStart | src/grapheme.rs:327-345 | Inside a maximal RI run starting at `start`, the count before start + j is j |
| GraphemeRules.FlagPairs | src/grapheme.rs:437-443 | Inside an RI run, position start + j (j > 0) is a boundary iff j is even, so flags pair up from the left |
| GraphemeRules.EmojiBaseBeforeSpec | src/grapheme.rs:346-366 | The backwards emoji scan succeeds iff some E_Base or E_Base_GAZ is followed by nothing but Extend up to the position |
| GraphemeRules.EmojiModifierRule | src/grapheme.rs:444-447 | Extend before E_Modifier is no boundary iff an emoji base precedes the Extend run; reaching the start of the text or another category breaks |
| GraphemeRules.RiRunPrefix | src/grapheme.rs:437-443 | The regional count computed on the text before the cursor (`chunk[..offset_in_chunk]`) equals the count on the whole text |
| GraphemeRules.EmojiBaseBeforePrefix | src/grapheme.rs:444-447 | The emoji scan on the text before the cursor agrees with the scan on the whole text |
| GraphemeSegmentation.NextBoundaryAfter | src/grapheme.rs:460-501 | The least boundary after i: it exists, it is a boundary, and no position strictly between is one |
| GraphemeSegmentation.PrevBoundaryBefore | src/grapheme.rs:512-550 | The greatest boundary before i: it exists, it is a boundary, and no position strictly between is one |
| GraphemeSegmentation.ClustersBetweenSlices | src/grapheme.rs:100-107 | The clusters found by stepping forwards from a to b are the slices of the text at the boundaries from a to b |
| GraphemeSegmentation.ClustersBetweenSnoc | src/grapheme.rs:112-119 | The clusters from a to b end with the one from the greatest boundary before b, which is not below a |
| GraphemeSegmentation.ClustersBetweenPartition | src/grapheme.rs:85-107 | The clusters from a to b concatenate to the text from a to b; none is empty; there are at most b - a; there is at least one iff a < b |
| GraphemeSegmentation.ClustersPartition | src/grapheme.rs:123-130 | The clusters of a whole text concatenate to it, none is empty, at most one per character, at least one iff the text is nonempty; they are the slices at exactly the boundary positions 0..len |
| GraphemeSegmentation.ClustersBackMatchesForward | src/grapheme.rs:110-120 | Stepping backwards from b finds the same clusters as stepping forwards from a |
| GraphemeSegmentation.ClustersBackward | src/grapheme.rs:110-120 | Reading a whole text from its end yields its clusters in reverse order |
| GraphemeSegmentation.CrLfExample | src/test.rs:74-78 | With CR and LF reported as Control, "\n\r\n\r" splits into "\n", "\r\n", "\r" forwards and backwards |
| GraphemeCursors.GraphemeCursor.constructor | src/grapheme.rs:233-253 | Offset, length and mode as given; state Break at either end of the text, Unknown elsewhere; nothing cached |
| GraphemeCursors.GraphemeCursor.SetCursor | src/grapheme.rs:255-270 | The same offset changes nothing; a new offset resets the state (Break at the ends, Unknown elsewhere) and forgets both categories and the RI count |
| GraphemeCursors.GraphemeCursor.CurCursor | src/grapheme.rs:273-275 | Returns the current offset |
| GraphemeCursors.GraphemeCursor.Decide | src/grapheme.rs:302-308 | The state becomes Break or NotBreak as the flag says |
| GraphemeCursors.GraphemeCursor.Decision | src/grapheme.rs:310-313 | As Decide, and returns the flag |
| GraphemeCursors.GraphemeCursor.HandleRegional | src/grapheme.rs:327-345 | The RI count becomes the old count (0 if unknown) plus the RI run ending the chunk; the state is Break iff that count is even |
| GraphemeCursors.GraphemeCursor.HandleEmoji | src/grapheme.rs:346-366 | The state is NotBreak iff scanning the chunk backwards over Extend meets an emoji base; Break otherwise, including at the start of the text |
| GraphemeCursors.GraphemeCursor.IsBoundary | src/grapheme.rs:382-448 | Returns whether the offset is a grapheme boundary of the text and records it as Break/NotBreak; a decided state is returned unchanged; offset, length and mode are kept |
| GraphemeCursors.GraphemeCursor.DecidePair | src/grapheme.rs:411-447 | With both neighbouring categories cached, decides the position exactly as IsGraphemeBoundary, using and maintaining the RI count |
| GraphemeCursors.GraphemeCursor.StepForward | src/grapheme.rs:473-491 | Moves one character forwards. The category before becomes that of the character stepped over, the category after that of the next character (none at the end). The RI count becomes the old count plus one after a regional indicator (staying unknown if it was), and 0 after anything else. Every cached fact still agrees with the text; the state is Break at the end and Unknown elsewhere; returns the character after the new offset |
| GraphemeCursors.GraphemeCursor.StepBack | src/grapheme.rs:527-541 | Moves one character backwards. The old category before becomes the category after, and the category before becomes that of the preceding character (none at 0). A known positive RI count drops by one; a zero or unknown count becomes unknown. Every cached fact still agrees with the text; the state is Break at 0 and Unknown elsewhere; returns the character before the new offset |
| GraphemeCursors.GraphemeCursor.NextBoundary | src/grapheme.rs:460-501 | None at the end of the text, with offset, state, cached categories and RI count unchanged; otherwise moves to, and returns, the least boundary after the old offset, in state Break |
| GraphemeCursors.GraphemeCursor.PrevBoundary | src/grapheme.rs:512-550 | None at offset 0, with offset, state, cached categories and RI count unchanged; otherwise moves to, and returns, the greatest boundary before the old offset, in state Break |
| GraphemeIterators.Graphemes.constructor | src/grapheme.rs:123-130 | A front cursor at 0 and a back cursor at the end: all clusters of the text remain |
| GraphemeIterators.Graphemes.AsStr | src/grapheme.rs:85-87 | The unread text is the concatenation of the remaining clusters |
| GraphemeIterators.Graphemes.SizeHint | src/grapheme.rs:94-97 | The lower bound does not exceed the number of remaining clusters, is 0 exactly when none remain, and the upper bound is at least that number |
| GraphemeIterators.Graphemes.Next | src/grapheme.rs:100-107 | Returns and removes the first remaining cluster, which is the text between the old and new front offsets; None when none remain |
| GraphemeIterators.Graphemes.NextBack | src/grapheme.rs:112-119 | Returns and removes the last remaining cluster, which is the text between the new and old back offsets; None when none remain |
| GraphemeIterators.GraphemeIndices.constructor | src/grapheme.rs:133-135 | All clusters of the text remain |
| GraphemeIterators.GraphemeIndices.AsStr | src/grapheme.rs:36-38 | The unread text is the concatenation of the remaining clusters |
| GraphemeIterators.GraphemeIndices.SizeHint | src/grapheme.rs:50-52 | The lower bound does not exceed the number of remaining clusters, is 0 exactly when none remain, and the upper bound is at least that number |
| GraphemeIterators.GraphemeIndices.Next | src/grapheme.rs:45-47 | Returns and removes the first remaining cluster with the offset where it starts, and the text at that offset is that cluster |
| GraphemeIterators.GraphemeIndices.NextBack | src/grapheme.rs:57-59 | Returns and removes the last remaining cluster with the offset where it starts, and the cluster ends at the old back offset |
| SentenceRules.NextState | src/sentence.rs:50-74 | `SentenceBreaksState::next`: a Close after a Close run or an Sp after an Sp run leaves the window as it is; any other category shifts it left and appends that category's slot |
| SentenceRules.End | src/sentence.rs:76-84 | `SentenceBreaksState::end`: shifts the window left and appends Eot |
| SentenceRules.Match1 | src/sentence.rs:86-89 | The last slot of the window is the given one |
| SentenceRules.Match2 | src/sentence.rs:91-94 | The last two slots of the window are the given ones, in that order |
| SentenceRules.LowerAhead | src/sentence.rs:106-122 | The lookahead loop of `match_sb8` over the text from the current character: true at the first Lower, false at the first OLetter, Upper, paragraph separator or terminator, or at the end of the text; every other character is skipped |
| SentenceRules.MatchSb8 | src/sentence.rs:97-123 | `match_sb8`: the slot reached by skipping one Sp run and one Close run is ATerm, and the lookahead finds a Lower |
| SentenceRules.MatchSb8a | src/sentence.rs:125-131 | `match_sb8a`: the slot reached by skipping one Sp run and one Close run is STerm or ATerm |
| SentenceRules.MatchSb9 | src/sentence.rs:133-138 | `match_sb9`: the slot reached by skipping one Close run is STerm or ATerm |
| SentenceRules.MatchSb11 | src/sentence.rs:140-154 | `match_sb11`: the slot reached by skipping one paragraph separator, one Sp run and one Close run is STerm or ATerm |
| SentenceRules.Decide | src/sentence.rs:180-238 | The guarded match of `SentenceBreaks::next` in its order: SB1, SB3, SB4, SB5 (Restore), SB6, SB7, SB8, SB8a, SB9, SB10, SB11 (Break), SB998 (Continue), every guard read on the window before the character |
| SentenceRules.PartOf | src/sentence.rs:57-69 | A character's slot is never the start or the end of the text |
| SentenceRules.SkipSpClose | src/sentence.rs:97-103 | Stepping back over at most one Sp run and one Close run stays inside the window |
| SentenceRules.NextStateShifts | src/sentence.rs:50-74 | A Close after a Close run or an Sp after an Sp run leaves the window as it was; otherwise the window shifts left and takes the new slot; no step puts Sot into the last slot or Eot anywhere |
| SentenceRules.EndIsFinal | src/sentence.rs:76-84 | After `end` the last slot is Eot and not Sot, so the SB2 test of `next` (sentence.rs:242-245) answers None from then on; Finish relies on it |
| SentenceRules.DecideRestores | src/sentence.rs:194-197 | The scan puts the old window back (SB5) exactly for an Extend or Format character that neither starts the text nor follows a paragraph separator |
| SentenceRules.MatchSb9Reads | src/sentence.rs:133-138 | match_sb9 holds iff the window ends in STerm/ATerm, or in STerm/ATerm then one Close run |
| SentenceRules.MatchSb8aReads | src/sentence.rs:125-131 | match_sb8a holds iff the window ends in STerm/ATerm followed by at most one Close run and then at most one Sp run |
| SentenceRules.MatchSb11Reads | src/sentence.rs:140-154 | match_sb11 holds iff, after dropping at most one paragraph separator, the window ends as match_sb8a requires |
| SentenceRules.LowerAheadSpec | src/sentence.rs:106-122 | The SB8 lookahead holds iff some Lower comes before every OLetter, Upper, paragraph separator and terminator |
| SentenceSegmentation.StateAt | src/sentence.rs:171-197 | The window the loop holds in front of character i: the initial all-Sot window advanced over the first i characters, each one either taken in by `next` or, under SB5, put back |
| SentenceSegmentation.IsBreakAt | src/sentence.rs:180-238 | The loop returns the position before character i: Decide on the window in front of i, the category of character i and the text from i on is Break |
| SentenceSegmentation.SentenceBreakList | src/sentence.rs:168-255 | Every offset a fresh `SentenceBreaks` yields: the positions where IsBreakAt holds, in order, then the length of the text unless it is empty (SB2) |
| SentenceSegmentation.BreaksFromSpec | src/sentence.rs:168-238 | The breaks found from position i on are strictly increasing, lie in i..len-1, number at most len - i, and are exactly the positions there where the rules decide Break |
| SentenceSegmentation.ScanStep | src/sentence.rs:171-197 | One step of the loop: the window it leaves (the old one on SB5, the shifted one otherwise) is the window in front of the next character, and the position is reported iff the decision is Break |
| SentenceSegmentation.StateAtSlots | src/sentence.rs:36-41 | The window's last slot is Sot exactly before any character has been read, and no slot is ever Eot during the scan |
| SentenceSegmentation.SentenceBreakListSpec | src/sentence.rs:240-255 | SB1/SB2: no offsets for the empty text; otherwise 0 first and len last, at least two, strictly increasing, and exactly the Break positions and the end |
| SentenceSegmentation.Sb3 | src/sentence.rs:185-187 | CR followed by LF is never a break |
| SentenceSegmentation.Sb4 | src/sentence.rs:189-193 | After Sep, CR or LF there is always a break, except CR followed by LF |
| SentenceSegmentation.Sb5 | src/sentence.rs:195-197 | An Extend or Format not after a paragraph separator (and not first) is no break and leaves the window exactly as it was |
| SentenceSegmentation.WindowIsHistoryTail | src/sentence.rs:50-74 | The four-slot window is the last four slots of the unbounded collapsed history of everything read, padded with Sot |
| SentenceSegmentation.LookbackSb9 | src/sentence.rs:133-138 | On a collapsed history, match_sb9 on the window decides exactly SATerm Close* on the whole history |
| SentenceSegmentation.LookbackSpClose | src/sentence.rs:97-103 | Skipping one Sp run and one Close run in the window reaches the last slot of the history once its trailing Sp and Close are removed |
| SentenceSegmentation.LookbackSb8 | src/sentence.rs:97-131 | On a collapsed history, the ATerm test of match_sb8 and match_sb8a on the window decide exactly ATerm Close* Sp* and SATerm Close* Sp* on the whole history |
| SentenceSegmentation.LookbackSb11 | src/sentence.rs:140-154 | On a collapsed history, match_sb11 on the window decides exactly SATerm Close* Sp* ParaSep? on the whole history |
| SentenceSegmentation.WindowSuffices | src/sentence.rs:97-154 | At every position, each lookback on the window decides what its regular pattern decides on everything read so far |
| SentenceIterators.Sentences | src/sentence.rs:284-301 | The strings `USentenceBounds` yields: the slices of the text between consecutive offsets of SentenceBreakList |
| SentenceIterators.SentencesTile | src/sentence.rs:284-301 | The sentences tile the text: none is empty, they concatenate to the text, and there is at least one iff the text is nonempty |
| SentenceIterators.WrappingSub | src/sentence.rs:280 | usize subtraction as a release build performs it: the difference when it fits, wrapped modulo 2^64 otherwise |
| SentenceIterators.SentenceBreaks.RemainingIncreasing | src/sentence.rs:168-250 | The offsets still to come are strictly increasing, lie between the scan position and len |
| SentenceIterators.SentenceBreaks.SizeHintAsWritten | src/sentence.rs:161-165 | The upper bound len + 1 always holds for the offsets still to come |
| SentenceIterators.SentenceBreaks.StaleLowerBound | src/sentence.rs:161-165 | Once everything of a text of two or more characters has been reported, the lower bound as written is still 2 |
| SentenceIterators.SentenceBreaks.SizeHint | src/sentence.rs:161-165 | Corrected hint: bounds the offsets still to come, and the lower bound is 0 exactly when none remain |
| SentenceIterators.SentenceBreaks.constructor | src/sentence.rs:253-255 | Position 0, the initial all-Sot window; the offsets to come are SentenceBreakList of the text |
| SentenceIterators.SentenceBreaks.Next | src/sentence.rs:168-250 | Returns and removes the first offset still to come, None when none remain (the offsets before the call are the one returned followed by those after it); the position never moves back |
| SentenceIterators.SentenceBreaks.Consume | src/sentence.rs:171-238 | One loop step: advances by one character, returns the rules' decision, and reports the position before the character iff that decision is Break |
| SentenceIterators.SentenceBreaks.Finish | src/sentence.rs:240-249 | SB2 at the end of the text: None for the empty text or after the end was reported; otherwise pushes Eot and reports len once |
| SentenceIterators.USentenceBounds.SizeHintAsWritten | src/sentence.rs:278-281 | The lower bound as written is a usize (wrapped modulo 2^64) and the upper bound is present |
| SentenceIterators.USentenceBounds.SizeHintAsWrittenUpper | src/sentence.rs:278-281 | The upper bound as written, `len`, does bound the sentences still to come; only the lower bound is wrong |
| SentenceIterators.USentenceBounds.EmptyTextHintAsWritten | src/sentence.rs:278-281 | For the empty text no sentence remains, yet the lower bound as written wraps round to 2^64 - 1 |
| SentenceIterators.USentenceBounds.SizeHint | src/sentence.rs:278-281 | Corrected hint: bounds the sentences still to come |
| SentenceIterators.USentenceBounds.constructor | src/sentence.rs:267-272 | No sentence started and a fresh scan: the sentences to come are Sentences of the text |
| SentenceIterators.USentenceBounds.Next | src/sentence.rs:284-301 | Returns and removes the first sentence still to come, None when none remain |
| SentenceIterators.USentenceBounds.Start | src/sentence.rs:285-291 | Takes the first offset as the start of the first sentence; the sentences to come are unchanged, and none remain if there is no first offset |
| SentenceIterators.USentenceBounds.Take | src/sentence.rs:293-300 | Returns the text from the current start to the next offset, which becomes the next start; None when none remain |

## Left out

- Offsets count code points, not UTF-8 bytes. The crate's `len_utf8` steps, byte offsets and the byte bound `slen` all become character counts. Boundaries and clusters are the same; the numbers are not.
- The category tables (`tables::grapheme`, `tables::sentence`) are not part of this model. They are parameters, and every result holds for any table. The grapheme table folds CR and LF into Control; the lemmas that need this say so with `FoldsCrLfIntoControl`.
- GraphemeCursor: the multi-chunk protocol is not modelled. This covers `provide_context`, the `GraphemeIncomplete` errors (`PreContext`, `NextChunk`, `PrevChunk`, `InvalidOffset`), the `resuming` flag and `pre_context_offset`. Every query receives the whole text with `chunk_start` 0, which is how `Graphemes` and `GraphemeIndices` call the cursor. On that path none of these errors can occur, and the CheckCrlf, Regional and Emoji states are always resolved within the call.
- GraphemeCursor.IsBoundary: `is_boundary_result`'s `unreachable!` branch and its `PreContext` return are not modelled; on the whole-text path both are unreachable.
- GraphemeCursor.NextBoundary, GraphemeCursor.PrevBoundary: `Result` wrapping and `unwrap` are not modelled. The methods return `Option` directly, and `Graphemes` relies on the proved fact that a boundary always exists.
- GraphemeIndices: the offset is computed from the cluster's position in the text, not by pointer subtraction (`as_ptr() - start_offset`).
- Graphemes.SizeHint: the bound is a count of characters rather than bytes.
- Word segmentation (`src/word.rs`), `str_ref.rs`, the public trait `UnicodeSegmentation`, the benches and the fuzzers are not part of this model.
- Integer width: the cursor's offsets and RI count, and the sentence positions, are unbounded `nat`. In the source these are `usize`, which cannot overflow for a real string. Only the `lower - 1` of `USentenceBounds::size_hint` can underflow; it is modelled explicitly (see Findings).

## Findings

| source | as written | input that shows it | evidently intended | confidence | as-written member | corrected member |
|---|---|---|---|---|---|---|
| src/sentence.rs:278-281 | `lower - 1` on a `usize` whose value can be 0 | the empty text: `SentenceBreaks::size_hint` gives lower bound `min(0, 2) = 0`, and `0 - 1` panics in a debug build or wraps to 2^64 - 1 in a release build, while no sentence is returned | a lower bound of 0, with the subtraction saturating | not executed | SentenceIterators.USentenceBounds.EmptyTextHintAsWritten | SentenceIterators.USentenceBounds.SizeHint |
| src/sentence.rs:161-165 | size hint from the length of the whole text, however much of it has been scanned | "ab": after both offsets 0 and 2 have been returned, the hint still gives lower bound 2 (and `USentenceBounds` gives 1), while nothing remains | bounds computed from what is still to be scanned | not executed | SentenceIterators.SentenceBreaks.StaleLowerBound | SentenceIterators.SentenceBreaks.SizeHint |
