/** The forward sentence iterators: the break offsets of a text, and the
    sentences between consecutive breaks. */
module SentenceIterators {
  import opened Segments
  import opened SentenceRules
  import opened SentenceSegmentation

  /** The sentences of s: the text between consecutive reported offsets. */
  function Sentences(scat: SentenceTable, s: seq<char>): seq<seq<char>>
  {
    SentenceBreakListSpec(scat, s);
    Slices(s, SentenceBreakList(scat, s))
  }

  /** The sentences tile the text: none is empty, together they are the text,
      and a nonempty text has at least one. */
  lemma SentencesTile(scat: SentenceTable, s: seq<char>)
    ensures Flatten(Sentences(scat, s)) == s
    ensures forall k :: 0 <= k < |Sentences(scat, s)| ==> |Sentences(scat, s)[k]| > 0
    ensures s != [] <==> |Sentences(scat, s)| >= 1
  {
    SentenceBreakListSpec(scat, s);
    var l := SentenceBreakList(scat, s);
    if s != [] {
      FlattenSlices(s, l);
      forall k | 0 <= k < |Sentences(scat, s)|
        ensures |Sentences(scat, s)[k]| > 0
      {
        SliceAt(s, l, k);
      }
    }
  }

  /** Rust's usize on a 64-bit target. */
  const UsizeModulus: nat := 0x1_0000_0000_0000_0000

  /** Subtraction on usize as a release build performs it: modulo the word size. */
  function WrappingSub(a: nat, b: nat): (r: nat)
    ensures r < UsizeModulus
    ensures b <= a < UsizeModulus ==> r == a - b
    ensures a < b && b - a <= UsizeModulus ==> r == UsizeModulus - (b - a)
  {
    (a - b) % UsizeModulus
  }

  /** Subtraction that stops at zero. */
  function SaturatingSub(a: nat, b: nat): (r: nat)
    ensures b <= a ==> r + b == a
    ensures a < b ==> r == 0
  {
    if a < b then 0 else a - b
  }

  class SentenceBreaks {
    const text: seq<char>
    const scat: SentenceTable     // the category table the scan consults
    var pos: nat                  // characters consumed so far
    var state: Parts              // the window in front of pos

    /** The window is the scan's state at pos, or, once the end of a nonempty
        text has been reported, that state with the end of the text pushed. */
    ghost predicate Valid()
      reads this
    {
      && pos <= |text|
      && (|| state == StateAt(scat, text, pos)
          || (text != [] && pos == |text| && state == End(StateAt(scat, text, pos))))
    }

    /** The offsets still to be reported, in order. */
    ghost function Remaining(): seq<nat>
      reads this
      requires Valid()
    {
      BreaksFrom(scat, text, pos) + (if text == [] || state[3] == StatePart.Eot then [] else [|text|])
    }

    /** The offsets still to be reported are increasing, lie in pos..|text|, and
        are all that remain of the offsets of the whole text. */
    lemma RemainingIncreasing()
      requires Valid()
      ensures ValidCuts(Remaining(), |text|)
      ensures forall k :: 0 <= k < |Remaining()| ==> pos <= Remaining()[k]
    {
      BreaksFromSpec(scat, text, pos);
      var bs := BreaksFrom(scat, text, pos);
      var r := Remaining();
      if r != bs {
        forall i, j | 0 <= i < j < |r|
          ensures r[i] < r[j]
        {
          if j == |r| - 1 {
            assert r[i] == bs[i];
          }
        }
      }
    }

    /** size_hint as written: bounds from the length of the whole text, however much
        of it has been scanned. The upper bound is always right. */
    function SizeHintAsWritten(): (r: (nat, Option<nat>))
      reads this
      ensures r.1.Some? && (Valid() ==> |Remaining()| <= r.1.value)
    {
      var hint := (if |text| < 2 then |text| else 2, Some(|text| + 1));
      if pos <= |text| then BreaksFromSpec(scat, text, pos); hint else hint
    }

    /** The lower bound as written goes stale: once every offset of a text of two or
        more characters has been reported, it still promises two more. */
    lemma StaleLowerBound()
      requires Valid() && |text| >= 2 && Remaining() == []
      ensures SizeHintAsWritten().0 == 2 > |Remaining()|
    {
    }

    /** Size hint from what is left to scan: exact about whether anything remains,
        and bounding the count by the unscanned characters. */
    function SizeHint(): (r: (nat, Option<nat>))
      reads this
      requires Valid()
      ensures r.0 <= |Remaining()| && r.1.Some? && |Remaining()| <= r.1.value
      ensures r.0 == 0 <==> Remaining() == []
    {
      BreaksFromSpec(scat, text, pos);
      StateAtSlots(scat, text, pos);
      if text == [] || state[3] == StatePart.Eot then
        (0, Some(0))
      else if pos == 0 then
        assert IsBreakAt(scat, text, 0);
        (2, Some(|text| + 1))
      else
        (1, Some(|text| - pos + 1))
    }

    /** new_sentence_breaks: nothing consumed, the window full of start-of-text slots. */
    constructor (scat: SentenceTable, source: seq<char>)
      ensures Valid() && text == source && this.scat == scat
      ensures pos == 0 && state == InitialState
      ensures Remaining() == SentenceBreakList(scat, source)
    {
      text := source;
      this.scat := scat;
      pos := 0;
      state := InitialState;
    }

    /** Scans on to the next break and reports its offset; then, once, the end of
        the text; then nothing. */
    method Next() returns (r: Option<nat>)
      requires Valid()
      modifies this`pos, this`state
      ensures Valid() && old(pos) <= pos
      ensures old(Remaining()) == [] ==> r == None && Remaining() == []
      ensures old(Remaining()) != [] ==> r == Some(old(Remaining())[0]) && Remaining() == old(Remaining())[1..]
      ensures old(Remaining()) == (if r.Some? then [r.value] else []) + Remaining()
    {
      while pos < |text|
        invariant Valid() && old(pos) <= pos
        invariant Remaining() == old(Remaining())
        decreases |text| - pos
      {
        var positionBefore := pos;
        var step := Consume();
        if step == Break {
          return Some(positionBefore);
        }
      }
      r := Finish();
    }

    /** One character of the scan: the window takes it in, or, under SB5, is put
        back as it was; a Break decision reports the position before it. */
    method Consume() returns (step: Step)
      requires Valid() && pos < |text|
      modifies this`pos, this`state
      ensures Valid() && pos == old(pos) + 1
      ensures step == Decide(scat, old(state), scat(text[old(pos)]), text[old(pos)..])
      ensures old(Remaining()) == (if step == Break then [old(pos)] else []) + Remaining()
    {
      var positionBefore := pos;
      var stateBefore := state;
      StateAtSlots(scat, text, positionBefore);
      assert stateBefore == StateAt(scat, text, positionBefore);
      ghost var rest := BreaksFrom(scat, text, positionBefore + 1) + [|text|];
      var nextCat := scat(text[pos]);
      step := Decide(scat, stateBefore, nextCat, text[positionBefore..]);
      ScanStep(scat, text, positionBefore);
      assert old(Remaining()) == (if step == Break then [positionBefore] else []) + rest;
      pos := pos + 1;
      state := NextState(state, nextCat);
      if step == Restore {
        state := stateBefore;
      }
      assert state == StateAt(scat, text, pos);
      assert state[3] != StatePart.Eot && Remaining() == rest;
    }

    /** SB2, once the whole text has been scanned: the end of a nonempty text is
        reported once, then nothing. */
    method Finish() returns (r: Option<nat>)
      requires Valid() && pos == |text|
      modifies this`state
      ensures Valid()
      ensures old(Remaining()) == [] ==> r == None && Remaining() == []
      ensures old(Remaining()) != [] ==> r == Some(old(Remaining())[0]) && Remaining() == old(Remaining())[1..]
      ensures old(Remaining()) == (if r.Some? then [r.value] else []) + Remaining()
    {
      StateAtSlots(scat, text, pos);
      if Match1(state, StatePart.Sot) {
        r := None;
      } else if Match1(state, StatePart.Eot) {
        r := None;
      } else {
        EndIsFinal(state);
        state := End(state);
        r := Some(pos);
      }
    }
  }

  class USentenceBounds {
    const iter: SentenceBreaks
    var sentenceStart: Option<nat>   // where the sentence being read began

    /** The remaining cut offsets: the start of the sentence being read, if any,
        then the offsets the scan has yet to report. */
    ghost function Cuts(): seq<nat>
      reads this, iter
      requires iter.Valid()
    {
      (if sentenceStart.Some? then [sentenceStart.value] else []) + iter.Remaining()
    }

    ghost predicate Valid()
      reads this, iter
    {
      iter.Valid() && ValidCuts(Cuts(), |iter.text|)
    }

    /** The sentences still to be returned, in order. */
    ghost function Remaining(): seq<seq<char>>
      reads this, iter
      requires Valid()
    {
      Slices(iter.text, Cuts())
    }

    /** size_hint as written: one fewer than the scan's hint, subtracted in usize. */
    function SizeHintAsWritten(): (r: (nat, Option<nat>))
      reads this, iter
      ensures r.0 < UsizeModulus && r.1.Some?
    {
      var (lower, upper) := iter.SizeHintAsWritten();
      (WrappingSub(lower, 1), if upper.Some? then Some(WrappingSub(upper.value, 1)) else None)
    }

    /** The upper bound as written, the length of the text, always bounds the
        sentences still to come (for any text shorter than the usize range). */
    lemma SizeHintAsWrittenUpper()
      requires Valid() && |iter.text| + 1 < UsizeModulus
      ensures |Remaining()| <= SizeHintAsWritten().1.value
    {
      CutsCount(Cuts(), |iter.text|, 0);
    }

    /** For the empty text the scan's lower bound is 0, so the subtraction wraps
        round and the hint promises the largest usize of sentences where there are none. */
    lemma EmptyTextHintAsWritten()
      requires Valid() && iter.text == []
      ensures Remaining() == [] && SizeHintAsWritten().0 == UsizeModulus - 1
    {
      BreaksFromSpec(iter.scat, iter.text, iter.pos);
    }

    /** Size hint from the scan's corrected hint: one sentence fewer than offsets
        unless a sentence has been started, never below zero. */
    function SizeHint(): (r: (nat, Option<nat>))
      reads this, iter
      requires Valid()
      ensures r.0 <= |Remaining()| && r.1.Some? && |Remaining()| <= r.1.value
    {
      var (lower, upper) := iter.SizeHint();
      if sentenceStart.Some? then (lower, upper)
      else (SaturatingSub(lower, 1), Some(SaturatingSub(upper.value, 1)))
    }

    /** new_sentence_bounds. */
    constructor (scat: SentenceTable, source: seq<char>)
      ensures Valid() && iter.text == source && iter.scat == scat && fresh(iter)
      ensures Remaining() == Sentences(scat, source)
    {
      iter := new SentenceBreaks(scat, source);
      sentenceStart := None;
      new;
      SentenceBreakListSpec(scat, source);
      assert Cuts() == SentenceBreakList(scat, source);
    }

    /** Returns the text from the start of the current sentence to the next break. */
    method Next() returns (r: Option<seq<char>>)
      requires Valid()
      modifies this`sentenceStart, iter`pos, iter`state
      ensures Valid()
      ensures old(Remaining()) == [] ==> r == None && Remaining() == []
      ensures old(Remaining()) != [] ==> r == Some(old(Remaining())[0]) && Remaining() == old(Remaining())[1..]
    {
      if sentenceStart == None {
        var started := Start();
        if !started {
          return None;
        }
      }
      r := Take();
    }

    /** Takes the first offset from the scan as the start of the first sentence;
        there is none for the empty text. */
    method Start() returns (started: bool)
      requires Valid() && sentenceStart == None
      modifies this`sentenceStart, iter`pos, iter`state
      ensures Valid() && Remaining() == old(Remaining())
      ensures started <==> sentenceStart.Some?
      ensures !started ==> Remaining() == []
    {
      ghost var cuts := Cuts();
      var startPos := iter.Next();
      if startPos.Some? {
        sentenceStart := startPos;
        assert Cuts() == cuts;
        started := true;
      } else {
        started := false;
      }
    }

    /** Returns the text from the start of the current sentence to the next offset
        the scan reports, which then starts the next sentence. */
    method Take() returns (r: Option<seq<char>>)
      requires Valid() && sentenceStart.Some?
      modifies this`sentenceStart, iter`pos, iter`state
      ensures Valid()
      ensures old(Remaining()) == [] ==> r == None && Remaining() == []
      ensures old(Remaining()) != [] ==> r == Some(old(Remaining())[0]) && Remaining() == old(Remaining())[1..]
    {
      ghost var cuts := Cuts();
      var breakPos := iter.Next();
      if breakPos.Some? {
        SlicesTail(iter.text, cuts);
        var startPos := sentenceStart.value;
        var sentence := iter.text[startPos..breakPos.value];
        sentenceStart := breakPos;
        assert Cuts() == cuts[1..];
        return Some(sentence);
      } else {
        assert Cuts() == cuts == [sentenceStart.value];
        return None;
      }
    }
  }
}
