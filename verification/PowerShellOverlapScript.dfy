// A script built around two overlapping copies of a text: it leads the scanner to
// a chosen entry, shows the copies as they show on their own, and is accepted.
module PowerShellOverlapScript {
  import opened Sequences
  import opened Utf8
  import opened Wrappers
  import opened PowerShellLexer
  import opened PowerShellSegments
  import opened PowerShellOverlap

  /** Bytes that neither start nor end anything, alone or behind another byte. */
  predicate Neutral(b: Byte) {
    b < 0x80 && b !in {NEWLINE, RETURN, DOUBLE_QUOTE, HASH, SINGLE_QUOTE, LESS, GREATER, AT, BACKTICK}
  }

  function Fill(b: Byte, n: nat): (s: Bytes)
    ensures |s| == n && forall i :: 0 <= i < n ==> s[i] == b
  {
    seq(n, _ => b)
  }

  lemma {:induction false} FillRun(state: State, b: Byte, n: nat, rest: Bytes)
    requires Neutral(b)
    ensures Lex(state, Fill(b, n) + rest) == Prepend(Treated(state, Fill(b, n)), Lex(state, rest))
  {
    if n == 0 {
      assert Fill(b, 0) + rest == rest;
      PrependNothing(Lex(state, rest));
      assert Treated(state, Fill(b, 0)) == [];
    } else {
      var tail := Fill(b, n - 1) + rest;
      assert Fill(b, n) + rest == [b] + tail;
      NeutralStep(state, b, tail);
      FillRun(state, b, n - 1, rest);
      PrependTwice(Treated(state, [b]), Treated(state, Fill(b, n - 1)), Lex(state, rest));
      assert Treated(state, [b]) + Treated(state, Fill(b, n - 1)) == Treated(state, Fill(b, n));
    }
  }

  lemma NeutralStep(state: State, b: Byte, tail: Bytes)
    requires Neutral(b)
    ensures Lex(state, [b] + tail) == Prepend(Treated(state, [b]), Lex(state, tail))
  {
    assert ([b] + tail)[..1] == [b];
    LexStep(state, [b] + tail, [b], tail, Treated(state, [b]), state);
  }

  /** A neutral byte behind a text leaves the view of the text alone. */
  lemma {:induction false} GlanceCarries(state: State, s: Bytes, b: Byte, rest: Bytes)
    requires Neutral(b) && Glance(state, s).Some?
    ensures var (view, end) := Glance(state, s).value;
            Lex(state, s + ([b] + rest)) == Prepend(view + Treated(end, [b]), Lex(end, rest))
    decreases |s|
  {
    var whole := s + ([b] + rest);
    if s == [] {
      assert whole == [b] + rest && [] + Treated(state, [b]) == Treated(state, [b]);
      NeutralStep(state, b, rest);
    } else if |s| == 1 {
      LastByteCarries(state, s, b, rest);
    } else {
      var step := StepOf(state, s);
      var tail := s[|step.out|..];
      StepCarries(state, s, [b] + rest, step);
      GlanceCarries(step.next, tail, b, rest);
      var (view, end) := Glance(step.next, tail).value;
      PrependTwice(step.out, view + Treated(end, [b]), Lex(end, rest));
      Regroup(step.out, view, Treated(end, [b]));
    }
  }

  /** A step of a longer text is taken whatever follows the text. */
  lemma StepCarries(state: State, s: Bytes, more: Bytes, step: Step)
    requires |s| >= 2 && step == StepOf(state, s) && step.Emit?
    ensures Lex(state, s + more) == Prepend(step.out, Lex(step.next, s[|step.out|..] + more))
  {
    var head, tail := s[..|step.out|], s[|step.out|..];
    TwoDecide(state, s, more);
    assert s + more == head + (tail + more);
    LexStep(state, s + more, head, tail + more, step.out, step.next);
  }

  lemma LastByteCarries(state: State, s: Bytes, b: Byte, rest: Bytes)
    requires Neutral(b) && |s| == 1 && Glance(state, s).Some?
    ensures var (view, end) := Glance(state, s).value;
            Lex(state, s + ([b] + rest)) == Prepend(view + Treated(end, [b]), Lex(end, rest))
  {
    var whole, alone := s + ([b] + rest), StepOf(state, s);
    assert whole[0] == s[0] && whole[1] == b && s[1..] == [];
    assert Glance(state, s) == Some((alone.out + [], alone.next)) && alone.out + [] == alone.out;
    if s[0] == BACKTICK && (state.Code? || state.DoubleQuoted?) {
      assert whole == (s + [b]) + rest && whole[..2] == s + [b];
      assert StepOf(state, whole).out == alone.out + Treated(alone.next, [b]);
      LexStep(state, whole, s + [b], rest, alone.out + Treated(alone.next, [b]), alone.next);
    } else {
      assert whole[..1] == s;
      LexStep(state, whole, s, [b] + rest, alone.out, alone.next);
      NeutralStep(alone.next, b, rest);
      PrependTwice(alone.out, Treated(alone.next, [b]), Lex(alone.next, rest));
    }
  }

  lemma GlanceAtCarries(entry: Entry, s: Bytes, b: Byte, rest: Bytes)
    requires Neutral(b) && CanEnter(entry, s) && s != [] && GlanceAt(entry, s).Some?
    ensures var (view, end) := GlanceAt(entry, s).value;
            CanEnter(entry, s + ([b] + rest))
            && LexAt(entry, s + ([b] + rest)) == Prepend(view + Treated(end, [b]), Lex(end, rest))
  {
    var whole := s + ([b] + rest);
    assert whole[0] == s[0];
    if entry.At? {
      GlanceCarries(entry.state, s, b, rest);
    } else {
      assert whole[1..] == s[1..] + ([b] + rest);
      ShownCarries(Shown(entry, s[0]), After(entry), s[1..], b, rest);
    }
  }

  /** A byte shown in front of a view. */
  lemma ShownCarries(shown: Byte, state: State, s: Bytes, b: Byte, rest: Bytes)
    requires Neutral(b) && Glance(state, s).Some?
    ensures var (view, end) := Glance(state, s).value;
            Prepend([shown], Lex(state, s + ([b] + rest)))
            == Prepend([shown] + view + Treated(end, [b]), Lex(end, rest))
  {
    GlanceCarries(state, s, b, rest);
    var (view, end) := Glance(state, s).value;
    PrependTwice([shown], view + Treated(end, [b]), Lex(end, rest));
    Regroup([shown], view, Treated(end, [b]));
  }

  /** What ends a script from each state. */
  function Closing(state: State): Bytes {
    match state
    case SingleQuoted => [SINGLE_QUOTE]
    case DoubleQuoted => [DOUBLE_QUOTE]
    case BlockComment => [HASH, GREATER]
    case _ => []
  }

  lemma ClosingCloses(state: State)
    ensures Lex(state, Closing(state)) == Ok(Blanks(Closing(state)))
  {
    if state.Code? || state.LineComment? {
      assert Blanks([]) == [];
    } else {
      ClosingStep(state, Closing(state), []);
      assert Closing(state) + [] == Closing(state);
      assert Blanks(Closing(state)) + [] == Blanks(Closing(state));
    }
  }

  /** What leads to each entry; `n` bytes of filling keep the opening apart from what follows. */
  function Opening(entry: Entry, b: Byte, n: nat): Bytes {
    match entry
    case At(Code) => []
    case At(SingleQuoted) => [SINGLE_QUOTE] + Fill(b, n)
    case At(DoubleQuoted) => [DOUBLE_QUOTE] + Fill(b, n)
    case At(LineComment) => [HASH] + Fill(b, n)
    case At(BlockComment) => [LESS, HASH] + Fill(b, n)
    case InBlockOpening => [LESS]
    case InEscape => [BACKTICK]
    case InDoubledQuote => [SINGLE_QUOTE] + Fill(b, n) + [SINGLE_QUOTE]
    case InStringEscape => [DOUBLE_QUOTE] + Fill(b, n) + [BACKTICK]
    case InBlockClosing => [LESS, HASH] + Fill(b, n) + [HASH]
  }

  /** What opens a state in front of a filling. */
  lemma OpenedFill(state: State, opening: Bytes, b: Byte, n: nat, rest: Bytes) returns (mask: Bytes)
    requires Neutral(b) && n > 0 && Opens(opening, state)
    ensures |mask| == |opening| + n && Lex(Code, opening + Fill(b, n) + rest) == Prepend(mask, Lex(state, rest))
  {
    var tail := Fill(b, n) + rest;
    OpeningStep(opening, state, tail);
    assert opening + Fill(b, n) + rest == opening + tail;
    LexStep(Code, opening + tail, opening, tail, Blanks(opening), state);
    FillRun(state, b, n, rest);
    PrependTwice(Blanks(opening), Treated(state, Fill(b, n)), Lex(state, rest));
    mask := Blanks(opening) + Treated(state, Fill(b, n));
  }

  /** The second byte of a step that takes two, in front of the rest. */
  lemma PairStep(state: State, entry: Entry, first: Byte, rest: Bytes)
    requires rest != [] && !entry.At? && Enters(entry, rest[0])
    requires StepOf(state, [first] + rest)
             == Emit([if state.Code? && first == BACKTICK then first else SPACE, Shown(entry, rest[0])], After(entry))
    ensures exists out: Byte :: Lex(state, [first] + rest) == Prepend([out], LexAt(entry, rest))
  {
    var out := if state.Code? && first == BACKTICK then first else SPACE;
    var whole := [first] + rest;
    assert whole == whole[..2] + rest[1..];
    LexStep(state, whole, whole[..2], rest[1..], [out, Shown(entry, rest[0])], After(entry));
    PrependTwice([out], [Shown(entry, rest[0])], Lex(After(entry), rest[1..]));
    assert [out] + [Shown(entry, rest[0])] == [out, Shown(entry, rest[0])];
  }

  lemma PairIn(state: State, entry: Entry, first: Byte, rest: Bytes) returns (out: Byte)
    requires rest != [] && !entry.At? && Enters(entry, rest[0])
    requires match entry
             case InBlockOpening => state.Code? && first == LESS
             case InEscape => state.Code? && first == BACKTICK
             case InDoubledQuote => state.SingleQuoted? && first == SINGLE_QUOTE
             case InStringEscape => state.DoubleQuoted? && first == BACKTICK
             case InBlockClosing => state.BlockComment? && first == HASH
    ensures Lex(state, [first] + rest) == Prepend([out], LexAt(entry, rest))
  {
    var whole := [first] + rest;
    assert whole[0] == first && whole[1] == rest[0] && whole[..2] == [first, rest[0]];
    PairStep(state, entry, first, rest);
    out :| Lex(state, [first] + rest) == Prepend([out], LexAt(entry, rest));
  }

  /** The opening takes the scanner to its entry. */
  lemma OpeningArrives(entry: Entry, b: Byte, n: nat, rest: Bytes) returns (mask: Bytes)
    requires Neutral(b) && n > 0 && CanEnter(entry, rest)
    ensures |mask| == |Opening(entry, b, n)|
    ensures Lex(Code, Opening(entry, b, n) + rest) == Prepend(mask, LexAt(entry, rest))
  {
    match entry {
      case At(Code) =>
        assert [] + rest == rest;
        PrependNothing(Lex(Code, rest));
        mask := [];
      case At(SingleQuoted) => mask := OpenedFill(SingleQuoted, [SINGLE_QUOTE], b, n, rest);
      case At(DoubleQuoted) => mask := OpenedFill(DoubleQuoted, [DOUBLE_QUOTE], b, n, rest);
      case At(LineComment) => mask := OpenedFill(LineComment, [HASH], b, n, rest);
      case At(BlockComment) => mask := OpenedFill(BlockComment, [LESS, HASH], b, n, rest);
      case InBlockOpening => var out := PairIn(Code, entry, LESS, rest); mask := [out];
      case InEscape => var out := PairIn(Code, entry, BACKTICK, rest); mask := [out];
      case InDoubledQuote => mask := OpenedPair(SingleQuoted, [SINGLE_QUOTE], entry, SINGLE_QUOTE, b, n, rest);
      case InStringEscape => mask := OpenedPair(DoubleQuoted, [DOUBLE_QUOTE], entry, BACKTICK, b, n, rest);
      case InBlockClosing => mask := OpenedPair(BlockComment, [LESS, HASH], entry, HASH, b, n, rest);
    }
  }

  lemma OpenedPair(state: State, opening: Bytes, entry: Entry, first: Byte, b: Byte, n: nat, rest: Bytes)
    returns (mask: Bytes)
    requires Neutral(b) && n > 0 && Opens(opening, state) && rest != [] && !entry.At? && Enters(entry, rest[0])
    requires match entry
             case InDoubledQuote => state.SingleQuoted? && first == SINGLE_QUOTE
             case InStringEscape => state.DoubleQuoted? && first == BACKTICK
             case InBlockClosing => state.BlockComment? && first == HASH
             case _ => false
    ensures |mask| == |opening| + n + 1
    ensures Lex(Code, opening + Fill(b, n) + [first] + rest) == Prepend(mask, LexAt(entry, rest))
  {
    var front := OpenedFill(state, opening, b, n, [first] + rest);
    var out := PairIn(state, entry, first, rest);
    assert opening + Fill(b, n) + [first] + rest == opening + Fill(b, n) + ([first] + rest);
    PrependTwice(front, [out], LexAt(entry, rest));
    mask := front + [out];
  }

  /** The overlap with its opening, a filling behind it and what closes the last state. */
  function Script(entry: Entry, both: Bytes, end: State, front: Byte, back: Byte, n: nat): Bytes {
    Opening(entry, front, n) + (both + (Fill(back, n) + Closing(end)))
  }

  /** What stands behind the overlap is accepted from its last state. */
  lemma TailScans(end: State, back: Byte, n: nat) returns (code: Bytes)
    requires Neutral(back)
    ensures Lex(end, Fill(back, n) + Closing(end)) == Ok(code)
  {
    FillRun(end, back, n, Closing(end));
    ClosingCloses(end);
    code := Treated(end, Fill(back, n)) + Blanks(Closing(end));
  }

  /** The overlap and what stands behind it, from its entry. */
  lemma OverlapScans(entry: Entry, both: Bytes, view: Bytes, end: State, back: Byte, n: nat, whole: Bytes)
    returns (code: Bytes)
    requires Neutral(back) && n > 0 && whole == both + (Fill(back, n) + Closing(end))
    requires both != [] && CanEnter(entry, both) && GlanceAt(entry, both) == Some((view, end))
    ensures CanEnter(entry, whole) && LexAt(entry, whole) == Ok(view + code)
  {
    var rest := Fill(back, n - 1) + Closing(end);
    assert Fill(back, n) + Closing(end) == [back] + rest;
    GlanceAtCarries(entry, both, back, rest);
    var tail := TailScans(end, back, n - 1);
    code := Treated(end, [back]) + tail;
    Regroup(view, Treated(end, [back]), tail);
  }

  /** The script is accepted, and its view holds the view of the overlap. */
  lemma ScriptScans(entry: Entry, both: Bytes, view: Bytes, end: State, front: Byte, back: Byte, n: nat)
    returns (code: Bytes)
    requires Neutral(front) && Neutral(back) && n > 0
    requires both != [] && CanEnter(entry, both) && GlanceAt(entry, both) == Some((view, end))
    ensures Lex(Code, Script(entry, both, end, front, back, n)) == Ok(code)
    ensures var a := |Opening(entry, front, n)|;
            a + |view| <= |code| && code[a..a + |view|] == view
  {
    var whole := both + (Fill(back, n) + Closing(end));
    var tail := OverlapScans(entry, both, view, end, back, n, whole);
    var mask := OpeningArrives(entry, front, n, whole);
    code := mask + (view + tail);
    InTheMiddle(mask, view, tail);
  }

  lemma InTheMiddle(front: Bytes, middle: Bytes, back: Bytes)
    ensures (front + (middle + back))[|front|..|front| + |middle|] == middle
  {
  }
}
