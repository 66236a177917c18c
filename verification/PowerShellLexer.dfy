// The five-state scanner of `powershell_source_views`, one step at a time.
module PowerShellLexer {
  import opened Wrappers
  import opened Utf8

  type Bytes = seq<Byte>

  const NEWLINE: Byte := 10
  const RETURN: Byte := 13
  const SPACE: Byte := 32
  const DOUBLE_QUOTE: Byte := 34
  const HASH: Byte := 35
  const SINGLE_QUOTE: Byte := 39
  const LESS: Byte := 60
  const GREATER: Byte := 62
  const AT: Byte := 64
  const BACKTICK: Byte := 96

  lemma BytesSpell()
    ensures Spells([NEWLINE, RETURN, SPACE, DOUBLE_QUOTE, HASH, SINGLE_QUOTE], "\n\r \"#'")
    ensures Spells([LESS, GREATER, AT, BACKTICK], "<>@`")
  {
  }

  datatype State = Code | SingleQuoted | DoubleQuoted | LineComment | BlockComment

  datatype ScanError = HereString | Unterminated | NotUtf8 | OffsetsChanged

  type Scanned = Result<Bytes, ScanError>

  function Blank(b: Byte): Byte {
    if b == NEWLINE then NEWLINE else SPACE
  }

  function Blanks(s: Bytes): (r: Bytes)
    ensures |r| == |s|
    ensures forall i :: 0 <= i < |s| ==> r[i] == Blank(s[i])
  {
    seq(|s|, i requires 0 <= i < |s| => Blank(s[i]))
  }

  predicate Quote(b: Byte) { b == SINGLE_QUOTE || b == DOUBLE_QUOTE }

  predicate StartsHereString(s: Bytes) {
    |s| > 1 && s[0] == AT && Quote(s[1])
  }

  /** What one scanner step appends to the masked view and the state it enters. */
  datatype Step = Forbidden | Emit(out: Bytes, next: State)

  function StepOf(state: State, s: Bytes): (step: Step)
    requires s != []
    ensures step.Emit? ==> 1 <= |step.out| <= 2 && |step.out| <= |s|
  {
    var two := |s| > 1;
    match state
    case Code =>
      if StartsHereString(s) then Forbidden
      else if two && s[0] == LESS && s[1] == HASH then Emit([SPACE, SPACE], BlockComment)
      else if s[0] == HASH then Emit([SPACE], LineComment)
      else if s[0] == SINGLE_QUOTE then Emit([SPACE], SingleQuoted)
      else if s[0] == DOUBLE_QUOTE then Emit([SPACE], DoubleQuoted)
      else if two && s[0] == BACKTICK then Emit(s[..2], Code)
      else Emit(s[..1], Code)
    case SingleQuoted =>
      if s[0] != SINGLE_QUOTE then Emit([Blank(s[0])], SingleQuoted)
      else if two && s[1] == SINGLE_QUOTE then Emit([SPACE, SPACE], SingleQuoted)
      else Emit([SPACE], Code)
    case DoubleQuoted =>
      if s[0] == BACKTICK && two then Emit([SPACE, Blank(s[1])], DoubleQuoted)
      else Emit([Blank(s[0])], if s[0] == DOUBLE_QUOTE then Code else DoubleQuoted)
    case LineComment =>
      Emit([Blank(s[0])], if s[0] == NEWLINE then Code else LineComment)
    case BlockComment =>
      if two && s[0] == HASH && s[1] == GREATER then Emit([SPACE, SPACE], Code)
      else Emit([Blank(s[0])], BlockComment)
  }

  function Prepend(out: Bytes, r: Scanned): Scanned {
    match r
    case Ok(code) => Ok(out + code)
    case Err(_) => r
  }

  /** The masked view of `s`, scanned from `state` to the end. */
  function Lex(state: State, s: Bytes): Scanned
    decreases |s|
  {
    if s == [] then
      if state.Code? || state.LineComment? then Ok([]) else Err(Unterminated)
    else match StepOf(state, s)
      case Forbidden => Err(HereString)
      case Emit(out, next) => Prepend(out, Lex(next, s[|out|..]))
  }

  lemma PrependTwice(a: Bytes, b: Bytes, r: Scanned)
    ensures Prepend(a, Prepend(b, r)) == Prepend(a + b, r)
  {
    if r.Ok? {
      assert a + (b + r.value) == a + b + r.value;
    }
  }

  lemma PrependNothing(r: Scanned)
    ensures Prepend([], r) == r
  {
    if r.Ok? {
      assert [] + r.value == r.value;
    }
  }

  /** One step, with the bytes it consumes written as a prefix. */
  lemma LexStep(state: State, s: Bytes, head: Bytes, tail: Bytes, out: Bytes, next: State)
    requires head != [] && s == head + tail && |out| == |head|
    requires StepOf(state, s) == Emit(out, next)
    ensures Lex(state, s) == Prepend(out, Lex(next, tail))
  {
    assert s[|head|..] == tail;
  }

  // ----- the masked view keeps every offset

  /** A masked view of a source: the same length, and every byte kept or blanked. */
  ghost predicate Masks(source: Bytes, code: Bytes) {
    && |code| == |source|
    && forall i :: 0 <= i < |source| ==> code[i] == source[i] || code[i] == Blank(source[i])
  }

  ghost predicate SameNewlines(source: Bytes, code: Bytes)
    requires |code| == |source|
  {
    forall i :: 0 <= i < |source| ==> (source[i] == NEWLINE <==> code[i] == NEWLINE)
  }

  lemma {:induction false} LexMasks(state: State, s: Bytes)
    requires Lex(state, s).Ok?
    ensures Masks(s, Lex(state, s).value) && SameNewlines(s, Lex(state, s).value)
    decreases |s|
  {
    if s != [] {
      var step := StepOf(state, s);
      var n := |step.out|;
      LexMasks(step.next, s[n..]);
      StepMasks(state, s, step.out);
      JoinedMasks(s, s[..n], s[n..], step.out, Lex(step.next, s[n..]).value);
    }
  }

  lemma StepMasks(state: State, s: Bytes, out: Bytes)
    requires s != [] && StepOf(state, s).Emit? && out == StepOf(state, s).out
    ensures Masks(s[..|out|], out) && SameNewlines(s[..|out|], out)
  {
  }

  lemma JoinedMasks(s: Bytes, head: Bytes, tail: Bytes, out: Bytes, rest: Bytes)
    requires s == head + tail && Masks(head, out) && Masks(tail, rest)
    requires SameNewlines(head, out) && SameNewlines(tail, rest)
    ensures Masks(s, out + rest) && SameNewlines(s, out + rest)
  {
    forall i | 0 <= i < |s|
      ensures (out + rest)[i] == s[i] || (out + rest)[i] == Blank(s[i])
      ensures s[i] == NEWLINE <==> (out + rest)[i] == NEWLINE
    {
      if i >= |head| {
        assert s[i] == tail[i - |head|];
      } else {
        assert s[i] == head[i];
      }
    }
  }

  // ----- valid UTF-8 in gives valid UTF-8 out

  function Treated(state: State, s: Bytes): (r: Bytes)
    ensures |r| == |s|
  {
    if state.Code? then s else Blanks(s)
  }

  /** Bytes above ASCII never start or end anything: the state stays and they share one fate. */
  lemma {:induction false} NonAsciiRun(state: State, run: Bytes, rest: Bytes)
    requires forall i :: 0 <= i < |run| ==> run[i] >= 0x80
    ensures Lex(state, run + rest) == Prepend(Treated(state, run), Lex(state, rest))
  {
    if run == [] {
      assert run + rest == rest;
      PrependNothing(Lex(state, rest));
    } else {
      var whole, tail := run + rest, run[1..] + rest;
      NonAsciiStep(state, whole, [run[0]]);
      LexStep(state, whole, [run[0]], tail, Treated(state, [run[0]]), state);
      NonAsciiRun(state, run[1..], rest);
      PrependTwice(Treated(state, [run[0]]), Treated(state, run[1..]), Lex(state, rest));
      TreatedConcat(state, [run[0]], run[1..], run);
    }
  }

  lemma NonAsciiStep(state: State, s: Bytes, first: Bytes)
    requires s != [] && s[0] >= 0x80 && first == [s[0]]
    ensures StepOf(state, s) == Emit(Treated(state, first), state)
  {
    assert s[..1] == first;
  }

  lemma TreatedConcat(state: State, a: Bytes, b: Bytes, s: Bytes)
    requires s == a + b
    ensures Treated(state, a) + Treated(state, b) == Treated(state, s)
  {
  }

  lemma ValidCharTreated(state: State, c: Bytes, s: Bytes)
    requires Char(c) && Valid(s)
    ensures Valid(Treated(state, c) + s)
  {
    if state.Code? {
      CharThenValid(c, s);
    } else {
      AsciiThenValid(Blanks(c), s);
    }
  }

  lemma LongerFirst(state: State, s: Bytes, c: Bytes, scanned: Scanned)
    requires Char(c) && scanned.Ok? && Valid(scanned.value) && Lex(state, s) == Prepend(Treated(state, c), scanned)
    ensures Valid(Lex(state, s).value)
  {
    ValidCharTreated(state, c, scanned.value);
  }

  lemma OneByteFirst(state: State, s: Bytes, out: Bytes, scanned: Scanned)
    requires |out| == 1 && out[0] < 0x80 && scanned.Ok? && Valid(scanned.value)
    requires Lex(state, s) == Prepend(out, scanned)
    ensures Valid(Lex(state, s).value)
  {
    AsciiThenValid(out, scanned.value);
  }

  lemma {:induction false} LexKeepsUtf8(state: State, s: Bytes)
    requires Valid(s) && Lex(state, s).Ok?
    ensures Valid(Lex(state, s).value)
    decreases |s|
  {
    if s == [] {
      EmptyValid();
    } else {
      var c, rest := FirstChar(s);
      var step := StepOf(state, s);
      if c[0] >= 0x80 {
        NonAsciiRun(state, c, rest);
        LexKeepsUtf8(state, rest);
        LongerFirst(state, s, c, Lex(state, rest));
      } else if |step.out| == 1 {
        LexStep(state, s, s[..1], rest, step.out, step.next);
        LexKeepsUtf8(step.next, rest);
        OneByteFirst(state, s, step.out, Lex(step.next, rest));
      } else {
        LexPair(state, s, rest);
      }
    }
  }

  /** A step that takes two bytes: the second is ASCII, or a backtick has taken the first byte of a longer character. */
  lemma {:induction false} LexPair(state: State, s: Bytes, rest: Bytes)
    requires |s| > 1 && s[0] < 0x80 && s == s[..1] + rest && Valid(rest)
    requires Lex(state, s).Ok? && |StepOf(state, s).out| == 2
    ensures Valid(Lex(state, s).value)
    decreases |rest|
  {
    var c, after := FirstChar(rest);
    assert s[1] == c[0];
    if c[0] < 0x80 {
      assert s[2..] == after;
      var next := StepOf(state, s).next;
      LexKeepsUtf8(next, after);
      AsciiPairValid(state, s, Lex(next, after).value);
    } else {
      EscapedCharSplits(state, s, c, after);
      LexKeepsUtf8(state, after);
      EscapedCharValid(state, s[..1], c, Lex(state, after).value);
    }
  }

  lemma AsciiPairValid(state: State, s: Bytes, tail: Bytes)
    requires |s| > 1 && s[0] < 0x80 && s[1] < 0x80 && Valid(tail)
    requires StepOf(state, s).Emit? && |StepOf(state, s).out| == 2
    ensures Valid(StepOf(state, s).out + tail)
  {
    AsciiThenValid(StepOf(state, s).out, tail);
  }

  lemma EscapedCharValid(state: State, a: Bytes, c: Bytes, tail: Bytes)
    requires |a| == 1 && a[0] < 0x80 && Char(c) && Valid(tail)
    ensures Valid(Treated(state, a) + Treated(state, c) + tail)
  {
    ValidCharTreated(state, c, tail);
    AsciiThenValid(Treated(state, a), Treated(state, c) + tail);
    assert Treated(state, a) + Treated(state, c) + tail == Treated(state, a) + (Treated(state, c) + tail);
  }

  lemma EscapeStep(state: State, s: Bytes, out: Bytes)
    requires |s| > 1 && s[0] < 0x80 <= s[1] && StepOf(state, s).Emit? && |StepOf(state, s).out| == 2
    requires out == Treated(state, s[..1]) + Treated(state, [s[1]])
    ensures (state.Code? || state.DoubleQuoted?) && StepOf(state, s) == Emit(out, state)
  {
    assert s[0] == BACKTICK;
    assert s[..2] == [s[0], s[1]];
  }

  lemma Grouped(a: Bytes, b: Bytes, c: Bytes, whole: Bytes)
    requires b + c == whole
    ensures a + b + c == a + whole
  {
  }

  lemma SecondTaken(s: Bytes, first: Bytes, c: Bytes, after: Bytes)
    requires |s| > 1 && c != [] && first == s[..1] && s == first + (c + after)
    ensures s[1] == c[0] && c[..1] == [s[1]] && s == s[..2] + (c[1..] + after)
  {
  }

  lemma EscapedCharSplits(state: State, s: Bytes, c: Bytes, after: Bytes)
    requires |c| > 0 && |s| > 1 && s[0] < 0x80 && s == s[..1] + (c + after)
    requires forall i :: 0 <= i < |c| ==> c[i] >= 0x80
    requires StepOf(state, s).Emit? && |StepOf(state, s).out| == 2
    ensures state.Code? || state.DoubleQuoted?
    ensures Lex(state, s) == Prepend(Treated(state, s[..1]) + Treated(state, c), Lex(state, after))
  {
    var out := Treated(state, s[..1]) + Treated(state, c[..1]);
    SecondTaken(s, s[..1], c, after);
    EscapeStep(state, s, out);
    LexStep(state, s, s[..2], c[1..] + after, out, state);
    NonAsciiRun(state, c[1..], after);
    PrependTwice(out, Treated(state, c[1..]), Lex(state, after));
    TreatedConcat(state, c[..1], c[1..], c);
    Grouped(Treated(state, s[..1]), Treated(state, c[..1]), Treated(state, c[1..]), Treated(state, c));
  }
}
