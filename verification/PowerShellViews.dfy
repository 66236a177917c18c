// `powershell_source_views`: the scanning loop that builds the masked view.
module PowerShellViews {
  import opened Wrappers
  import opened Utf8
  import opened PowerShellLexer
  import opened PowerShellSegments
  import LineEndings

  datatype Views = Views(normalized: Bytes, code: Bytes)

  function Normalized(source: Bytes): Bytes {
    LineEndings.Normalize(source, RETURN, NEWLINE)
  }

  /** `segments` is a reading of the script `s`. */
  ghost predicate Script(segments: seq<Segment>, s: Bytes) {
    WellFormed(segments, []) && PrintAll(segments) == s
  }

  /** Whether each byte of a script is executable rather than part of a string or comment. */
  ghost function Flags(segments: seq<Segment>): seq<bool> {
    if segments == [] then []
    else seq(|Print(segments[0])|, _ => Executable(segments[0])) + Flags(segments[1..])
  }

  /** Executable bytes stand in both views, all others are blank in the masked view. */
  ghost predicate Aligned(normalized: Bytes, code: Bytes, flags: seq<bool>) {
    && |code| == |normalized| == |flags|
    && forall i :: 0 <= i < |code| ==> code[i] == if flags[i] then normalized[i] else Blank(normalized[i])
  }

  lemma {:induction false} SegmentsAlign(segments: seq<Segment>)
    ensures Aligned(PrintAll(segments), MaskAll(segments), Flags(segments))
  {
    if segments != [] {
      SegmentsAlign(segments[1..]);
    }
  }

  /** CR and CR LF to LF keeps UTF-8 well formed. */
  lemma NormalizedKeepsUtf8(source: Bytes)
    requires Valid(source)
    ensures Valid(Normalized(source))
  {
    LineEndings.TwoPassesAreOne(source, RETURN, NEWLINE);
    UnifiedKeepsUtf8(source);
  }

  lemma {:induction false} UnifiedKeepsUtf8(s: Bytes)
    requires Valid(s)
    ensures Valid(LineEndings.Unified(s, RETURN, NEWLINE))
    decreases |s|
  {
    if s != [] {
      var c, rest := FirstChar(s);
      UnifiedKeepsUtf8(rest);
      if s[0] != RETURN {
        UnifiedRun(c, rest);
        CharThenValid(c, LineEndings.Unified(rest, RETURN, NEWLINE));
      } else {
        assert s[1..] == rest;
        if |s| > 1 && s[1] == NEWLINE {
          AfterAscii(rest);
          assert rest[1..] == s[2..];
          UnifiedKeepsUtf8(s[2..]);
          AsciiThenValid([NEWLINE], LineEndings.Unified(s[2..], RETURN, NEWLINE));
        } else {
          AsciiThenValid([NEWLINE], LineEndings.Unified(rest, RETURN, NEWLINE));
        }
      }
    }
  }

  lemma {:induction false} UnifiedRun(run: Bytes, rest: Bytes)
    requires RETURN !in run
    ensures LineEndings.Unified(run + rest, RETURN, NEWLINE) == run + LineEndings.Unified(rest, RETURN, NEWLINE)
  {
    if run == [] {
      assert run + rest == rest;
    } else {
      UnifiedRun(run[1..], rest);
      assert (run + rest)[1..] == run[1..] + rest;
    }
  }

  /** The view scanned so far, and what is still to be scanned, make up the whole. */
  ghost predicate Progress(bytes: Bytes, index: nat, state: State, code: Bytes) {
    index <= |bytes| && Lex(Code, bytes) == Prepend(code, Lex(state, bytes[index..]))
  }

  lemma Start(bytes: Bytes)
    ensures Progress(bytes, 0, Code, [])
  {
    PrependNothing(Lex(Code, bytes));
    assert bytes[0..] == bytes;
  }

  /** A step taken from the middle of the script extends the view scanned so far. */
  lemma Advance(bytes: Bytes, index: nat, state: State, code: Bytes)
    requires Progress(bytes, index, state, code) && index < |bytes|
    ensures StepOf(state, bytes[index..]).Forbidden? ==> Lex(Code, bytes) == Err(HereString)
    ensures var step := StepOf(state, bytes[index..]);
            step.Emit? ==> Progress(bytes, index + |step.out|, step.next, code + step.out)
  {
    var step := StepOf(state, bytes[index..]);
    if step.Emit? {
      var rest := bytes[index + |step.out|..];
      assert bytes[index..][|step.out|..] == rest;
      PrependTwice(code, step.out, Lex(step.next, rest));
    }
  }

  /** One turn of the scanning loop; `forbidden` says that a here-string opens here. */
  method ScanOne(bytes: Bytes, state: State, code: Bytes, index: nat)
    returns (forbidden: bool, state': State, code': Bytes, index': nat)
    requires index < |bytes|
    ensures var step := StepOf(state, bytes[index..]);
            if forbidden then step.Forbidden?
            else step.Emit? && state' == step.next && code' == code + step.out && index' == index + |step.out|
  {
    forbidden, state', code', index' := false, state, code, index;
    var byte := bytes[index];
    var next := if index + 1 < |bytes| then Some(bytes[index + 1]) else None;
    match state {
      case Code =>
        if byte == AT && next.Some? && Quote(next.value) {
          return true, state, code, index;
        } else if byte == LESS && next == Some(HASH) {
          code' := code + [SPACE, SPACE];
          state', index' := BlockComment, index + 2;
        } else if byte == HASH {
          code' := code + [SPACE];
          state', index' := LineComment, index + 1;
        } else if byte == SINGLE_QUOTE {
          code' := code + [SPACE];
          state', index' := SingleQuoted, index + 1;
        } else if byte == DOUBLE_QUOTE {
          code' := code + [SPACE];
          state', index' := DoubleQuoted, index + 1;
        } else if byte == BACKTICK && next.Some? {
          code' := code + [byte, next.value];
          index' := index + 2;
        } else {
          code' := code + [byte];
          index' := index + 1;
        }
      case SingleQuoted =>
        if byte != SINGLE_QUOTE {
          code' := code + [Blank(byte)];
          index' := index + 1;
        } else if next == Some(SINGLE_QUOTE) {
          code' := code + [Blank(byte), SPACE];
          index' := index + 2;
        } else {
          code' := code + [Blank(byte)];
          state', index' := Code, index + 1;
        }
      case DoubleQuoted =>
        if byte == BACKTICK && next.Some? {
          code' := code + [Blank(byte), Blank(next.value)];
          index' := index + 2;
        } else {
          code' := code + [Blank(byte)];
          if byte == DOUBLE_QUOTE {
            state' := Code;
          }
          index' := index + 1;
        }
      case LineComment =>
        code' := code + [Blank(byte)];
        if byte == NEWLINE {
          state' := Code;
        }
        index' := index + 1;
      case BlockComment =>
        if byte == HASH && next == Some(GREATER) {
          code' := code + [SPACE, SPACE];
          state', index' := Code, index + 2;
        } else {
          code' := code + [Blank(byte)];
          index' := index + 1;
        }
    }
  }

  /** The scanning loop. */
  method Scan(bytes: Bytes) returns (r: Scanned)
    ensures r == Lex(Code, bytes)
    ensures r.Err? ==> r.error.HereString? || r.error.Unterminated?
  {
    var code: Bytes := [];
    var state := Code;
    var index := 0;
    Start(bytes);
    while index < |bytes|
      invariant 0 <= index <= |bytes|
      invariant Progress(bytes, index, state, code)
    {
      Advance(bytes, index, state, code);
      var forbidden;
      forbidden, state, code, index := ScanOne(bytes, state, code, index);
      if forbidden {
        return Err(HereString);
      }
    }
    assert bytes[index..] == [] && code + [] == code;
    return if state.Code? || state.LineComment? then Ok(code) else Err(Unterminated);
  }

  ghost predicate IsScript(s: Bytes) {
    exists segments :: Script(segments, s)
  }

  lemma LexOfScript(s: Bytes)
    ensures Lex(Code, s).Ok? <==> IsScript(s)
    ensures forall segments :: Script(segments, s) ==> Lex(Code, s) == Ok(MaskAll(segments))
  {
    forall segments | Script(segments, s)
      ensures Lex(Code, s) == Ok(MaskAll(segments))
    {
      AcceptsExactlyTheGrammar(s, MaskAll(segments));
    }
    if Lex(Code, s).Ok? {
      AcceptsExactlyTheGrammar(s, Lex(Code, s).value);
      var segments :| WellFormed(segments, []) && PrintAll(segments) == s && MaskAll(segments) == Lex(Code, s).value;
      assert Script(segments, s);
    }
  }

  /**
   * Accepts exactly the scripts of the segment grammar, with their strings and
   * comments blanked. On UTF-8 input the two checks after the scan never fail.
   */
  method SourceViews(source: Bytes) returns (r: Result<Views, ScanError>)
    ensures Valid(source) ==> (r.Ok? <==> IsScript(Normalized(source)))
    ensures Valid(source) ==> (r == Err(HereString) <==> HereStringIn(Normalized(source)))
    ensures Valid(source) && r.Err? ==> r.error.HereString? || r.error.Unterminated?
    ensures r.Ok? ==> IsScript(Normalized(source))
    ensures r.Ok? ==> forall segments :: Script(segments, Normalized(source)) ==> r.value.code == MaskAll(segments)
    ensures r.Ok? ==> r.value.normalized == Normalized(source) && Valid(r.value.code)
    ensures r.Ok? ==> Masks(r.value.normalized, r.value.code) && SameNewlines(r.value.normalized, r.value.code)
  {
    var normalized := LineEndings.Normalize(source, RETURN, NEWLINE);
    HereStringExactly(normalized);
    LexOfScript(normalized);
    var scanned := Scan(normalized);
    if scanned.Err? {
      return Err(scanned.error);
    }
    var code := scanned.value;
    LexMasks(Code, normalized);
    IsUtf8Exactly(code);
    if Valid(source) {
      NormalizedKeepsUtf8(source);
      LexKeepsUtf8(Code, normalized);
    }
    if !IsUtf8(code) {
      return Err(NotUtf8);
    }
    if |code| != |normalized| {
      return Err(OffsetsChanged);
    }
    return Ok(Views(normalized, code));
  }
}
