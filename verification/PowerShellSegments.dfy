// The lexical grammar that the five-state scanner recognises: a script is a
// list of segments, each printed in exactly one way. The grammar knows nothing
// of states; the theorems say that the scanner accepts precisely the scripts it
// generates and blanks precisely their strings and comments.
module PowerShellSegments {
  import opened Wrappers
  import opened Utf8
  import opened PowerShellLexer

  datatype Item = Literal(b: Byte) | Quoted(b: Byte)

  datatype Segment =
    | Plain(b: Byte)
    | Escaped(b: Byte)
    | SingleString(content: Bytes)       // the string's value, its quotes not yet doubled
    | DoubleString(items: seq<Item>)
    | Remark(body: Bytes, ended: bool)   // `ended`: closed by a newline rather than by the end of the script
    | BlockRemark(body: Bytes)

  // ----- printing

  function Doubled(content: Bytes): Bytes {
    if content == [] then []
    else (if content[0] == SINGLE_QUOTE then [SINGLE_QUOTE, SINGLE_QUOTE] else [content[0]]) + Doubled(content[1..])
  }

  function PrintItem(item: Item): Bytes {
    match item
    case Literal(b) => [b]
    case Quoted(b) => [BACKTICK, b]
  }

  function PrintItems(items: seq<Item>): Bytes {
    if items == [] then [] else PrintItem(items[0]) + PrintItems(items[1..])
  }

  function Print(segment: Segment): (s: Bytes)
    ensures s != []
  {
    match segment
    case Plain(b) => [b]
    case Escaped(b) => [BACKTICK, b]
    case SingleString(content) => [SINGLE_QUOTE] + Doubled(content) + [SINGLE_QUOTE]
    case DoubleString(items) => [DOUBLE_QUOTE] + PrintItems(items) + [DOUBLE_QUOTE]
    case Remark(body, ended) => [HASH] + body + if ended then [NEWLINE] else []
    case BlockRemark(body) => [LESS, HASH] + body + [HASH, GREATER]
  }

  function PrintAll(segments: seq<Segment>): Bytes {
    if segments == [] then [] else Print(segments[0]) + PrintAll(segments[1..])
  }

  // ----- the masked view a script should have

  predicate Executable(segment: Segment) {
    segment.Plain? || segment.Escaped?
  }

  function Mask(segment: Segment): Bytes {
    if Executable(segment) then Print(segment) else Blanks(Print(segment))
  }

  function MaskAll(segments: seq<Segment>): Bytes {
    if segments == [] then [] else Mask(segments[0]) + MaskAll(segments[1..])
  }

  // ----- which lists of segments are scripts

  predicate StartsWith(s: Bytes, b: Byte) { s != [] && s[0] == b }

  predicate StartsWithTwo(s: Bytes, a: Byte, b: Byte) { |s| > 1 && s[0] == a && s[1] == b }

  predicate PlainFits(b: Byte, rest: Bytes) {
    && b != HASH && !Quote(b)
    && (b == AT ==> rest == [] || !Quote(rest[0]))
    && (b == LESS ==> !StartsWith(rest, HASH))
    && (b == BACKTICK ==> rest == [])
  }

  predicate NoBlockEnd(body: Bytes) {
    forall i :: 0 <= i < |body| - 1 ==> !(body[i] == HASH && body[i + 1] == GREATER)
  }

  predicate ItemsFit(items: seq<Item>) {
    forall item <- items :: item.Literal? ==> item.b != BACKTICK && item.b != DOUBLE_QUOTE
  }

  /** `segment` is what stands at the head of `Print(segment) + rest`. */
  predicate Fits(segment: Segment, rest: Bytes) {
    match segment
    case Plain(b) => PlainFits(b, rest)
    case Escaped(_) => true
    case SingleString(_) => !StartsWith(rest, SINGLE_QUOTE)
    case DoubleString(items) => ItemsFit(items)
    case Remark(body, ended) => NEWLINE !in body && (ended || rest == [])
    case BlockRemark(body) => NoBlockEnd(body)
  }

  predicate WellFormed(segments: seq<Segment>, rest: Bytes) {
    segments == [] || (Fits(segments[0], PrintAll(segments[1..]) + rest) && WellFormed(segments[1..], rest))
  }

  /** A string or block comment is opened and never closed. */
  predicate Unclosed(s: Bytes) {
    || (StartsWith(s, SINGLE_QUOTE) && SingleBody(s[1..]).None?)
    || (StartsWith(s, DOUBLE_QUOTE) && DoubleBody(s[1..]).None?)
    || (StartsWithTwo(s, LESS, HASH) && BlockBody(s[2..]).None?)
  }

  // ----- reading segments back

  function SingleBody(s: Bytes): Option<Bytes>
    decreases |s|
  {
    if s == [] then None
    else if s[0] != SINGLE_QUOTE then Before(s[0], SingleBody(s[1..]))
    else if StartsWith(s[1..], SINGLE_QUOTE) then Before(SINGLE_QUOTE, SingleBody(s[2..]))
    else Some([])
  }

  function DoubleBody(s: Bytes): Option<seq<Item>>
    decreases |s|
  {
    if s == [] then None
    else if s[0] == DOUBLE_QUOTE then Some([])
    else if s[0] != BACKTICK then Before(Literal(s[0]), DoubleBody(s[1..]))
    else if |s| > 1 then Before(Quoted(s[1]), DoubleBody(s[2..]))
    else None
  }

  function BlockBody(s: Bytes): Option<Bytes> {
    if s == [] then None
    else if StartsWithTwo(s, HASH, GREATER) then Some([])
    else Before(s[0], BlockBody(s[1..]))
  }

  function Before<T>(head: T, tail: Option<seq<T>>): Option<seq<T>> {
    match tail
    case None => None
    case Some(t) => Some([head] + t)
  }

  function LineBody(s: Bytes): (body: Bytes)
    ensures body <= s && NEWLINE !in body
    ensures |body| < |s| ==> s[|body|] == NEWLINE
  {
    if s == [] || s[0] == NEWLINE then [] else [s[0]] + LineBody(s[1..])
  }

  /** The segment at the head of `s`, if there is one. */
  function Head(s: Bytes): Option<Segment> {
    if s == [] || StartsHereString(s) then None
    else if StartsWithTwo(s, LESS, HASH) then
      match BlockBody(s[2..]) { case None => None case Some(body) => Some(BlockRemark(body)) }
    else if s[0] == HASH then
      var body := LineBody(s[1..]);
      Some(Remark(body, |body| + 1 < |s|))
    else if s[0] == SINGLE_QUOTE then
      match SingleBody(s[1..]) { case None => None case Some(content) => Some(SingleString(content)) }
    else if s[0] == DOUBLE_QUOTE then
      match DoubleBody(s[1..]) { case None => None case Some(items) => Some(DoubleString(items)) }
    else if s[0] == BACKTICK && |s| > 1 then Some(Escaped(s[1]))
    else Some(Plain(s[0]))
  }

  // ----- each kind of body: printing, reading and scanning agree

  /** One masked step in front of a masked stretch that ends back in code. */
  lemma MaskedStep(state: State, head: Bytes, next: State, masked: Bytes, rest: Bytes)
    requires 1 <= |head| <= 2
    requires StepOf(state, head + (masked + rest)) == Emit(Blanks(head), next)
    requires Lex(next, masked + rest) == Prepend(Blanks(masked), Lex(Code, rest))
    ensures Lex(state, head + masked + rest) == Prepend(Blanks(head + masked), Lex(Code, rest))
  {
    assert head + masked + rest == head + (masked + rest);
    LexStep(state, head + masked + rest, head, masked + rest, Blanks(head), next);
    BlanksJoin(head, masked, Lex(Code, rest));
  }

  lemma BlanksJoin(a: Bytes, b: Bytes, r: Scanned)
    ensures Prepend(Blanks(a), Prepend(Blanks(b), r)) == Prepend(Blanks(a + b), r)
  {
    PrependTwice(Blanks(a), Blanks(b), r);
    assert Blanks(a) + Blanks(b) == Blanks(a + b);
  }

  /** The step that closes a masked stretch. */
  lemma ClosingStep(state: State, close: Bytes, rest: Bytes)
    requires 1 <= |close| <= 2
    requires StepOf(state, close + rest) == Emit(Blanks(close), Code)
    ensures Lex(state, close + rest) == Prepend(Blanks(close), Lex(Code, rest))
  {
    assert (close + rest)[|close|..] == rest;
  }

  lemma SingleStep(head: Bytes, tail: Bytes, rest: Bytes)
    requires head == [SINGLE_QUOTE, SINGLE_QUOTE] || (|head| == 1 && head[0] != SINGLE_QUOTE)
    requires Lex(SingleQuoted, tail + rest) == Prepend(Blanks(tail), Lex(Code, rest))
    ensures Lex(SingleQuoted, head + tail + rest) == Prepend(Blanks(head + tail), Lex(Code, rest))
  {
    assert StepOf(SingleQuoted, head + (tail + rest)) == Emit(Blanks(head), SingleQuoted);
    MaskedStep(SingleQuoted, head, SingleQuoted, tail, rest);
  }

  lemma {:induction false} SingleBodyLexed(content: Bytes, rest: Bytes)
    requires !StartsWith(rest, SINGLE_QUOTE)
    ensures Lex(SingleQuoted, Doubled(content) + [SINGLE_QUOTE] + rest)
         == Prepend(Blanks(Doubled(content) + [SINGLE_QUOTE]), Lex(Code, rest))
  {
    if content == [] {
      ClosingStep(SingleQuoted, [SINGLE_QUOTE], rest);
      assert Doubled(content) + [SINGLE_QUOTE] == [SINGLE_QUOTE];
    } else {
      var tail := Doubled(content[1..]) + [SINGLE_QUOTE];
      var head := if content[0] == SINGLE_QUOTE then [SINGLE_QUOTE, SINGLE_QUOTE] else [content[0]];
      SingleBodyLexed(content[1..], rest);
      SingleStep(head, tail, rest);
      assert Doubled(content) + [SINGLE_QUOTE] == head + tail;
    }
  }

  lemma {:induction false} SingleBodyPrinted(content: Bytes, rest: Bytes)
    requires !StartsWith(rest, SINGLE_QUOTE)
    ensures SingleBody(Doubled(content) + [SINGLE_QUOTE] + rest) == Some(content)
  {
    var whole := Doubled(content) + [SINGLE_QUOTE] + rest;
    if content == [] {
      assert whole == [SINGLE_QUOTE] + rest;
    } else {
      SingleBodyPrinted(content[1..], rest);
      var tail := Doubled(content[1..]) + [SINGLE_QUOTE] + rest;
      if content[0] == SINGLE_QUOTE {
        assert whole == [SINGLE_QUOTE, SINGLE_QUOTE] + tail;
      } else {
        assert whole == [content[0]] + tail;
      }
      assert [content[0]] + content[1..] == content;
    }
  }

  lemma {:induction false} SingleBodyRead(s: Bytes)
    ensures SingleBody(s).None? ==> Lex(SingleQuoted, s) == Err(Unterminated)
    ensures SingleBody(s).Some? ==>
              var printed := Doubled(SingleBody(s).value) + [SINGLE_QUOTE];
              printed <= s && !StartsWith(s[|printed|..], SINGLE_QUOTE)
    decreases |s|
  {
    if s != [] && !(s[0] == SINGLE_QUOTE && !StartsWith(s[1..], SINGLE_QUOTE)) {
      var k := if s[0] == SINGLE_QUOTE then 2 else 1;
      var tail := s[k..];
      SingleBodyRead(tail);
      if SingleBody(tail).Some? {
        var content := SingleBody(s).value;
        assert content[1..] == SingleBody(tail).value;
        var inner := Doubled(content[1..]) + [SINGLE_QUOTE];
        assert Doubled(content) + [SINGLE_QUOTE] == s[..k] + inner;
        assert s[k + |inner|..] == tail[|inner|..];
      }
    }
  }

  lemma DoubleStep(item: Item, tail: Bytes, rest: Bytes)
    requires item.Literal? ==> item.b != BACKTICK && item.b != DOUBLE_QUOTE
    requires Lex(DoubleQuoted, tail + rest) == Prepend(Blanks(tail), Lex(Code, rest))
    ensures Lex(DoubleQuoted, PrintItem(item) + tail + rest) == Prepend(Blanks(PrintItem(item) + tail), Lex(Code, rest))
  {
    var head := PrintItem(item);
    assert StepOf(DoubleQuoted, head + (tail + rest)) == Emit(Blanks(head), DoubleQuoted);
    MaskedStep(DoubleQuoted, head, DoubleQuoted, tail, rest);
  }

  lemma {:induction false} DoubleBodyLexed(items: seq<Item>, rest: Bytes)
    requires ItemsFit(items)
    ensures Lex(DoubleQuoted, PrintItems(items) + [DOUBLE_QUOTE] + rest)
         == Prepend(Blanks(PrintItems(items) + [DOUBLE_QUOTE]), Lex(Code, rest))
  {
    if items == [] {
      ClosingStep(DoubleQuoted, [DOUBLE_QUOTE], rest);
      assert PrintItems(items) + [DOUBLE_QUOTE] == [DOUBLE_QUOTE];
    } else {
      var tail := PrintItems(items[1..]) + [DOUBLE_QUOTE];
      var head := PrintItem(items[0]);
      assert items[0] in items;
      DoubleBodyLexed(items[1..], rest);
      DoubleStep(items[0], tail, rest);
      assert PrintItems(items) + [DOUBLE_QUOTE] == head + tail;
    }
  }

  lemma ItemRead(item: Item, items: seq<Item>, tail: Bytes)
    requires ItemsFit([item]) && DoubleBody(tail) == Some(items)
    ensures DoubleBody(PrintItem(item) + tail) == Some([item] + items)
  {
    assert item in [item];
    assert (PrintItem(item) + tail)[|PrintItem(item)|..] == tail;
  }

  lemma {:induction false} DoubleBodyPrinted(items: seq<Item>, rest: Bytes)
    requires ItemsFit(items)
    ensures DoubleBody(PrintItems(items) + [DOUBLE_QUOTE] + rest) == Some(items)
  {
    var whole := PrintItems(items) + [DOUBLE_QUOTE] + rest;
    if items == [] {
      assert whole == [DOUBLE_QUOTE] + rest;
    } else {
      assert items[0] in items;
      DoubleBodyPrinted(items[1..], rest);
      ItemRead(items[0], items[1..], PrintItems(items[1..]) + [DOUBLE_QUOTE] + rest);
      assert whole == PrintItem(items[0]) + (PrintItems(items[1..]) + [DOUBLE_QUOTE] + rest);
      assert [items[0]] + items[1..] == items;
    }
  }

  lemma {:induction false} DoubleBodyRead(s: Bytes)
    ensures DoubleBody(s).None? ==> Lex(DoubleQuoted, s) == Err(Unterminated)
    ensures DoubleBody(s).Some? ==>
              ItemsFit(DoubleBody(s).value) && PrintItems(DoubleBody(s).value) + [DOUBLE_QUOTE] <= s
    decreases |s|
  {
    if s != [] && s[0] != DOUBLE_QUOTE && !(s[0] == BACKTICK && |s| == 1) {
      var k := if s[0] == BACKTICK then 2 else 1;
      DoubleBodyRead(s[k..]);
      if DoubleBody(s[k..]).Some? {
        var items := DoubleBody(s).value;
        assert items[1..] == DoubleBody(s[k..]).value;
        assert PrintItems(items) == s[..k] + PrintItems(items[1..]);
      }
    }
  }

  lemma LineStep(b: Byte, tail: Bytes, rest: Bytes)
    requires b != NEWLINE
    requires Lex(LineComment, tail + rest) == Prepend(Blanks(tail), Lex(Code, rest))
    ensures Lex(LineComment, [b] + tail + rest) == Prepend(Blanks([b] + tail), Lex(Code, rest))
  {
    assert StepOf(LineComment, [b] + (tail + rest)) == Emit(Blanks([b]), LineComment);
    MaskedStep(LineComment, [b], LineComment, tail, rest);
  }

  lemma {:induction false} LineBodyLexed(body: Bytes, close: Bytes, rest: Bytes)
    requires NEWLINE !in body
    requires close == [NEWLINE] || (close == [] && rest == [])
    ensures Lex(LineComment, body + close + rest) == Prepend(Blanks(body + close), Lex(Code, rest))
  {
    if body != [] {
      var tail := body[1..] + close;
      LineBodyLexed(body[1..], close, rest);
      LineStep(body[0], tail, rest);
      assert body + close == [body[0]] + tail;
    } else {
      assert body + close == close;
      if close == [NEWLINE] {
        ClosingStep(LineComment, close, rest);
      } else {
        PrependNothing(Lex(Code, rest));
      }
    }
  }

  lemma {:induction false} LineBodyPrinted(body: Bytes, close: Bytes, rest: Bytes)
    requires NEWLINE !in body
    requires close == [NEWLINE] || (close == [] && rest == [])
    ensures LineBody(body + close + rest) == body
  {
    if body != [] {
      LineBodyPrinted(body[1..], close, rest);
      assert body + close + rest == [body[0]] + (body[1..] + close + rest);
    }
  }

  lemma BlockStep(b: Byte, tail: Bytes, rest: Bytes)
    requires tail != [] && !(b == HASH && tail[0] == GREATER)
    requires Lex(BlockComment, tail + rest) == Prepend(Blanks(tail), Lex(Code, rest))
    ensures Lex(BlockComment, [b] + tail + rest) == Prepend(Blanks([b] + tail), Lex(Code, rest))
  {
    assert ([b] + (tail + rest))[1] == tail[0];
    assert StepOf(BlockComment, [b] + (tail + rest)) == Emit(Blanks([b]), BlockComment);
    MaskedStep(BlockComment, [b], BlockComment, tail, rest);
  }

  lemma {:induction false} BlockBodyLexed(body: Bytes, rest: Bytes)
    requires NoBlockEnd(body)
    ensures Lex(BlockComment, body + [HASH, GREATER] + rest)
         == Prepend(Blanks(body + [HASH, GREATER]), Lex(Code, rest))
  {
    if body == [] {
      ClosingStep(BlockComment, [HASH, GREATER], rest);
      assert body + [HASH, GREATER] == [HASH, GREATER];
    } else {
      var tail := body[1..] + [HASH, GREATER];
      BlockBodyLexed(body[1..], rest);
      BlockStep(body[0], tail, rest);
      assert body + [HASH, GREATER] == [body[0]] + tail;
    }
  }

  lemma {:induction false} BlockBodyPrinted(body: Bytes, rest: Bytes)
    requires NoBlockEnd(body)
    ensures BlockBody(body + [HASH, GREATER] + rest) == Some(body)
  {
    var whole := body + [HASH, GREATER] + rest;
    if body == [] {
      assert whole == [HASH, GREATER] + rest;
    } else {
      BlockBodyPrinted(body[1..], rest);
      var tail := body[1..] + [HASH, GREATER] + rest;
      assert tail[0] == if |body| > 1 then body[1] else HASH;
      assert whole == [body[0]] + tail && whole[1..] == tail;
      assert [body[0]] + body[1..] == body;
    }
  }

  lemma {:induction false} BlockBodyRead(s: Bytes)
    ensures BlockBody(s).None? ==> Lex(BlockComment, s) == Err(Unterminated)
    ensures BlockBody(s).Some? ==>
              NoBlockEnd(BlockBody(s).value) && BlockBody(s).value + [HASH, GREATER] <= s
  {
    if s != [] && !StartsWithTwo(s, HASH, GREATER) {
      BlockBodyRead(s[1..]);
      if BlockBody(s[1..]).Some? {
        var body, inner := BlockBody(s).value, BlockBody(s[1..]).value;
        assert body == [s[0]] + inner;
        assert inner != [] ==> inner[0] == s[1];
      }
    }
  }

  // ----- one segment

  lemma HeadSingle(content: Bytes, rest: Bytes)
    requires !StartsWith(rest, SINGLE_QUOTE)
    ensures Head(Print(SingleString(content)) + rest) == Some(SingleString(content))
  {
    var tail := Doubled(content) + [SINGLE_QUOTE] + rest;
    SingleBodyPrinted(content, rest);
    assert Print(SingleString(content)) + rest == [SINGLE_QUOTE] + tail && ([SINGLE_QUOTE] + tail)[1..] == tail;
  }

  lemma HeadDouble(items: seq<Item>, rest: Bytes)
    requires ItemsFit(items)
    ensures Head(Print(DoubleString(items)) + rest) == Some(DoubleString(items))
  {
    var tail := PrintItems(items) + [DOUBLE_QUOTE] + rest;
    DoubleBodyPrinted(items, rest);
    assert Print(DoubleString(items)) + rest == [DOUBLE_QUOTE] + tail;
    HeadAtDoubleQuote(tail);
  }

  lemma HeadAtDoubleQuote(tail: Bytes)
    requires DoubleBody(tail).Some?
    ensures Head([DOUBLE_QUOTE] + tail) == Some(DoubleString(DoubleBody(tail).value))
  {
    assert ([DOUBLE_QUOTE] + tail)[1..] == tail;
  }

  lemma HeadRemark(body: Bytes, ended: bool, rest: Bytes)
    requires NEWLINE !in body && (ended || rest == [])
    ensures Head(Print(Remark(body, ended)) + rest) == Some(Remark(body, ended))
  {
    var close := if ended then [NEWLINE] else [];
    var tail := body + close + rest;
    LineBodyPrinted(body, close, rest);
    assert Print(Remark(body, ended)) + rest == [HASH] + tail && ([HASH] + tail)[1..] == tail;
  }

  lemma HeadBlock(body: Bytes, rest: Bytes)
    requires NoBlockEnd(body)
    ensures Head(Print(BlockRemark(body)) + rest) == Some(BlockRemark(body))
  {
    var tail := body + [HASH, GREATER] + rest;
    BlockBodyPrinted(body, rest);
    assert Print(BlockRemark(body)) + rest == [LESS, HASH] + tail;
    HeadAtBlock(tail);
  }

  lemma HeadAtBlock(tail: Bytes)
    requires BlockBody(tail).Some?
    ensures Head([LESS, HASH] + tail) == Some(BlockRemark(BlockBody(tail).value))
  {
    assert ([LESS, HASH] + tail)[2..] == tail;
  }

  /** A fitting segment is the one read back from its print. */
  lemma HeadPrinted(segment: Segment, rest: Bytes)
    requires Fits(segment, rest)
    ensures Head(Print(segment) + rest) == Some(segment)
  {
    match segment
    case Plain(b) =>
    case Escaped(b) =>
    case SingleString(content) => HeadSingle(content, rest);
    case DoubleString(items) => HeadDouble(items, rest);
    case Remark(body, ended) => HeadRemark(body, ended, rest);
    case BlockRemark(body) => HeadBlock(body, rest);
  }

  /** Scanning a fitting segment appends its mask and comes back to the code state. */
  lemma LexSegment(segment: Segment, rest: Bytes)
    requires Fits(segment, rest)
    ensures Lex(Code, Print(segment) + rest) == Prepend(Mask(segment), Lex(Code, rest))
  {
    match segment
    case Plain(b) =>
      var whole := [b] + rest;
      assert whole[1..] == rest && StepOf(Code, whole) == Emit([b], Code);
    case Escaped(b) =>
      var whole := [BACKTICK, b] + rest;
      assert whole[2..] == rest && StepOf(Code, whole) == Emit([BACKTICK, b], Code);
    case SingleString(content) =>
      SingleBodyLexed(content, rest);
      LexOpening([SINGLE_QUOTE], SingleQuoted, Doubled(content) + [SINGLE_QUOTE], rest);
      assert Print(segment) == [SINGLE_QUOTE] + (Doubled(content) + [SINGLE_QUOTE]);
    case DoubleString(items) =>
      DoubleBodyLexed(items, rest);
      LexOpening([DOUBLE_QUOTE], DoubleQuoted, PrintItems(items) + [DOUBLE_QUOTE], rest);
      assert Print(segment) == [DOUBLE_QUOTE] + (PrintItems(items) + [DOUBLE_QUOTE]);
    case Remark(body, ended) =>
      var close := if ended then [NEWLINE] else [];
      LineBodyLexed(body, close, rest);
      LexOpening([HASH], LineComment, body + close, rest);
      assert Print(segment) == [HASH] + (body + close);
    case BlockRemark(body) =>
      BlockBodyLexed(body, rest);
      LexOpening([LESS, HASH], BlockComment, body + [HASH, GREATER], rest);
      assert Print(segment) == [LESS, HASH] + (body + [HASH, GREATER]);
  }

  predicate Opens(opening: Bytes, state: State) {
    || (opening == [SINGLE_QUOTE] && state.SingleQuoted?)
    || (opening == [DOUBLE_QUOTE] && state.DoubleQuoted?)
    || (opening == [HASH] && state.LineComment?)
    || (opening == [LESS, HASH] && state.BlockComment?)
  }

  lemma LexOpening(opening: Bytes, state: State, body: Bytes, rest: Bytes)
    requires Opens(opening, state)
    requires Lex(state, body + rest) == Prepend(Blanks(body), Lex(Code, rest))
    ensures Lex(Code, opening + body + rest) == Prepend(Blanks(opening + body), Lex(Code, rest))
  {
    OpeningStep(opening, state, body + rest);
    MaskedStep(Code, opening, state, body, rest);
  }

  lemma OpeningStep(opening: Bytes, state: State, more: Bytes)
    requires Opens(opening, state)
    ensures StepOf(Code, opening + more) == Emit(Blanks(opening), state)
  {
    if |opening| == 1 {
      assert Blanks(opening) == [SPACE];
    } else {
      assert Blanks(opening) == [SPACE, SPACE];
    }
  }

  lemma PrefixAfter(s: Bytes, opening: Bytes, printed: Bytes)
    requires opening <= s && printed <= s[|opening|..]
    ensures opening + printed <= s
    ensures s[|opening + printed|..] == s[|opening|..][|printed|..]
  {
  }

  /** The segment read at the head of `s` is a prefix of it and fits what follows. */
  ghost predicate Reads(s: Bytes, segment: Segment) {
    Print(segment) <= s && Fits(segment, s[|Print(segment)|..])
  }

  lemma SingleReads(s: Bytes)
    requires StartsWith(s, SINGLE_QUOTE) && SingleBody(s[1..]).Some?
    ensures Reads(s, SingleString(SingleBody(s[1..]).value))
  {
    SingleBodyRead(s[1..]);
    var printed := Doubled(SingleBody(s[1..]).value) + [SINGLE_QUOTE];
    PrefixAfter(s, [SINGLE_QUOTE], printed);
    assert Print(SingleString(SingleBody(s[1..]).value)) == [SINGLE_QUOTE] + printed;
  }

  lemma DoubleReads(s: Bytes)
    requires StartsWith(s, DOUBLE_QUOTE) && DoubleBody(s[1..]).Some?
    ensures Reads(s, DoubleString(DoubleBody(s[1..]).value))
  {
    DoubleBodyRead(s[1..]);
    var printed := PrintItems(DoubleBody(s[1..]).value) + [DOUBLE_QUOTE];
    PrefixAfter(s, [DOUBLE_QUOTE], printed);
    assert Print(DoubleString(DoubleBody(s[1..]).value)) == [DOUBLE_QUOTE] + printed;
  }

  lemma BlockReads(s: Bytes)
    requires StartsWithTwo(s, LESS, HASH) && BlockBody(s[2..]).Some?
    ensures Reads(s, BlockRemark(BlockBody(s[2..]).value))
  {
    BlockBodyRead(s[2..]);
    var printed := BlockBody(s[2..]).value + [HASH, GREATER];
    PrefixAfter(s, [LESS, HASH], printed);
    assert Print(BlockRemark(BlockBody(s[2..]).value)) == [LESS, HASH] + printed;
  }

  lemma RemarkReads(s: Bytes)
    requires StartsWith(s, HASH)
    ensures Reads(s, Remark(LineBody(s[1..]), |LineBody(s[1..])| + 1 < |s|))
  {
    var body := LineBody(s[1..]);
    var close: Bytes := if |body| + 1 < |s| then [NEWLINE] else [];
    assert body + close <= s[1..];
    PrefixAfter(s, [HASH], body + close);
    assert [HASH] + body + close == [HASH] + (body + close);
  }

  /** Reading a segment finds one that fits, and fails only where the scanner fails. */
  lemma HeadReads(s: Bytes)
    requires s != []
    ensures Head(s).Some? ==> Reads(s, Head(s).value)
    ensures Head(s).None? ==> StartsHereString(s) || Unclosed(s)
  {
    if Head(s).Some? {
      match Head(s).value
      case Plain(_) =>
      case Escaped(_) =>
      case SingleString(_) => SingleReads(s);
      case DoubleString(_) => DoubleReads(s);
      case Remark(_, _) => RemarkReads(s);
      case BlockRemark(_) => BlockReads(s);
    }
  }

  lemma LexUnclosed(s: Bytes)
    requires Unclosed(s)
    ensures Lex(Code, s) == Err(Unterminated)
  {
    if StartsWith(s, SINGLE_QUOTE) {
      SingleBodyRead(s[1..]);
    } else if StartsWith(s, DOUBLE_QUOTE) {
      DoubleBodyRead(s[1..]);
    } else {
      BlockBodyRead(s[2..]);
    }
  }

  // ----- whole scripts

  lemma {:induction false} LexSegments(segments: seq<Segment>, rest: Bytes)
    requires WellFormed(segments, rest)
    ensures Lex(Code, PrintAll(segments) + rest) == Prepend(MaskAll(segments), Lex(Code, rest))
  {
    if segments == [] {
      assert PrintAll(segments) + rest == rest;
      PrependNothing(Lex(Code, rest));
    } else {
      LexSegments(segments[1..], rest);
      LexInFront(segments[0], PrintAll(segments[1..]) + rest, MaskAll(segments[1..]), Lex(Code, rest));
      PrintFirst(segments, rest);
    }
  }

  lemma PrintFirst(segments: seq<Segment>, rest: Bytes)
    requires segments != []
    ensures PrintAll(segments) + rest == Print(segments[0]) + (PrintAll(segments[1..]) + rest)
  {
  }

  lemma LexInFront(segment: Segment, tail: Bytes, masked: Bytes, after: Scanned)
    requires Fits(segment, tail) && Lex(Code, tail) == Prepend(masked, after)
    ensures Lex(Code, Print(segment) + tail) == Prepend(Mask(segment) + masked, after)
  {
    LexSegment(segment, tail);
    PrependTwice(Mask(segment), masked, after);
  }

  lemma AddSegment(segment: Segment, segments: seq<Segment>, s: Bytes, rest: Bytes)
    requires WellFormed(segments, rest) && s == PrintAll(segments) + rest && Fits(segment, s)
    ensures WellFormed([segment] + segments, rest)
    ensures Print(segment) + s == PrintAll([segment] + segments) + rest
  {
    assert ([segment] + segments)[1..] == segments;
  }

  /** Where no segment starts: at the end, at a here-string or at an unclosed construct. */
  predicate Stuck(rest: Bytes) { rest == [] || StartsHereString(rest) || Unclosed(rest) }

  lemma AddRead(s: Bytes, segment: Segment, segments: seq<Segment>, rest: Bytes)
    requires Reads(s, segment)
    requires WellFormed(segments, rest) && s[|Print(segment)|..] == PrintAll(segments) + rest
    ensures WellFormed([segment] + segments, rest) && s == PrintAll([segment] + segments) + rest
  {
    var tail := s[|Print(segment)|..];
    AddSegment(segment, segments, tail, rest);
    PrefixSplits(Print(segment), s);
  }

  lemma PrefixSplits(front: Bytes, s: Bytes)
    requires front <= s
    ensures s == front + s[|front|..]
  {
  }

  /** Every script is a list of segments followed by nothing, a here-string or an unclosed construct. */
  lemma {:induction false} Decompose(s: Bytes) returns (segments: seq<Segment>, rest: Bytes)
    ensures WellFormed(segments, rest) && s == PrintAll(segments) + rest && Stuck(rest)
    decreases |s|
  {
    segments, rest := [], s;
    if s != [] {
      HeadReads(s);
      if Head(s).Some? {
        var segment := Head(s).value;
        var tail;
        tail, rest := Decompose(s[|Print(segment)|..]);
        segments := [segment] + tail;
        AddRead(s, segment, tail, rest);
      }
    }
  }

  /** The scanner accepts exactly the scripts of the grammar, and masks their strings and comments. */
  lemma AcceptsExactlyTheGrammar(s: Bytes, code: Bytes)
    ensures Lex(Code, s) == Ok(code)
       <==> exists segments :: WellFormed(segments, []) && PrintAll(segments) == s && MaskAll(segments) == code
  {
    if exists segments :: WellFormed(segments, []) && PrintAll(segments) == s && MaskAll(segments) == code {
      var segments :| WellFormed(segments, []) && PrintAll(segments) == s && MaskAll(segments) == code;
      LexSegments(segments, []);
      assert PrintAll(segments) + [] == s && code + [] == code;
    }
    if Lex(Code, s) == Ok(code) {
      var segments, rest := Decompose(s);
      LexSegments(segments, rest);
      if Unclosed(rest) {
        LexUnclosed(rest);
      }
      assert rest == [] && PrintAll(segments) == s && MaskAll(segments) + [] == MaskAll(segments);
    }
  }

  /** A here-string in executable position: segments that fit, then an at sign and a quote. */
  ghost predicate HereStringIn(s: Bytes) {
    exists segments, rest :: WellFormed(segments, rest) && s == PrintAll(segments) + rest && StartsHereString(rest)
  }

  /** The scanner reports a here-string exactly when one opens in executable position. */
  lemma HereStringExactly(s: Bytes)
    ensures Lex(Code, s) == Err(HereString) <==> HereStringIn(s)
  {
    if HereStringIn(s) {
      var segments, rest :| WellFormed(segments, rest) && s == PrintAll(segments) + rest && StartsHereString(rest);
      LexSegments(segments, rest);
      assert Lex(Code, rest) == Err(HereString);
    }
    if Lex(Code, s) == Err(HereString) {
      var segments, rest := Decompose(s);
      LexSegments(segments, rest);
      if Unclosed(rest) {
        LexUnclosed(rest);
      }
      assert Lex(Code, rest) == Err(HereString);
    }
  }

  /** A script has one reading: equal prints mean equal segments. */
  lemma {:induction false} ReadingIsUnique(a: seq<Segment>, b: seq<Segment>)
    requires WellFormed(a, []) && WellFormed(b, []) && PrintAll(a) == PrintAll(b)
    ensures a == b
  {
    if a != [] && b != [] {
      HeadOfScript(a);
      HeadOfScript(b);
      WellFormedRest(a);
      WellFormedRest(b);
      ReadingIsUnique(a[1..], b[1..]);
      assert a == [a[0]] + a[1..] && b == [b[0]] + b[1..];
    }
  }

  lemma WellFormedRest(segments: seq<Segment>)
    requires segments != [] && WellFormed(segments, [])
    ensures WellFormed(segments[1..], [])
  {
  }

  lemma HeadOfScript(segments: seq<Segment>)
    requires segments != [] && WellFormed(segments, [])
    ensures Head(PrintAll(segments)) == Some(segments[0])
    ensures PrintAll(segments)[|Print(segments[0])|..] == PrintAll(segments[1..])
  {
    var rest := PrintAll(segments[1..]);
    assert rest + [] == rest;
    HeadPrinted(segments[0], rest);
    assert PrintAll(segments) == Print(segments[0]) + rest;
  }
}
