// The checks that the corpus validator makes on single records, and all its rules
// made of them.
module SelectorRecords {
  import opened Wrappers
  import opened Unicode
  import opened Substrings
  import opened Utf8
  import opened Utf8Text
  import opened SelectorText
  import opened SelectorTemplates
  import opened SelectorCorpus

  const MAX_IDENTIFIER_BYTES := 128
  const MAX_QUERY_BYTES := 2048
  const MAX_PASSAGE_FIELD_CHARS := 200
  const MAX_PASSAGE_TEXT_CHARS := 1200
  const MAX_REVIEW_REASON_CHARS := 500

  // ----- identifiers and lengths

  predicate IdentifierByte(b: Byte) { 0x61 <= b <= 0x7A || 0x30 <= b <= 0x39 || b == 0x5F }

  predicate IsIdentifier(value: string) {
    value != "" && |Encode(value)| <= MAX_IDENTIFIER_BYTES && forall b <- Encode(value) :: IdentifierByte(b)
  }

  predicate IdentifierChar(c: char) { 'a' <= c <= 'z' || AsciiDigit(c) || c == '_' }

  /** The check on the bytes is a check on the characters. */
  lemma IdentifierExactly(value: string)
    ensures IsIdentifier(value) <==> 0 < |value| <= MAX_IDENTIFIER_BYTES && forall c <- value :: IdentifierChar(c)
  {
    if forall c <- value :: IdentifierChar(c) {
      AsciiStaysAscii(value);
    }
    if IsIdentifier(value) || forall c <- value :: IdentifierChar(c) {
      AsciiIsItself(value);
      forall i | 0 <= i < |value| ensures IdentifierChar(value[i]) <==> IdentifierByte(Encode(value)[i]) { }
      assert forall i :: 0 <= i < |value| ==> value[i] in value && Encode(value)[i] in Encode(value);
    }
  }

  predicate IsBlank(t: Tables, value: string) { Trim(t, value) == "" }

  predicate FitsBytes(t: Tables, value: string, maximum: nat) { !IsBlank(t, value) && |Encode(value)| <= maximum }

  predicate FitsChars(t: Tables, value: string, maximum: nat) { !IsBlank(t, value) && |value| <= maximum }

  /** A text that is not blank holds a character that is not white space. */
  lemma NotBlankExactly(t: Tables, value: string)
    ensures !IsBlank(t, value) <==> exists c :: c in value && !t.whitespace(c)
  {
    TrimBlank(t, value);
  }

  // ----- evidence

  predicate SpanFits(t: Tables, text: string, span: Span) {
    && span.start < span.end && span.end <= |Encode(text)|
    && Boundary(Encode(text), span.start) && Boundary(Encode(text), span.end)
    && (BoundaryExactly(text, span.start);
        BoundaryExactly(text, span.end);
        !IsBlank(t, Slice(text, span.start, span.end)))
  }

  predicate AllDistinct(spans: seq<Span>) { forall i, j :: 0 <= i < j < |spans| ==> spans[i] != spans[j] }

  predicate EvidenceFits(t: Tables, text: string, spans: seq<Span>) {
    (forall span <- spans :: SpanFits(t, text, span)) && AllDistinct(spans)
  }

  /** The spans seen so far are distinct and make up the set. */
  ghost predicate Seen(spans: seq<Span>, unique: set<Span>) {
    AllDistinct(spans) && forall span :: span in unique <==> span in spans
  }

  lemma SeeOne(spans: seq<Span>, unique: set<Span>, span: Span)
    requires Seen(spans, unique)
    ensures if span in unique then !AllDistinct(spans + [span]) else Seen(spans + [span], unique + {span})
  {
    if span in unique {
      var k :| 0 <= k < |spans| && spans[k] == span;
      assert (spans + [span])[k] == (spans + [span])[|spans|];
    }
  }

  lemma NotDistinct(spans: seq<Span>, i: nat)
    requires i <= |spans| && !AllDistinct(spans[..i])
    ensures !AllDistinct(spans)
  {
  }

  method ValidateEvidenceSpans(t: Tables, spans: seq<Span>, text: string) returns (ok: bool)
    ensures ok <==> EvidenceFits(t, text, spans)
  {
    var unique: set<Span> := {};
    var i := 0;
    while i < |spans|
      invariant 0 <= i <= |spans| && Seen(spans[..i], unique)
      invariant forall k :: 0 <= k < i ==> SpanFits(t, text, spans[k])
    {
      if !SpanFits(t, text, spans[i]) {
        assert spans[i] in spans;
        return false;
      }
      assert spans[..i + 1] == spans[..i] + [spans[i]];
      SeeOne(spans[..i], unique, spans[i]);
      if spans[i] in unique {
        NotDistinct(spans, i + 1);
        return false;
      }
      unique := unique + {spans[i]};
      i := i + 1;
    }
    assert spans[..i] == spans;
    return true;
  }

  /** The bytes of a span encode the characters from `i` to `j`, which are not all white space. */
  ghost predicate CutsOut(t: Tables, text: string, span: Span, i: nat, j: nat) {
    && i < j <= |text| && span.start < span.end <= |Encode(text)|
    && Encode(text[..i]) == Encode(text)[..span.start]
    && Encode(text[i..j]) == Encode(text)[span.start..span.end]
    && exists c :: c in text[i..j] && !t.whitespace(c)
  }

  /** Evidence that fits is a piece of the text, cut between characters, with something to read in it. */
  lemma EvidenceIsText(t: Tables, text: string, span: Span) returns (i: nat, j: nat)
    requires SpanFits(t, text, span)
    ensures CutsOut(t, text, span, i, j)
  {
    BoundaryExactly(text, span.start);
    BoundaryExactly(text, span.end);
    CharsAre(text, span.start);
    MoreBytesMoreChars(text, span.start, span.end);
    SliceEncodes(text, span.start, span.end);
    i, j := CharsIn(text, span.start).value, CharsIn(text, span.end).value;
    NotBlankExactly(t, text[i..j]);
  }

  // ----- judgments

  function WorldPrefix(split: Split): string {
    match split
    case Train => "train_"
    case Dev => "dev_"
  }

  predicate RoleFits(t: Tables, judgment: Judgment, p: Passage) {
    match judgment.role
    case Answer =>
      && judgment.answerGroup.Some? && IsIdentifier(judgment.answerGroup.value)
      && judgment.negativeKind.None?
      && judgment.evidence != [] && EvidenceFits(t, p.text, judgment.evidence)
    case Support =>
      judgment.answerGroup.None? && judgment.evidence == [] && judgment.negativeKind == Some(SupportContext)
    case HardNegative =>
      && judgment.answerGroup.None? && judgment.evidence == []
      && judgment.negativeKind.Some? && judgment.negativeKind != Some(SupportContext)
  }

  predicate JudgmentIsValid(t: Tables, judgment: Judgment, p: Passage) {
    && IsIdentifier(judgment.worldId) && WorldPrefix(judgment.split) <= judgment.worldId
    && FitsChars(t, judgment.reviewReason, MAX_REVIEW_REASON_CHARS)
    && judgment.tags != [] && |TagSet(judgment.tags)| == |judgment.tags|
    && RoleFits(t, judgment, p)
  }

  lemma OnlyAnswersHaveEvidence(t: Tables, judgment: Judgment, p: Passage, text: string, span: Span)
    requires JudgmentIsValid(t, judgment, p) && span in judgment.evidence && text == p.text
    ensures judgment.role == Answer && SpanFits(t, text, span)
  {
  }

  // ----- text that the model sees

  predicate WordChar(c: char) { 'a' <= c <= 'z' || 'A' <= c <= 'Z' || AsciiDigit(c) || c == '_' }

  function LowerAscii(c: char): char { if 'A' <= c <= 'Z' then c - 'A' + 'a' else c }

  function Lower(s: string): (r: string)
    ensures |r| == |s|
  {
    seq(|s|, i requires 0 <= i < |s| => LowerAscii(s[i]))
  }

  function WordEnd(s: string): (n: nat)
    ensures n <= |s|
  {
    if s == "" || !WordChar(s[0]) then 0 else 1 + WordEnd(s[1..])
  }

  /** `str::split` at every character that cannot stand in a word. */
  function Pieces(s: string): seq<string> {
    var n := WordEnd(s);
    [s[..n]] + if n == |s| then [] else Pieces(s[n + 1..])
  }

  predicate AllDigits(s: string) { forall c <- s :: AsciiDigit(c) }

  predicate IsMarker(token: string) {
    || "train_" <= token || "dev_" <= token
    || (|token| == 3 && token[0] == 'p' && AllDigits(token[1..]))
    || (|token| == 4 && (token[0] == 't' || token[0] == 'd') && AllDigits(token[1..]))
  }

  predicate IsVisible(value: string, ids: seq<string>) {
    && (forall id <- ids :: Find(Lower(value), Lower(id)).None?)
    && forall piece <- Pieces(Lower(value)) :: !IsMarker(piece)
  }

  method ValidateModelVisibleText(value: string, ids: seq<string>) returns (ok: bool)
    ensures ok <==> IsVisible(value, ids)
  {
    var lower := Lower(value);
    var i := 0;
    while i < |ids|
      invariant 0 <= i <= |ids| && forall k :: 0 <= k < i ==> Find(lower, Lower(ids[k])).None?
    {
      if Find(lower, Lower(ids[i])).Some? {
        assert ids[i] in ids;
        return false;
      }
      i := i + 1;
    }
    return !exists piece <- Pieces(lower) :: IsMarker(piece);
  }

  /** A word: as many neighbouring letters, digits and underscores as there are. */
  ghost predicate IsWord(s: string, i: nat, j: nat) {
    && i < j <= |s| && (i == 0 || !WordChar(s[i - 1])) && (j == |s| || !WordChar(s[j]))
    && forall k :: i <= k < j ==> WordChar(s[k])
  }

  /** The first piece of a text ends at `n`. */
  ghost predicate EndsAt(s: string, n: nat) {
    n <= |s| && (n < |s| ==> !WordChar(s[n])) && forall k :: 0 <= k < n ==> WordChar(s[k])
  }

  lemma {:induction false} EndIs(s: string, n: nat)
    requires n == WordEnd(s)
    ensures EndsAt(s, n)
  {
    if s != "" && WordChar(s[0]) {
      EndIs(s[1..], n - 1);
      assert forall k :: 0 < k < |s| ==> s[k] == s[1..][k - 1];
    }
  }

  lemma EndOf(s: string) returns (n: nat)
    ensures EndsAt(s, n) && n == WordEnd(s)
  {
    n := WordEnd(s);
    EndIs(s, n);
  }

  lemma OnlyPiece(s: string, n: nat)
    requires n == WordEnd(s) && n == |s|
    ensures Pieces(s) == [s]
  {
    assert s[..n] == s;
  }

  lemma LaterPiece(s: string, n: nat, first: string, rest: string, piece: string)
    requires n == WordEnd(s) && n < |s| && first == s[..n] && rest == s[n + 1..]
    ensures piece in Pieces(s) <==> piece == first || piece in Pieces(rest)
  {
    PiecesAre(s, n, first, rest);
    InFront(first, Pieces(rest), piece);
  }

  lemma PiecesAre(s: string, n: nat, first: string, rest: string)
    requires n == WordEnd(s) && n < |s| && first == s[..n] && rest == s[n + 1..]
    ensures Pieces(s) == [first] + Pieces(rest)
  {
    assert Pieces(s)[0] == first;
  }

  lemma InFront(first: string, tail: seq<string>, piece: string)
    ensures piece in [first] + tail <==> piece == first || piece in tail
  {
  }

  lemma WordBehind(s: string, n: nat, rest: string, i: nat, j: nat)
    requires n < |s| && rest == s[n + 1..] && !WordChar(s[n]) && i < j <= |rest|
    ensures IsWord(rest, i, j) <==> IsWord(s, i + n + 1, j + n + 1)
    ensures rest[i..j] == s[i + n + 1..j + n + 1]
  {
    assert forall k :: 0 <= k < |rest| ==> rest[k] == s[k + n + 1];
    if IsWord(s, i + n + 1, j + n + 1) {
      forall k | i <= k < j ensures WordChar(rest[k]) {
        assert WordChar(s[k + n + 1]);
      }
    }
    if IsWord(rest, i, j) {
      forall k | i + n + 1 <= k < j + n + 1 ensures WordChar(s[k]) {
        assert WordChar(rest[k - n - 1]);
      }
    }
  }

  /** A word at the start is the first piece. */
  lemma FirstWord(s: string, j: nat, n: nat, word: string)
    requires IsWord(s, 0, j) && word == s[..j] && EndsAt(s, n)
    ensures word == s[..n]
  {
    assert j == n;
  }

  /** Any other word stands behind the first piece. */
  lemma LaterWord(s: string, i: nat, j: nat, word: string, n: nat)
    requires IsWord(s, i, j) && i > 0 && word == s[i..j] && EndsAt(s, n)
    ensures n < i && n < |s|
    ensures var rest := s[n + 1..]; IsWord(rest, i - n - 1, j - n - 1) && word == rest[i - n - 1..j - n - 1]
  {
    assert n < i;
    WordBehind(s, n, s[n + 1..], i - n - 1, j - n - 1);
  }

  lemma FirstPiece(s: string, n: nat)
    requires n == WordEnd(s)
    ensures s[..n] in Pieces(s)
  {
    assert Pieces(s)[0] == s[..n];
  }

  lemma {:induction false} WordIsPiece(s: string, i: nat, j: nat, word: string)
    requires IsWord(s, i, j) && word == s[i..j]
    ensures word in Pieces(s)
    decreases |s|
  {
    var n := EndOf(s);
    if i == 0 {
      FirstWord(s, j, n, word);
      FirstPiece(s, n);
    } else {
      LaterWord(s, i, j, word, n);
      WordBehindIsPiece(s, n, s[n + 1..], i - n - 1, j - n - 1, word);
    }
  }

  lemma {:induction false} WordBehindIsPiece(s: string, n: nat, rest: string, i: nat, j: nat, word: string)
    requires n == WordEnd(s) && n < |s| && rest == s[n + 1..] && IsWord(rest, i, j) && word == rest[i..j]
    ensures word in Pieces(s)
    decreases |s|, 0
  {
    WordIsPiece(rest, i, j, word);
    LaterPiece(s, n, s[..n], rest, word);
  }

  ghost predicate WordOf(s: string, word: string) {
    exists i: nat, j: nat :: IsWord(s, i, j) && s[i..j] == word
  }

  lemma FirstIsWord(s: string, n: nat)
    requires EndsAt(s, n) && n > 0
    ensures WordOf(s, s[..n])
  {
    assert IsWord(s, 0, n) && s[0..n] == s[..n];
  }

  lemma WordOfRest(s: string, n: nat, rest: string, word: string)
    requires n < |s| && rest == s[n + 1..] && !WordChar(s[n]) && WordOf(rest, word)
    ensures WordOf(s, word)
  {
    var i: nat, j: nat :| IsWord(rest, i, j) && rest[i..j] == word;
    WordBehind(s, n, rest, i, j);
  }

  lemma {:induction false} PieceIsWord(s: string, piece: string)
    requires piece in Pieces(s) && piece != ""
    ensures WordOf(s, piece)
    decreases |s|
  {
    var n := EndOf(s);
    if piece == s[..n] {
      FirstIsWord(s, n);
    } else {
      PieceBehind(s, n, piece);
      PieceIsWord(s[n + 1..], piece);
      WordOfRest(s, n, s[n + 1..], piece);
    }
  }

  lemma PieceBehind(s: string, n: nat, piece: string)
    requires n == WordEnd(s) && piece in Pieces(s) && piece != s[..n]
    ensures n < |s| && piece in Pieces(s[n + 1..])
  {
    if n == |s| {
      OnlyPiece(s, n);
    } else {
      LaterPiece(s, n, s[..n], s[n + 1..], piece);
    }
  }

  lemma WordOfLower(s: string, i: nat, j: nat)
    ensures IsWord(s, i, j) <==> IsWord(Lower(s), i, j)
    ensures IsWord(s, i, j) ==> Lower(s)[i..j] == Lower(s[i..j])
  {
    assert forall k :: 0 <= k < |s| ==> (WordChar(s[k]) <==> WordChar(Lower(s)[k]));
  }

  ghost predicate NoWordIsMarker(value: string) {
    forall i: nat, j: nat :: IsWord(value, i, j) ==> !IsMarker(Lower(value[i..j]))
  }

  /** Looking at the pieces of the lowered text is looking at the words of the text. */
  lemma VisibleExactly(value: string, ids: seq<string>)
    ensures IsVisible(value, ids)
            <==> (forall id <- ids :: !Contains(Lower(value), Lower(id))) && NoWordIsMarker(value)
  {
    var lower := Lower(value);
    forall i: nat, j: nat | IsWord(value, i, j)
      ensures Lower(value[i..j]) in Pieces(lower)
    {
      WordOfLower(value, i, j);
      WordIsPiece(lower, i, j, lower[i..j]);
    }
    forall piece | piece in Pieces(lower) && IsMarker(piece)
      ensures !NoWordIsMarker(value)
    {
      PieceIsWord(lower, piece);
      var i: nat, j: nat :| IsWord(lower, i, j) && lower[i..j] == piece;
      WordOfLower(value, i, j);
    }
  }

  // ----- the rules

  const REQUIRED_TAGS := {
    Tag.Direct, Tag.Paraphrase, Tag.Compound, Tag.Absence, Tag.Conflict, Tag.Duplicate, Tag.InjectionRequested,
    Tag.InjectionUnrelated, Tag.WrongEntity, Tag.WrongRelation, Tag.WrongDate, Tag.WrongVersion, Tag.WrongScope,
    Tag.Negation, Tag.Ambiguity, Tag.MetadataOnly, Tag.LongPassage}

  function JoinLines(parts: seq<string>): string {
    if parts == [] then "" else if |parts| == 1 then parts[0] else parts[0] + "\n" + JoinLines(parts[1..])
  }

  function NonEmpty(parts: seq<string>): seq<string> {
    if parts == [] then [] else (if parts[0] == "" then [] else [parts[0]]) + NonEmpty(parts[1..])
  }

  /** `model_passage_input`. */
  function ModelInput(t: Tables, p: Passage): string {
    JoinLines(NonEmpty([Trim(t, p.title), Trim(t, p.heading), Trim(t, p.text)]))
  }

  function Template(t: Tables, text: string): set<seq<string>> {
    Shingles(Canon(t, [], RawTokens(t, text)))
  }

  function CorpusRules(t: Tables): Rules {
    Rules(
      query := (q: Query) => IsIdentifier(q.id) && FitsBytes(t, q.text, MAX_QUERY_BYTES),
      passage := (p: Passage) =>
          IsIdentifier(p.id) && FitsChars(t, p.title, MAX_PASSAGE_FIELD_CHARS)
          && FitsChars(t, p.heading, MAX_PASSAGE_FIELD_CHARS) && FitsChars(t, p.text, MAX_PASSAGE_TEXT_CHARS),
      judgment := (judgment: Judgment, p: Passage) => JudgmentIsValid(t, judgment, p),
      visibleQuery := (q: Query, world: string) => IsVisible(q.text, [q.id, world]),
      visiblePassage := (q: Query, judgment: Judgment, p: Passage) =>
          var ids := [q.id, judgment.passageId, judgment.worldId];
          IsVisible(p.title, ids) && IsVisible(p.heading, ids) && IsVisible(p.text, ids),
      normalizedQuery := (q: Query) => NormalForm(t, q.text),
      normalizedPassage := (p: Passage) => NormalForm(t, ModelInput(t, p)),
      overlap := (a: Passage, b: Passage) => TemplatesOverlap(Template(t, a.text), Template(t, b.text)),
      requiredTags := REQUIRED_TAGS)
  }
}
