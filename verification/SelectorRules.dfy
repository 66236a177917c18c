// What the corpus rules say of single records, on their characters.
module SelectorRules {
  import opened Wrappers
  import opened Sequences
  import opened Unicode
  import opened Substrings
  import opened Utf8Text
  import opened SelectorText
  import opened SelectorCorpus
  import opened SelectorRecords

  // ----- queries and passages

  ghost predicate IsId(value: string) {
    0 < |value| <= 128 && forall c <- value :: 'a' <= c <= 'z' || '0' <= c <= '9' || c == '_'
  }

  ghost predicate HasText(t: Tables, value: string) { exists c :: c in value && !t.whitespace(c) }

  lemma QueryRuleExactly(t: Tables, q: Query)
    ensures CorpusRules(t).query(q) <==> IsId(q.id) && HasText(t, q.text) && |Encode(q.text)| <= 2048
  {
    IdentifierExactly(q.id);
    NotBlankExactly(t, q.text);
  }

  lemma PassageRuleExactly(t: Tables, p: Passage)
    ensures CorpusRules(t).passage(p)
            <==> && IsId(p.id)
                 && HasText(t, p.title) && |p.title| <= 200 && HasText(t, p.heading) && |p.heading| <= 200
                 && HasText(t, p.text) && |p.text| <= 1200
  {
    IdentifierExactly(p.id);
    NotBlankExactly(t, p.title);
    NotBlankExactly(t, p.heading);
    NotBlankExactly(t, p.text);
  }

  // ----- evidence

  /** Some characters of the text, not all of them white space, have their bytes at the span. */
  ghost predicate IsReadable(t: Tables, text: string, span: Span) {
    exists i: nat, j: nat :: CutsOut(t, text, span, i, j)
  }

  lemma {:induction false} CharsCounted(s: string, i: nat, k: nat)
    requires i <= |s| && k == |Encode(s[..i])|
    ensures CharsIn(s, k) == Some(i)
  {
    if i > 0 {
      var c := EncodeChar(s[0]);
      assert s[..i][0] == s[0] && s[..i][1..] == s[1..][..i - 1];
      CharsCounted(s[1..], i - 1, k - |c|);
    }
  }

  lemma CutFits(t: Tables, text: string, span: Span, i: nat, j: nat)
    requires CutsOut(t, text, span, i, j)
    ensures SpanFits(t, text, span)
  {
    CharsCounted(text, i, span.start);
    assert text[..j] == text[..i] + text[i..j];
    EncodeConcat(text[..i], text[i..j]);
    CharsCounted(text, j, span.end);
    BoundaryExactly(text, span.start);
    BoundaryExactly(text, span.end);
    NotBlankExactly(t, text[i..j]);
  }

  /** The checks on the bytes of a span ask for a readable piece of the text. */
  lemma SpanExactly(t: Tables, text: string, span: Span)
    ensures SpanFits(t, text, span) <==> IsReadable(t, text, span)
  {
    if SpanFits(t, text, span) {
      var i, j := EvidenceIsText(t, text, span);
    }
    if i: nat, j: nat :| CutsOut(t, text, span, i, j) {
      CutFits(t, text, span, i, j);
    }
  }

  ghost predicate AllReadable(t: Tables, text: string, spans: seq<Span>) {
    forall span <- spans :: IsReadable(t, text, span)
  }

  lemma EvidenceExactly(t: Tables, text: string, spans: seq<Span>)
    ensures EvidenceFits(t, text, spans) <==> AllDistinct(spans) && AllReadable(t, text, spans)
  {
    forall span | span in spans ensures SpanFits(t, text, span) <==> IsReadable(t, text, span) {
      SpanExactly(t, text, span);
    }
  }

  // ----- judgments

  ghost predicate AreTagsDistinct(tags: seq<Tag>) { forall i, j :: 0 <= i < j < |tags| ==> tags[i] != tags[j] }

  lemma {:induction false} TagSetSize(tags: seq<Tag>)
    ensures |TagSet(tags)| <= |tags|
    ensures |TagSet(tags)| == |tags| <==> AreTagsDistinct(tags)
  {
    if tags == [] {
      assert TagSet(tags) == {};
    } else {
      var n := |tags| - 1;
      TagSetSize(tags[..n]);
      assert tags == tags[..n] + [tags[n]];
      assert TagSet(tags) == TagSet(tags[..n]) + {tags[n]};
      LastTag(tags, n);
    }
  }

  lemma LastTag(tags: seq<Tag>, n: nat)
    requires tags != [] && n == |tags| - 1
    ensures AreTagsDistinct(tags) <==> AreTagsDistinct(tags[..n]) && tags[n] !in TagSet(tags[..n])
  {
    if tags[n] in tags[..n] {
      var k :| 0 <= k < n && tags[..n][k] == tags[n];
      assert tags[k] == tags[n];
    }
    assert forall i :: 0 <= i < n ==> tags[..n][i] == tags[i] && tags[i] in tags[..n];
  }

  /** The group, the evidence and the kind of negative that a judgment has are those of its role. */
  ghost predicate RoleIsShown(judgment: Judgment) {
    && (judgment.answerGroup.Some? <==> judgment.role == Answer)
    && (judgment.evidence != [] <==> judgment.role == Answer)
    && (judgment.negativeKind == None <==> judgment.role == Answer)
    && (judgment.negativeKind == Some(SupportContext) <==> judgment.role == Support)
  }

  lemma RoleExactly(t: Tables, judgment: Judgment, p: Passage)
    ensures RoleFits(t, judgment, p)
            <==> && RoleIsShown(judgment)
                 && (judgment.answerGroup.Some? ==> IsId(judgment.answerGroup.value))
                 && AllDistinct(judgment.evidence) && AllReadable(t, p.text, judgment.evidence)
  {
    EvidenceExactly(t, p.text, judgment.evidence);
    if judgment.answerGroup.Some? {
      IdentifierExactly(judgment.answerGroup.value);
    }
  }

  lemma JudgmentRuleExactly(t: Tables, judgment: Judgment, p: Passage)
    ensures CorpusRules(t).judgment(judgment, p)
            <==> && IsId(judgment.worldId)
                 && (if judgment.split == Train then "train_" else "dev_") <= judgment.worldId
                 && HasText(t, judgment.reviewReason) && |judgment.reviewReason| <= 500
                 && judgment.tags != [] && AreTagsDistinct(judgment.tags)
                 && RoleIsShown(judgment)
                 && (judgment.answerGroup.Some? ==> IsId(judgment.answerGroup.value))
                 && AllDistinct(judgment.evidence) && AllReadable(t, p.text, judgment.evidence)
  {
    IdentifierExactly(judgment.worldId);
    NotBlankExactly(t, judgment.reviewReason);
    TagSetSize(judgment.tags);
    RoleExactly(t, judgment, p);
  }

  // ----- what the model sees

  ghost predicate NamesNone(value: string, ids: seq<string>) {
    forall id <- ids :: !Contains(Lower(value), Lower(id))
  }

  lemma VisibleRulesExactly(t: Tables, q: Query, judgment: Judgment, p: Passage, world: string)
    ensures CorpusRules(t).visibleQuery(q, world) <==> NamesNone(q.text, [q.id, world]) && NoWordIsMarker(q.text)
    ensures var ids := [q.id, judgment.passageId, judgment.worldId];
            CorpusRules(t).visiblePassage(q, judgment, p)
            <==> && NamesNone(p.title, ids) && NamesNone(p.heading, ids) && NamesNone(p.text, ids)
                 && NoWordIsMarker(p.title) && NoWordIsMarker(p.heading) && NoWordIsMarker(p.text)
  {
    var ids := [q.id, judgment.passageId, judgment.worldId];
    VisibleExactly(q.text, [q.id, world]);
    VisibleExactly(p.title, ids);
    VisibleExactly(p.heading, ids);
    VisibleExactly(p.text, ids);
  }

  ghost predicate IsCode(token: string, letter: char, digits: nat) {
    |token| == digits + 1 && token[0] == letter && forall i :: 1 <= i <= digits ==> '0' <= token[i] <= '9'
  }

  /** A word marks a split, or a candidate by a letter and two or three digits. */
  lemma MarkerExactly(token: string)
    ensures IsMarker(token)
            <==> "train_" <= token || "dev_" <= token
                 || IsCode(token, 'p', 2) || IsCode(token, 't', 3) || IsCode(token, 'd', 3)
  {
    if token != "" {
      DigitsBehind(token);
    }
  }

  lemma DigitsBehind(token: string)
    requires token != ""
    ensures AllDigits(token[1..]) <==> forall i :: 1 <= i < |token| ==> '0' <= token[i] <= '9'
  {
    forall i | 1 <= i < |token| ensures token[i] in token[1..] { assert token[1..][i - 1] == token[i]; }
  }

  // ----- the words of a passage

  lemma {:induction false} WordsAcross(t: Tables, a: string, c: char, b: string)
    requires t.whitespace(c)
    ensures Words(t, a + [c] + b) == Words(t, a) + Words(t, b)
    ensures AtBreak(t, a + [c] + b) <==> AtBreak(t, b)
  {
    if b == "" {
      assert a + [c] + b == a + [c];
      WordsSnoc(t, a, c);
    } else {
      var n := |b| - 1;
      assert b == b[..n] + [b[n]];
      assert a + [c] + b == (a + [c] + b[..n]) + [b[n]];
      WordsAcross(t, a, c, b[..n]);
      OneMoreAcross(t, a + [c] + b[..n], Words(t, a), b[..n], b[n]);
    }
  }

  lemma OneMoreAcross(t: Tables, whole: string, before: seq<string>, front: string, c: char)
    requires Words(t, whole) == before + Words(t, front)
    requires AtBreak(t, whole) <==> AtBreak(t, front)
    ensures Words(t, whole + [c]) == before + Words(t, front + [c])
  {
    WordsSnoc(t, whole, c);
    WordsSnoc(t, front, c);
    if t.whitespace(c) {
    } else if AtBreak(t, front) {
      Regroup(before, Words(t, front), [[c]]);
    } else {
      ExtendBehind(before, Words(t, front), [c]);
    }
  }

  lemma ExtendBehind(before: seq<string>, words: seq<string>, run: string)
    requires words != []
    ensures Extend(before + words, run) == before + Extend(words, run)
  {
    var all, n := before + words, |words| - 1;
    assert all[|all| - 1] == words[n];
    assert all[..|all| - 1] == before + words[..n];
    Regroup(before, words[..n], [words[n] + run]);
  }

  lemma {:induction false} WordsOfTrimStart(t: Tables, s: string)
    ensures Words(t, TrimStart(t, s)) == Words(t, s)
  {
    if s != "" && t.whitespace(s[0]) {
      WordsOfTrimStart(t, s[1..]);
      assert s == [s[0]] + s[1..];
      LeadingBlank(t, s[0], s[1..]);
    }
  }

  lemma {:induction false} WordsOfTrimEnd(t: Tables, s: string)
    ensures Words(t, TrimEnd(t, s)) == Words(t, s)
  {
    if s != "" && t.whitespace(s[|s| - 1]) {
      WordsOfTrimEnd(t, s[..|s| - 1]);
    }
  }

  lemma WordsOfTrim(t: Tables, s: string)
    ensures Words(t, Trim(t, s)) == Words(t, s)
  {
    WordsOfTrimStart(t, s);
    WordsOfTrimEnd(t, TrimStart(t, s));
  }

  function AllWords(t: Tables, texts: seq<string>): seq<string> {
    if texts == [] then [] else Words(t, texts[0]) + AllWords(t, texts[1..])
  }

  lemma {:induction false} JoinedWords(t: Tables, texts: seq<string>)
    requires t.whitespace('\n')
    ensures Words(t, JoinLines(texts)) == AllWords(t, texts)
  {
    if |texts| == 1 {
      assert AllWords(t, texts[1..]) == [];
    } else if texts != [] {
      JoinedWords(t, texts[1..]);
      WordsAcross(t, texts[0], '\n', JoinLines(texts[1..]));
    }
  }

  lemma {:induction false} EmptyHasNoWords(t: Tables, texts: seq<string>)
    ensures AllWords(t, NonEmpty(texts)) == AllWords(t, texts)
  {
    if texts != [] {
      EmptyHasNoWords(t, texts[1..]);
      if texts[0] != "" {
        assert NonEmpty(texts)[1..] == NonEmpty(texts[1..]);
      } else {
        assert [] + NonEmpty(texts[1..]) == NonEmpty(texts[1..]);
      }
    }
  }

  /** What the model sees of a passage has the words of its title, its heading and its text. */
  lemma ModelWords(t: Tables, p: Passage)
    requires Sound(t)
    ensures Words(t, ModelInput(t, p)) == Words(t, p.title) + Words(t, p.heading) + Words(t, p.text)
  {
    var texts := [Trim(t, p.title), Trim(t, p.heading), Trim(t, p.text)];
    JoinedWords(t, NonEmpty(texts));
    EmptyHasNoWords(t, texts);
    WordsOfTrim(t, p.title);
    WordsOfTrim(t, p.heading);
    WordsOfTrim(t, p.text);
    ThreeTexts(t, texts);
  }

  lemma ThreeTexts(t: Tables, texts: seq<string>)
    requires |texts| == 3
    ensures AllWords(t, texts) == Words(t, texts[0]) + Words(t, texts[1]) + Words(t, texts[2])
  {
    var a, b, c := texts[0], texts[1], texts[2];
    assert texts[1..] == [b, c] && [b, c][1..] == [c] && [c][1..] == [];
    assert AllWords(t, [c]) == Words(t, c);
    assert AllWords(t, [b, c]) == Words(t, b) + Words(t, c);
  }

  ghost function WordsOfPassage(t: Tables, p: Passage): seq<string> {
    Words(t, p.title) + Words(t, p.heading) + Words(t, p.text)
  }

  /** Two queries, or two passages, have one normal form exactly when their lower-cased words are the same. */
  lemma FormsAgreeExactly(t: Tables, q: Query, r: Query, p: Passage, s: Passage)
    requires Sound(t)
    ensures CorpusRules(t).normalizedQuery(q) == CorpusRules(t).normalizedQuery(r)
            <==> LoweredWords(t, Words(t, q.text)) == LoweredWords(t, Words(t, r.text))
    ensures CorpusRules(t).normalizedPassage(p) == CorpusRules(t).normalizedPassage(s)
            <==> LoweredWords(t, WordsOfPassage(t, p)) == LoweredWords(t, WordsOfPassage(t, s))
  {
    NormalFormsAgree(t, q.text, r.text);
    NormalFormsAgree(t, ModelInput(t, p), ModelInput(t, s));
    ModelWords(t, p);
    ModelWords(t, s);
  }
}
