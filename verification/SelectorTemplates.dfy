// `canonical_template_tokens`, shingles and `templates_overlap`: passages that
// differ only in names and values have one template.
module SelectorTemplates {
  import opened Sequences
  import opened Substrings
  import opened Unicode

  const ENTITY := "<entity>"
  const SLOT := "<slot>"

  // ----- tokens

  predicate TokenChar(t: Tables, c: char) {
    t.alphanumeric(c) || c == '_' || c == '-' || c == '.'
  }

  /** `value.split(..).filter(|token| !token.is_empty())`, with the token read so far in front. */
  function RawTokensFrom(t: Tables, current: string, value: string): seq<string>
    decreases |value|
  {
    if value == "" then (if current == "" then [] else [current])
    else if TokenChar(t, value[0]) then RawTokensFrom(t, current + [value[0]], value[1..])
    else (if current == "" then [] else [current]) + RawTokensFrom(t, "", value[1..])
  }

  function RawTokens(t: Tables, value: string): seq<string> { RawTokensFrom(t, "", value) }

  predicate RawToken(t: Tables, token: string) {
    token != "" && forall c <- token :: TokenChar(t, c)
  }

  function Count(p: char -> bool, s: string): nat {
    if s == "" then 0 else (if p(s[0]) then 1 else 0) + Count(p, s[1..])
  }

  predicate TitleCase(t: Tables, token: string) {
    token != "" && t.uppercase(token[0]) && exists i :: 0 < i < |token| && t.lowercase(token[i])
  }

  predicate UppercaseValue(t: Tables, token: string) {
    && '-' in token
    && Count(t.alphabetic, token) >= 4
    && forall c <- token :: t.alphabetic(c) ==> t.uppercase(c)
  }

  predicate Slot(t: Tables, token: string) {
    (exists c <- token :: AsciiDigit(c)) || UppercaseValue(t, token)
  }

  // ----- canonical tokens

  /** `push_collapsed_marker`. */
  function Push(tokens: seq<string>, marker: string): seq<string> {
    if tokens == [] || tokens[|tokens| - 1] != marker then tokens + [marker] else tokens
  }

  /** How many title-case tokens the list starts with. */
  function TitleRun(t: Tables, raw: seq<string>): (n: nat)
    ensures n <= |raw|
    ensures forall i :: 0 <= i < n ==> TitleCase(t, raw[i])
    ensures n < |raw| ==> !TitleCase(t, raw[n])
  {
    if raw != [] && TitleCase(t, raw[0]) then 1 + TitleRun(t, raw[1..]) else 0
  }

  /** The canonical tokens of `raw`, appended to those in front of it. */
  function Canon(t: Tables, tokens: seq<string>, raw: seq<string>): seq<string>
    decreases |raw|
  {
    if raw == [] then tokens
    else if TitleRun(t, raw) >= 2 then Canon(t, Push(tokens, ENTITY), raw[TitleRun(t, raw)..])
    else Canon(t, One(t, tokens, raw[0]), raw[1..])
  }

  /** One token that is not part of a title-case run. */
  function One(t: Tables, tokens: seq<string>, token: string): seq<string> {
    if Slot(t, token) then Push(tokens, SLOT) else tokens + [t.lowerText(token)]
  }

  lemma SkipNames(t: Tables, tokens: seq<string>, raw: seq<string>, index: nat, end: nat)
    requires index + 2 <= end <= |raw| && (forall i :: index <= i < end ==> TitleCase(t, raw[i]))
    requires end < |raw| ==> !TitleCase(t, raw[end])
    ensures Canon(t, tokens, raw[index..]) == Canon(t, Push(tokens, ENTITY), raw[end..])
  {
    TitleRunIs(t, raw[index..], end - index);
    assert raw[index..][end - index..] == raw[end..];
  }

  lemma TitleRunOfTwo(t: Tables, raw: seq<string>)
    ensures TitleRun(t, raw) >= 2 ==> TitleCase(t, raw[0]) && TitleCase(t, raw[1])
  {
  }

  lemma SkipOne(t: Tables, tokens: seq<string>, raw: seq<string>, index: nat)
    requires index < |raw|
    requires index + 1 < |raw| ==> !(TitleCase(t, raw[index]) && TitleCase(t, raw[index + 1]))
    ensures Canon(t, tokens, raw[index..]) == Canon(t, One(t, tokens, raw[index]), raw[index + 1..])
  {
    TitleRunOfTwo(t, raw[index..]);
    assert raw[index..][1..] == raw[index + 1..];
  }

  /** The inner loop: past the end of the title-case run that starts at `index`. */
  method RunEnd(t: Tables, raw: seq<string>, index: nat) returns (end: nat)
    requires index + 1 < |raw| && TitleCase(t, raw[index]) && TitleCase(t, raw[index + 1])
    ensures index + 2 <= end <= |raw| && forall i :: index <= i < end ==> TitleCase(t, raw[i])
    ensures end < |raw| ==> !TitleCase(t, raw[end])
  {
    end := index + 2;
    while end < |raw| && TitleCase(t, raw[end])
      invariant index + 2 <= end <= |raw|
      invariant forall i :: index <= i < end ==> TitleCase(t, raw[i])
    {
      end := end + 1;
    }
  }

  method CanonicalTemplateTokens(t: Tables, value: string) returns (tokens: seq<string>)
    ensures tokens == Canon(t, [], RawTokens(t, value))
  {
    var raw := RawTokens(t, value);
    tokens := [];
    var index := 0;
    assert raw[0..] == raw;
    while index < |raw|
      invariant 0 <= index <= |raw|
      invariant Canon(t, tokens, raw[index..]) == Canon(t, [], raw)
    {
      if index + 1 < |raw| && TitleCase(t, raw[index]) && TitleCase(t, raw[index + 1]) {
        var end := RunEnd(t, raw, index);
        SkipNames(t, tokens, raw, index, end);
        tokens := Push(tokens, ENTITY);
        index := end;
      } else {
        SkipOne(t, tokens, raw, index);
        tokens := One(t, tokens, raw[index]);
        index := index + 1;
      }
    }
    assert raw[index..] == [];
  }

  lemma TitleRunIs(t: Tables, raw: seq<string>, n: nat)
    requires n <= |raw| && (forall i :: 0 <= i < n ==> TitleCase(t, raw[i])) && (n < |raw| ==> !TitleCase(t, raw[n]))
    ensures TitleRun(t, raw) == n
  {
    var k := TitleRun(t, raw);
    assert k < |raw| ==> !TitleCase(t, raw[k]);
    assert n < |raw| ==> !TitleCase(t, raw[n]);
  }

  // ----- the template does not depend on the names and values

  /** No title-case run crosses from `a` into `b`. */
  predicate Separate(t: Tables, a: seq<string>, b: seq<string>) {
    a == [] || b == [] || !TitleCase(t, a[|a| - 1]) || !TitleCase(t, b[0])
  }

  lemma {:induction false} CanonSplit(t: Tables, tokens: seq<string>, a: seq<string>, b: seq<string>)
    requires Separate(t, a, b)
    ensures Canon(t, tokens, a + b) == Canon(t, Canon(t, tokens, a), b)
    decreases |a|
  {
    if a == [] {
      assert a + b == b;
    } else {
      var n := TitleRun(t, a);
      TitleRunStays(t, a, b);
      if n >= 2 {
        assert (a + b)[n..] == a[n..] + b;
        CanonSplit(t, Push(tokens, ENTITY), a[n..], b);
      } else {
        assert (a + b)[1..] == a[1..] + b;
        assert (a + b)[0] == a[0];
        CanonSplit(t, One(t, tokens, a[0]), a[1..], b);
      }
    }
  }

  lemma TitleRunStays(t: Tables, a: seq<string>, b: seq<string>)
    requires a != [] && Separate(t, a, b)
    ensures TitleRun(t, a + b) == TitleRun(t, a)
  {
    var n := TitleRun(t, a);
    assert forall i :: 0 <= i < |a| ==> (a + b)[i] == a[i];
    if n == |a| && b != [] {
      assert (a + b)[n] == b[0] && TitleCase(t, a[n - 1]);
    }
    TitleRunIs(t, a + b, n);
  }

  predicate Names(t: Tables, run: seq<string>) {
    |run| >= 2 && forall token <- run :: TitleCase(t, token)
  }

  predicate Values(t: Tables, run: seq<string>) {
    run != [] && forall token <- run :: Slot(t, token) && !TitleCase(t, token)
  }

  lemma CanonNames(t: Tables, tokens: seq<string>, run: seq<string>)
    requires Names(t, run)
    ensures Canon(t, tokens, run) == Push(tokens, ENTITY)
  {
    TitleRunIs(t, run, |run|);
    assert run[|run|..] == [];
  }

  lemma {:induction false} CanonValues(t: Tables, tokens: seq<string>, run: seq<string>)
    requires Values(t, run)
    ensures Canon(t, tokens, run) == Push(tokens, SLOT)
    decreases |run|
  {
    assert run[0] in run;
    if |run| > 1 {
      assert Values(t, run[1..]) by { assert forall token <- run[1..] :: token in run; }
      CanonValues(t, Push(tokens, SLOT), run[1..]);
    } else {
      assert run[1..] == [];
    }
  }

  /** A maximal run of two or more title-case tokens may be replaced by any other such run. */
  lemma NamesInterchange(t: Tables, before: seq<string>, run: seq<string>, other: seq<string>, after: seq<string>)
    requires Names(t, run) && Names(t, other)
    requires before == [] || !TitleCase(t, before[|before| - 1])
    requires after == [] || !TitleCase(t, after[0])
    ensures Canon(t, [], before + run + after) == Canon(t, [], before + other + after)
  {
    CanonAround(t, before, run, after);
    CanonAround(t, before, other, after);
    CanonNames(t, Canon(t, [], before), run);
    CanonNames(t, Canon(t, [], before), other);
  }

  /** A run of value tokens may be replaced by any other, wherever it stands. */
  lemma ValuesInterchange(t: Tables, before: seq<string>, run: seq<string>, other: seq<string>, after: seq<string>)
    requires Values(t, run) && Values(t, other)
    ensures Canon(t, [], before + run + after) == Canon(t, [], before + other + after)
  {
    assert run[0] in run && run[|run| - 1] in run && other[0] in other && other[|other| - 1] in other;
    CanonAround(t, before, run, after);
    CanonAround(t, before, other, after);
    CanonValues(t, Canon(t, [], before), run);
    CanonValues(t, Canon(t, [], before), other);
  }

  lemma CanonAround(t: Tables, before: seq<string>, run: seq<string>, after: seq<string>)
    requires run != [] && Separate(t, before, run) && Separate(t, run, after)
    ensures Canon(t, [], before + run + after) == Canon(t, Canon(t, Canon(t, [], before), run), after)
  {
    assert (before + run)[|before + run| - 1] == run[|run| - 1];
    CanonSplit(t, [], before + run, after);
    CanonSplit(t, [], before, run);
  }

  predicate NoPair(t: Tables, run: seq<string>) {
    forall i :: 0 <= i < |run| - 1 ==> !(TitleCase(t, run[i]) && TitleCase(t, run[i + 1]))
  }

  predicate Plain(t: Tables, run: seq<string>) { NoPair(t, run) && forall token <- run :: !Slot(t, token) }

  function LowerTexts(t: Tables, run: seq<string>): seq<string> {
    seq(|run|, i requires 0 <= i < |run| => t.lowerText(run[i]))
  }

  /** All other tokens are kept in lower case. */
  lemma {:induction false} CanonPlain(t: Tables, tokens: seq<string>, run: seq<string>)
    requires Plain(t, run)
    ensures Canon(t, tokens, run) == tokens + LowerTexts(t, run)
    decreases |run|
  {
    if run == [] {
      assert tokens + LowerTexts(t, run) == tokens;
    } else {
      assert run[0] in run && run[0..] == run;
      SkipOne(t, tokens, run, 0);
      PlainRest(t, run);
      CanonPlain(t, tokens + [t.lowerText(run[0])], run[1..]);
      assert LowerTexts(t, run) == [t.lowerText(run[0])] + LowerTexts(t, run[1..]);
      assert tokens + [t.lowerText(run[0])] + LowerTexts(t, run[1..]) == tokens + LowerTexts(t, run);
    }
  }

  lemma PlainRest(t: Tables, run: seq<string>)
    requires run != [] && Plain(t, run)
    ensures Plain(t, run[1..])
  {
    var rest := run[1..];
    forall i | 0 <= i < |rest| - 1 ensures !(TitleCase(t, rest[i]) && TitleCase(t, rest[i + 1])) {
      assert rest[i] == run[i + 1] && rest[i + 1] == run[i + 2];
    }
  }

  // ----- no marker stands next to itself

  predicate Collapsed(tokens: seq<string>) {
    forall i :: 0 <= i < |tokens| - 1 && tokens[i] == tokens[i + 1] ==> tokens[i] != ENTITY && tokens[i] != SLOT
  }

  lemma {:induction false} CanonCollapsed(t: Tables, tokens: seq<string>, raw: seq<string>)
    requires Sound(t) && Collapsed(tokens) && forall token <- raw :: '<' !in token
    ensures Collapsed(Canon(t, tokens, raw))
    decreases |raw|
  {
    if raw != [] {
      var n := TitleRun(t, raw);
      if n >= 2 {
        CanonCollapsed(t, Push(tokens, ENTITY), raw[n..]);
      } else {
        assert raw[0] in raw;
        assert '<' in ENTITY && '<' in SLOT by { assert ENTITY[0] == '<' && SLOT[0] == '<'; }
        CanonCollapsed(t, One(t, tokens, raw[0]), raw[1..]);
      }
    }
  }

  lemma {:induction false} RawTokensArePlain(t: Tables, current: string, value: string)
    requires Sound(t) && '<' !in current
    ensures forall token <- RawTokensFrom(t, current, value) :: '<' !in token
    decreases |value|
  {
    if value != "" {
      if TokenChar(t, value[0]) {
        RawTokensArePlain(t, current + [value[0]], value[1..]);
      } else {
        RawTokensArePlain(t, "", value[1..]);
      }
    }
  }

  lemma MarkersNeverRepeat(t: Tables, value: string)
    requires Sound(t)
    ensures Collapsed(Canon(t, [], RawTokens(t, value)))
  {
    RawTokensArePlain(t, "", value);
    CanonCollapsed(t, [], RawTokens(t, value));
  }

  /** Tokens written with blanks between them are read back. */
  function Spaced(tokens: seq<string>): string {
    if tokens == [] then "" else tokens[0] + " " + Spaced(tokens[1..])
  }

  lemma {:induction false} ReadToken(t: Tables, current: string, token: string, rest: string)
    requires !TokenChar(t, ' ') && (forall c <- token :: TokenChar(t, c)) && current + token != ""
    ensures RawTokensFrom(t, current, token + " " + rest) == [current + token] + RawTokensFrom(t, "", rest)
    decreases |token|
  {
    var value := token + " " + rest;
    if token == "" {
      assert value[1..] == rest && current + token == current;
    } else {
      assert token[0] in token && value[1..] == token[1..] + " " + rest;
      ReadToken(t, current + [token[0]], token[1..], rest);
      assert current + [token[0]] + token[1..] == current + token;
    }
  }

  lemma {:induction false} TokensReadBack(t: Tables, tokens: seq<string>)
    requires !TokenChar(t, ' ') && forall token <- tokens :: RawToken(t, token)
    ensures RawTokens(t, Spaced(tokens)) == tokens
  {
    if tokens != [] {
      assert tokens[0] in tokens;
      TokensReadBack(t, tokens[1..]);
      ReadToken(t, "", tokens[0], Spaced(tokens[1..]));
      assert "" + tokens[0] == tokens[0];
    }
  }

  // ----- shingles and overlap

  function Window(tokens: seq<string>, i: nat): seq<string>
    requires i + 5 <= |tokens|
  {
    tokens[i..i + 5]
  }

  function Shingles(tokens: seq<string>): set<seq<string>> {
    set i | 0 <= i <= |tokens| - 5 :: Window(tokens, i)
  }

  /** The shingles are the runs of five tokens that stand next to each other. */
  lemma ShinglesExactly(tokens: seq<string>, run: seq<string>)
    ensures run in Shingles(tokens) <==> |run| == 5 && Contains(tokens, run)
  {
    if run in Shingles(tokens) {
      var i :| 0 <= i <= |tokens| - 5 && Window(tokens, i) == run;
      assert OccursAt(tokens, i, run);
    }
    if |run| == 5 && Contains(tokens, run) {
      var i :| OccursAt(tokens, i, run);
      assert Window(tokens, i) == run;
    }
  }

  function Max(a: nat, b: nat): nat { if a < b then b else a }

  predicate TemplatesOverlap(train: set<seq<string>>, dev: set<seq<string>>) {
    var shared := |train * dev|;
    var smaller := Min(|train|, |dev|);
    var union := |train| + |dev| - shared;
    smaller >= 3 && shared >= 3 && shared * 5 >= smaller * 4 && shared * 20 >= union * 13
  }

  lemma OverlapIsSymmetric(a: set<seq<string>>, b: set<seq<string>>)
    ensures TemplatesOverlap(a, b) == TemplatesOverlap(b, a)
  {
    assert a * b == b * a;
  }

  lemma SharedIsSmaller(a: set<seq<string>>, b: set<seq<string>>)
    ensures |a * b| <= Min(|a|, |b|)
  {
    assert a == (a * b) + (a - b) && b == (a * b) + (b - a);
  }

  /** Overlapping templates are of similar size, and what they share is at least thirteen twentieths of their union. */
  lemma OverlapForcesSimilarSize(a: set<seq<string>>, b: set<seq<string>>)
    requires TemplatesOverlap(a, b)
    ensures 13 * Max(|a|, |b|) <= 20 * Min(|a|, |b|)
    ensures |a + b| == |a| + |b| - |a * b| && 20 * |a * b| >= 13 * |a + b|
  {
    SharedIsSmaller(a, b);
    assert a + b == a + (b - a) && b == (b - a) + (a * b);
  }

  /** Overlap, by the shingles that are common and those that only one of the templates has. */
  lemma OverlapExactly(a: set<seq<string>>, b: set<seq<string>>)
    ensures var common, onlyA, onlyB := |a * b|, |a - b|, |b - a|;
            TemplatesOverlap(a, b)
            <==> common >= 3 && common >= 4 * Min(onlyA, onlyB) && 7 * common >= 13 * (onlyA + onlyB)
  {
    assert a == (a - b) + (a * b) && b == (b - a) + (a * b);
  }

  /** Equal templates with three or more shingles always overlap, and with fewer they never do. */
  lemma SameTemplateOverlaps(a: set<seq<string>>)
    ensures TemplatesOverlap(a, a) <==> |a| >= 3
  {
    assert a * a == a;
  }

  /** Two passages whose tokens differ only in the names or only in the values at one place. */
  ghost predicate SameButFor(t: Tables, a: string, b: string) {
    exists before, run, other, after :: SameAround(t, a, b, before, run, other, after)
  }

  ghost predicate SameAround(t: Tables, a: string, b: string, before: seq<string>, run: seq<string>, other: seq<string>,
          after: seq<string>) {
    && RawTokens(t, a) == before + run + after && RawTokens(t, b) == before + other + after
    && ( (Values(t, run) && Values(t, other))
         || (Names(t, run) && Names(t, other)
             && (before == [] || !TitleCase(t, before[|before| - 1])) && (after == [] || !TitleCase(t, after[0]))))
  }

  /** A chain of passages, each the same as the one before but for one place. */
  ghost predicate Rewriting(t: Tables, passages: seq<string>) {
    passages != [] && forall i :: 0 <= i < |passages| - 1 ==> SameButFor(t, passages[i], passages[i + 1])
  }

  lemma {:induction false} RewritingKeepsTokens(t: Tables, passages: seq<string>)
    requires Rewriting(t, passages)
    ensures Canon(t, [], RawTokens(t, passages[0])) == Canon(t, [], RawTokens(t, passages[|passages| - 1]))
  {
    if |passages| > 1 {
      RewritingRest(t, passages);
      RewritingKeepsTokens(t, passages[1..]);
      OneRewriting(t, passages[0], passages[1]);
    }
  }

  lemma RewritingRest(t: Tables, passages: seq<string>)
    requires Rewriting(t, passages) && |passages| > 1
    ensures Rewriting(t, passages[1..]) && SameButFor(t, passages[0], passages[1])
  {
    var rest := passages[1..];
    forall i | 0 <= i < |rest| - 1 ensures SameButFor(t, rest[i], rest[i + 1]) {
      assert SameButFor(t, passages[i + 1], passages[i + 2]);
    }
    assert SameButFor(t, passages[0], passages[0 + 1]);
  }

  lemma OneRewriting(t: Tables, a: string, b: string)
    requires SameButFor(t, a, b)
    ensures Canon(t, [], RawTokens(t, a)) == Canon(t, [], RawTokens(t, b))
  {
    var before, run, other, after :| SameAround(t, a, b, before, run, other, after);
    if Values(t, run) && Values(t, other) {
      ValuesInterchange(t, before, run, other, after);
    } else {
      NamesInterchange(t, before, run, other, after);
    }
  }

  /** Passages that differ only in names and values, at any number of places, are reported as one template. */
  lemma RewritingIsReported(t: Tables, passages: seq<string>)
    requires Rewriting(t, passages)
    ensures var a := Shingles(Canon(t, [], RawTokens(t, passages[0])));
            var b := Shingles(Canon(t, [], RawTokens(t, passages[|passages| - 1])));
            TemplatesOverlap(a, b) <==> |a| >= 3
  {
    RewritingKeepsTokens(t, passages);
    SameTemplateOverlaps(Shingles(Canon(t, [], RawTokens(t, passages[0]))));
  }
}
