// Normalisation of licence texts and the fence that quotes them.
module LegalText {
  import opened Substrings
  import opened Unicode
  import LineEndings

  function NormalizeLegalText(t: Tables, text: string): string {
    TrimEnd(t, LineEndings.Normalize(text, '\r', '\n')) + "\n"
  }

  lemma TrimEndIgnoresNewline(t: Tables, s: string)
    requires t.whitespace('\n')
    ensures TrimEnd(t, s + "\n") == TrimEnd(t, s)
  {
    assert (s + "\n")[..|s|] == s;
  }

  lemma {:induction false} TrimEndIdempotent(t: Tables, s: string)
    ensures TrimEnd(t, TrimEnd(t, s)) == TrimEnd(t, s)
    ensures TrimEnd(t, s) <= s
  {
    if s != "" && t.whitespace(s[|s| - 1]) {
      TrimEndIdempotent(t, s[..|s| - 1]);
    }
  }

  /** Normalising twice is normalising once, so a written inventory checks against itself. */
  lemma NormalizeLegalTextIdempotent(t: Tables, text: string)
    requires t.whitespace('\n')
    ensures NormalizeLegalText(t, NormalizeLegalText(t, text)) == NormalizeLegalText(t, text)
  {
    var lines := LineEndings.Normalize(text, '\r', '\n');
    LineEndings.NormalizeRemovesCr(text, '\r', '\n');
    TrimEndIdempotent(t, lines);
    LineEndings.NormalizeKeepsCrFree(NormalizeLegalText(t, text), '\r', '\n');
    TrimEndIgnoresNewline(t, TrimEnd(t, lines));
  }

  /** The LF, CR LF and CR versions of a text, trailing blanks or not, have one normal form. */
  lemma VersionsNormalizeAlike(t: Tables, text: string, ending: string, blanks: string)
    requires '\r' !in text && '\r' !in blanks
    requires ending == "\n" || ending == "\r\n" || ending == "\r"
    requires forall c <- blanks :: t.whitespace(c)
    ensures NormalizeLegalText(t, LineEndings.WithEnding(text + blanks, '\n', ending)) == NormalizeLegalText(t, text)
  {
    LineEndings.EndingsAgree(text + blanks, '\r', '\n', ending);
    LineEndings.NormalizeKeepsCrFree(text, '\r', '\n');
    TrimEndDropsBlanks(t, text, blanks);
  }

  ghost predicate AllBlank(t: Tables, s: string) { forall c <- s :: t.whitespace(c) }

  /** Nothing to trim at the end. */
  predicate EndsInText(t: Tables, s: string) { s == "" || !t.whitespace(s[|s| - 1]) }

  /**
   * The normal form is the text with its line endings normalised, without the white
   * space at its end, and one line feed; everything else stays, blanks in front and
   * inside included.
   */
  lemma NormalFormIs(t: Tables, text: string) returns (core: string, cut: string)
    ensures NormalizeLegalText(t, text) == core + "\n"
    ensures core + cut == LineEndings.Normalize(text, '\r', '\n') && AllBlank(t, cut) && EndsInText(t, core)
  {
    core, cut := CutAtEnd(t, LineEndings.Normalize(text, '\r', '\n'));
  }

  lemma {:induction false} CutAtEnd(t: Tables, s: string) returns (core: string, cut: string)
    ensures TrimEnd(t, s) == core && core + cut == s && AllBlank(t, cut) && EndsInText(t, core)
  {
    if s != "" && t.whitespace(s[|s| - 1]) {
      var n := |s| - 1;
      core, cut := CutAtEnd(t, s[..n]);
      cut := cut + [s[n]];
      assert s == s[..n] + [s[n]];
    } else {
      core, cut := s, "";
    }
  }

  /** There is one such way to cut the text. */
  lemma NormalFormOf(t: Tables, text: string, core: string, cut: string)
    requires core + cut == LineEndings.Normalize(text, '\r', '\n') && AllBlank(t, cut) && EndsInText(t, core)
    ensures NormalizeLegalText(t, text) == core + "\n"
  {
    TrimEndDropsBlanks(t, core, cut);
  }

  lemma {:induction false} TrimEndDropsBlanks(t: Tables, text: string, blanks: string)
    requires forall c <- blanks :: t.whitespace(c)
    ensures TrimEnd(t, text + blanks) == TrimEnd(t, text)
  {
    if blanks == "" {
      assert text + blanks == text;
    } else {
      var n := |blanks| - 1;
      assert blanks[n] in blanks && (text + blanks)[..|text| + n] == text + blanks[..n];
      TrimEndDropsBlanks(t, text, blanks[..n]);
    }
  }

  // ----- the fence

  function Ticks(n: nat): (r: string)
    ensures |r| == n && forall i :: 0 <= i < n ==> r[i] == '`'
  {
    seq(n, _ => '`')
  }

  /** `content.split(|character| character != '`')`: the runs of backticks, empty ones included. */
  function Runs(content: string): (r: seq<string>)
    ensures r != []
  {
    if content == "" then [""]
    else if content[0] == '`' then
      var rest := Runs(content[1..]);
      ["`" + rest[0]] + rest[1..]
    else [""] + Runs(content[1..])
  }

  function MaxLength(runs: seq<string>): (n: nat)
    ensures forall i :: 0 <= i < |runs| ==> |runs[i]| <= n
    ensures runs != [] ==> exists i :: 0 <= i < |runs| && |runs[i]| == n
  {
    if runs == [] then 0
    else
      var rest := MaxLength(runs[1..]);
      assert forall i :: 0 < i < |runs| ==> runs[i] == runs[1..][i - 1];
      if rest > |runs[0]| then rest else assert |runs[0]| <= |runs[0]|; |runs[0]|
  }

  function Longest(content: string): nat { MaxLength(Runs(content)) }

  function FenceLength(content: string): nat {
    if Longest(content) + 1 > 3 then Longest(content) + 1 else 3
  }

  function CodeFence(content: string): string { Ticks(FenceLength(content)) }

  /** The first run is the maximal run of backticks at the start. */
  lemma {:induction false} FirstRun(content: string)
    ensures var first := Runs(content)[0];
            first <= content && first == Ticks(|first|)
            && (|first| < |content| ==> content[|first|] != '`')
  {
    if content != "" && content[0] == '`' {
      FirstRun(content[1..]);
      var inner := Runs(content[1..])[0];
      assert "`" + inner == Ticks(1 + |inner|);
    }
  }

  lemma OccursLater(content: string, i: int, pat: string)
    requires content != "" && OccursAt(content[1..], i, pat)
    ensures OccursAt(content, i + 1, pat)
  {
    assert content[i + 1..i + 1 + |pat|] == content[1..][i..i + |pat|];
  }

  lemma {:induction false} RunsOccur(content: string, k: nat)
    requires k < |Runs(content)|
    ensures Contains(content, Ticks(|Runs(content)[k]|))
  {
    FirstRun(content);
    if k == 0 {
      var n := |Runs(content)[0]|;
      assert content[0..0 + n] == Ticks(n);
      assert OccursAt(content, 0, Ticks(n));
    } else {
      var inner := if content[0] == '`' then k else k - 1;
      assert Runs(content)[k] == Runs(content[1..])[inner];
      RunsOccur(content[1..], inner);
      var n := |Runs(content)[k]|;
      var i :| OccursAt(content[1..], i, Ticks(n));
      OccursLater(content, i, Ticks(n));
    }
  }

  lemma {:induction false} OccurrenceInARun(content: string, i: nat, n: nat)
    requires OccursAt(content, i, Ticks(n))
    ensures exists k :: 0 <= k < |Runs(content)| && n <= |Runs(content)[k]|
  {
    if i == 0 {
      FirstRunHolds(content, n);
    } else {
      OccursEarlier(content, i, Ticks(n));
      OccurrenceInARun(content[1..], i - 1, n);
      var k :| 0 <= k < |Runs(content[1..])| && n <= |Runs(content[1..])[k]|;
      RunOfRest(content, k);
    }
  }

  lemma FirstRunHolds(content: string, n: nat)
    requires OccursAt(content, 0, Ticks(n))
    ensures n <= |Runs(content)[0]|
  {
    FirstRun(content);
    var length := |Runs(content)[0]|;
    if length < n {
      OccursAtIndex(content, 0, Ticks(n), length);
    }
  }

  lemma OccursEarlier(content: string, i: int, pat: string)
    requires i > 0 && OccursAt(content, i, pat)
    ensures OccursAt(content[1..], i - 1, pat)
  {
    assert content[1..][i - 1..i - 1 + |pat|] == content[i..i + |pat|];
  }

  lemma RunsWithTick(content: string, rest: seq<string>, k: nat)
    requires content != "" && content[0] == '`' && rest == Runs(content[1..]) && k < |rest|
    ensures k < |Runs(content)| && |rest[k]| <= |Runs(content)[k]|
  {
    assert Runs(content) == ["`" + rest[0]] + rest[1..];
    if k > 0 {
      assert Runs(content)[k] == rest[1..][k - 1];
    }
  }

  /** A run of the rest is part of a run of the whole. */
  lemma RunOfRest(content: string, k: nat)
    requires content != "" && k < |Runs(content[1..])|
    ensures exists outer :: 0 <= outer < |Runs(content)| && |Runs(content[1..])[k]| <= |Runs(content)[outer]|
  {
    var rest := Runs(content[1..]);
    if content[0] == '`' {
      RunsWithTick(content, rest, k);
    } else {
      assert Runs(content) == [""] + rest;
      assert Runs(content)[k + 1] == rest[k];
    }
  }

  /** A row of `n` backticks occurs in the content exactly when it is no longer than the longest run. */
  lemma LongestIsLongest(content: string, n: nat)
    ensures Contains(content, Ticks(n)) <==> n <= Longest(content)
  {
    if Contains(content, Ticks(n)) {
      var i :| OccursAt(content, i, Ticks(n));
      OccurrenceInARun(content, i, n);
    }
    if n <= Longest(content) {
      var k :| 0 <= k < |Runs(content)| && |Runs(content)[k]| == Longest(content);
      RunsOccur(content, k);
      var i :| OccursAt(content, i, Ticks(Longest(content)));
      ShorterOccurs(content, i, Longest(content), n);
    }
  }

  lemma ShorterOccurs(content: string, i: int, m: nat, n: nat)
    requires n <= m && OccursAt(content, i, Ticks(m))
    ensures OccursAt(content, i, Ticks(n))
  {
    forall k | 0 <= k < n ensures content[i + k] == Ticks(n)[k] { OccursAtIndex(content, i, Ticks(m), k); }
    OccursAtIntro(content, i, Ticks(n));
  }

  /** The fence does not occur in the content, and no shorter fence would do. */
  lemma FenceIsFreshAndShortest(content: string)
    ensures !Contains(content, CodeFence(content))
    ensures forall n :: n >= 3 && !Contains(content, Ticks(n)) ==> |CodeFence(content)| <= n
  {
    LongestIsLongest(content, FenceLength(content));
    forall n | n >= 3 && !Contains(content, Ticks(n))
      ensures |CodeFence(content)| <= n
    {
      LongestIsLongest(content, n);
    }
  }
}
