// When an origin in the licence report opens a block: a line break in front of a
// tilde fence. Backticks are escaped there, line breaks and tildes are not.
module LegalOrigins {
  import opened Substrings
  import opened LegalText
  import opened LegalReport

  predicate StartsTildes(s: string) {
    var indent := Leading(s, ' ');
    indent <= 3 && Leading(s[indent..], '~') >= 3
  }

  /** No line break of the origin stands in front of a tilde fence. */
  predicate TildeFree(origin: string) {
    origin == "" || (TildeFree(origin[1..]) && (Break(origin[0]) ==> !StartsTildes(origin[1..])))
  }

  /** What stands behind another character does not count. */
  lemma LeadingBefore(s: string, rest: string, c: char)
    requires rest != "" && rest[0] != c
    ensures Leading(s + rest, c) == Leading(s, c)
  {
    LeadingIs(s + rest, c, Leading(s, c));
  }

  lemma StartsBefore(s: string, rest: string)
    requires rest != "" && rest[0] != ' ' && rest[0] != '~'
    ensures StartsTildes(s + rest) <==> StartsTildes(s)
  {
    var indent := Leading(s, ' ');
    LeadingBefore(s, rest, ' ');
    assert (s + rest)[indent..] == s[indent..] + rest;
    LeadingBefore(s[indent..], rest, '~');
  }

  /** A line is a prefix of the text, up to a line break. */
  lemma {:induction false} FirstLine(s: string)
    requires s != ""
    ensures var n := |Lines(s)[0]|;
            Lines(s)[0] == s[..n] && n <= |s| && (n < |s| ==> Break(s[n]))
  {
    if !Break(s[0]) {
      if s[1..] != "" {
        FirstLine(s[1..]);
        assert Lines(s)[0] == [s[0]] + Lines(s[1..])[0];
      }
      var n := |Lines(s)[0]|;
      assert n > 0 && (n < |s| ==> s[n] == s[1..][n - 1]);
    }
  }

  lemma StartsInFirstLine(s: string)
    requires s != ""
    ensures StartsTildes(s) <==> StartsTildes(Lines(s)[0])
  {
    FirstLine(s);
    var n := |Lines(s)[0]|;
    if n < |s| {
      StartsBefore(s[..n], s[n..]);
      assert s == s[..n] + s[n..];
    } else {
      assert s == s[..n];
    }
  }

  predicate NoTildes(lines: seq<string>) { forall line <- lines :: !StartsTildes(line) }

  lemma TildeFreeStep(c: char, s: string)
    ensures TildeFree([c] + s) <==> TildeFree(s) && (Break(c) ==> !StartsTildes(s))
  {
    assert ([c] + s)[1..] == s;
  }

  lemma {:induction false} TildeFreeLines(s: string)
    requires s != ""
    ensures NoTildes(Lines(s)[1..]) <==> TildeFree(s)
  {
    var c, rest := s[0], s[1..];
    assert s == [c] + rest;
    TildeFreeStep(c, rest);
    if rest == "" {
      assert Lines(s)[1..] == [];
    } else {
      TildeFreeLines(rest);
      if IsPair(c, rest) {
        LeadingIs(rest, ' ', 0);
        assert rest[0..] == rest;
        LeadingIs(rest, '~', 0);
      } else if Break(c) {
        StartsInFirstLine(rest);
        assert Lines(s)[1..] == Lines(rest) == [Lines(rest)[0]] + Lines(rest)[1..];
      } else {
        assert Lines(s)[1..] == Lines(rest)[1..];
      }
    }
  }

  /** Escaping moves no space, tilde or line break. */
  lemma {:induction false} EscapedAt(s: string, i: nat)
    requires i < |s|
    ensures EscapeInlineCode(s)[i] == if s[i] == '`' then '\'' else s[i]
  {
    if i > 0 {
      EscapedAt(s[1..], i - 1);
    }
  }

  lemma EscapedLeading(s: string, c: char)
    requires c == ' ' || c == '~'
    ensures Leading(EscapeInlineCode(s), c) == Leading(s, c)
  {
    forall i | 0 <= i < |s| ensures EscapeInlineCode(s)[i] == c <==> s[i] == c { EscapedAt(s, i); }
    LeadingIs(EscapeInlineCode(s), c, Leading(s, c));
  }

  lemma {:induction false} EscapedRest(s: string, i: nat)
    requires i <= |s|
    ensures EscapeInlineCode(s)[i..] == EscapeInlineCode(s[i..])
  {
    if i > 0 {
      EscapedRest(s[1..], i - 1);
      assert s[1..][i - 1..] == s[i..];
      assert EscapeInlineCode(s)[i..] == EscapeInlineCode(s)[1..][i - 1..];
    } else {
      assert s[0..] == s;
    }
  }

  lemma EscapedStarts(s: string)
    ensures StartsTildes(EscapeInlineCode(s)) <==> StartsTildes(s)
  {
    var indent := Leading(s, ' ');
    EscapedLeading(s, ' ');
    EscapedRest(s, indent);
    EscapedLeading(s[indent..], '~');
  }

  lemma {:induction false} EscapedTildeFree(s: string, suffix: string)
    requires suffix != "" && suffix[0] == '`' && TildeFree(suffix)
    ensures TildeFree(EscapeInlineCode(s) + suffix) <==> TildeFree(s)
  {
    if s == "" {
      assert EscapeInlineCode(s) + suffix == suffix;
    } else {
      EscapedTildeFree(s[1..], suffix);
      EscapedStep(s[0], s[1..], suffix);
      assert s == [s[0]] + s[1..];
    }
  }

  lemma EscapedStep(c: char, s: string, suffix: string)
    requires suffix != "" && suffix[0] == '`'
    requires TildeFree(EscapeInlineCode(s) + suffix) <==> TildeFree(s)
    ensures TildeFree(EscapeInlineCode([c] + s) + suffix) <==> TildeFree([c] + s)
  {
    var escaped, rest := if c == '`' then '\'' else c, EscapeInlineCode(s) + suffix;
    TildeFreeStep(c, s);
    TildeFreeStep(escaped, rest);
    EscapedStarts(s);
    StartsBefore(EscapeInlineCode(s), suffix);
    EscapedFirst(c, s, suffix);
  }

  lemma EscapedFirst(c: char, s: string, suffix: string)
    ensures EscapeInlineCode([c] + s) + suffix
            == [if c == '`' then '\'' else c] + (EscapeInlineCode(s) + suffix)
  {
    assert ([c] + s)[1..] == s;
  }

  lemma ClosingIsTildeFree(suffix: string)
    requires |suffix| == 2 && suffix[0] == '`'
    ensures TildeFree(suffix)
  {
    assert suffix[1..][1..] == "" && Leading(suffix[1..][1..], ' ') == 0;
  }

  lemma OriginHasNoFence(origin: string)
    ensures WholeLines(OriginLine(origin)) && !Contains(OriginLine(origin), Ticks(3))
  {
    var line, escaped := OriginLine(origin), EscapeInlineCode(origin);
    forall i | 3 <= i < |escaped| + 3
      ensures line[i] != '`'
    {
      assert line[i] == escaped[i - 3] && escaped[i - 3] in escaped;
    }
    assert forall i :: 0 <= i < |line| && line[i] == '`' ==> i == 2 || i == |escaped| + 3;
    if Contains(line, Ticks(3)) {
      ThreeTicks(line);
    }
  }

  lemma ThreeTicks(line: string)
    requires Contains(line, Ticks(3))
    ensures exists i :: 0 <= i < |line| - 2 && line[i] == '`' && line[i + 1] == '`' && line[i + 2] == '`'
  {
    var i :| OccursAt(line, i, Ticks(3));
    OccursAtIndex(line, i, Ticks(3), 0);
    OccursAtIndex(line, i, Ticks(3), 1);
    OccursAtIndex(line, i, Ticks(3), 2);
  }

  /** A line without three backticks in a row opens a block exactly when it starts with tildes. */
  lemma OnlyTildesOpen(line: string)
    requires !Contains(line, Ticks(3))
    ensures OpeningOf(line).Some? <==> StartsTildes(line)
  {
    if FenceOf(line, '`').Some? {
      LeadingTicksOccur(line, 3);
    }
  }

  /** An origin opens a block exactly when a line break in it stands in front of a tilde fence. */
  lemma OriginIsQuiet(origin: string)
    ensures Quiet(Lines(OriginLine(origin))) <==> TildeFree(origin)
  {
    var text := OriginLine(origin);
    OriginHasNoFence(origin);
    LinesAreFree(text, 3);
    forall line <- Lines(text)
      ensures OpeningOf(line).Some? <==> StartsTildes(line)
    {
      OnlyTildesOpen(line);
    }
    StartsInFirstLine(text);
    assert text[0] == '-' && !StartsTildes(text);
    assert Lines(text) == [Lines(text)[0]] + Lines(text)[1..];
    TildeFreeLines(text);
    OriginTildes(origin);
  }

  lemma OriginTildes(origin: string)
    ensures TildeFree(OriginLine(origin)) <==> TildeFree(origin)
  {
    var body := EscapeInlineCode(origin) + "`\n";
    ClosingIsTildeFree("`\n");
    EscapedTildeFree(origin, "`\n");
    InFront('-', ' ', '`', body);
    assert OriginLine(origin) == ['-', ' ', '`'] + body;
  }

  lemma InFront(a: char, b: char, c: char, s: string)
    requires !Break(a) && !Break(b) && !Break(c)
    ensures TildeFree([a, b, c] + s) <==> TildeFree(s)
  {
    var one := [c] + s;
    var two := [b] + one;
    NoBreakInFront(c, s, one);
    NoBreakInFront(b, one, two);
    assert [a, b, c] + s == [a] + two;
    NoBreakInFront(a, two, [a] + two);
  }

  lemma NoBreakInFront(c: char, s: string, whole: string)
    requires !Break(c) && whole == [c] + s
    ensures TildeFree(whole) <==> TildeFree(s)
  {
    TildeFreeStep(c, s);
  }

  lemma {:induction false} ReadOrigins(origins: seq<string>, rest: string)
    requires forall origin <- origins :: TildeFree(origin)
    ensures Read(Outside, Lines(OriginLines(origins) + rest)) == Read(Outside, Lines(rest))
  {
    if origins == [] {
      assert OriginLines(origins) + rest == rest;
    } else {
      var line, tail := OriginLine(origins[0]), OriginLines(origins[1..]) + rest;
      assert origins[0] in origins && OriginLines(origins) + rest == line + tail;
      OriginHasNoFence(origins[0]);
      OriginIsQuiet(origins[0]);
      ReadQuietText(line, tail);
      ReadOrigins(origins[1..], rest);
    }
  }
}
