// What a reader of the licence report finds beside the texts: the cells of the
// package table, the links from it to the texts, and the origins of each text.
module LegalTable {
  import opened Sequences
  import opened Substrings
  import opened LegalReport
  import opened LegalRecovery

  // ----- cells (section 4.10 of the GitHub Flavored Markdown specification)

  /** A row cut at its pipes; a pipe behind a backslash is part of a cell. */
  function CutPipes(s: string): (r: seq<string>)
    ensures r != []
  {
    if s == "" then [""]
    else if "\\|" <= s then InFront("|", CutPipes(s[2..]))
    else if s[0] == '|' then [""] + CutPipes(s[1..])
    else InFront([s[0]], CutPipes(s[1..]))
  }

  function InFront(text: string, cells: seq<string>): (r: seq<string>)
    requires cells != []
    ensures r != []
  {
    [text + cells[0]] + cells[1..]
  }

  lemma InFrontTwice(a: string, b: string, cells: seq<string>)
    requires cells != []
    ensures InFront(a, InFront(b, cells)) == InFront(a + b, cells)
  {
    assert InFront(b, cells)[1..] == cells[1..];
    assert a + (b + cells[0]) == a + b + cells[0];
  }

  /** Text in front of a space, with line breaks printed as spaces and pipes behind backslashes. */
  lemma {:induction false} EscapedIsCut(value: string, rest: string)
    requires rest != "" && rest[0] != '|'
    ensures CutPipes(EscapeTable(value) + rest) == InFront(Replace(value, '\n', " "), CutPipes(rest))
  {
    if value == "" {
      assert EscapeTable(value) + rest == rest;
      assert "" + CutPipes(rest)[0] == CutPipes(rest)[0];
    } else {
      var c, tail := value[0], EscapeTable(value[1..]) + rest;
      EscapedIsCut(value[1..], rest);
      EscapedFirst(value, rest);
      NoPipeInFront(value[1..], rest);
      var shown := if c == '\n' then " " else [c];
      InFrontTwice(shown, Replace(value[1..], '\n', " "), CutPipes(rest));
      if c == '|' {
        assert ("\\|" + tail)[2..] == tail;
      } else {
        assert (shown + tail)[1..] == tail;
      }
    }
  }

  lemma EscapedFirst(value: string, rest: string)
    requires value != ""
    ensures var c := value[0];
            EscapeTable(value) + rest
            == (if c == '|' then "\\|" else if c == '\n' then " " else [c]) + (EscapeTable(value[1..]) + rest)
  {
    var c, tail := value[0], Replace(value[1..], '|', "\\|");
    if c == '|' {
      EscapedPipe(tail);
      Regroup("\\|", Replace(tail, '\n', " "), rest);
    } else {
      var shown := if c == '\n' then " " else [c];
      assert ([c] + tail)[1..] == tail;
      Regroup(shown, Replace(tail, '\n', " "), rest);
    }
  }

  lemma EscapedPipe(tail: string)
    ensures Replace("\\|" + tail, '\n', " ") == "\\|" + Replace(tail, '\n', " ")
  {
    assert ("\\|" + tail)[1..] == "|" + tail && ("|" + tail)[1..] == tail;
    assert Replace("|" + tail, '\n', " ") == "|" + Replace(tail, '\n', " ");
    assert "\\" + ("|" + Replace(tail, '\n', " ")) == "\\|" + Replace(tail, '\n', " ");
  }

  /** An escaped text never starts with a bare pipe. */
  lemma NoPipeInFront(value: string, rest: string)
    requires rest != "" && rest[0] != '|'
    ensures var s := EscapeTable(value) + rest; s != "" && s[0] != '|'
  {
    if value != "" {
      EscapedFirst(value, rest);
    } else {
      assert EscapeTable(value) + rest == rest;
    }
  }

  lemma {:induction false} PlainIsCut(text: string, rest: string)
    requires '|' !in text && rest != "" && rest[0] != '|'
    ensures CutPipes(text + rest) == InFront(text, CutPipes(rest))
  {
    if text == "" {
      assert text + rest == rest;
      assert "" + CutPipes(rest)[0] == CutPipes(rest)[0];
    } else {
      PlainIsCut(text[1..], rest);
      assert text[0] in text && forall c <- text[1..] :: c in text;
      PlainFirst(text, rest, text + rest);
      InFrontTwice([text[0]], text[1..], CutPipes(rest));
      assert [text[0]] + text[1..] == text;
    }
  }

  lemma PlainFirst(text: string, rest: string, s: string)
    requires text != "" && '|' !in text && rest != "" && rest[0] != '|' && s == text + rest
    ensures CutPipes(s) == InFront([text[0]], CutPipes(text[1..] + rest))
  {
    assert s[1..] == text[1..] + rest && s[0] == text[0] && text[0] in text;
    assert s[1] == if |text| > 1 then text[1] else rest[0];
    assert !("\\|" <= s) by { assert "\\|"[1] == '|'; }
  }

  lemma SpaceIsCut(rest: string, first: string, tail: seq<string>)
    requires CutPipes(rest) == [first] + tail
    ensures CutPipes(" " + rest) == [" " + first] + tail
  {
    NotEscaped(' ', rest);
    assert [' '] + rest == " " + rest && ([first] + tail)[1..] == tail;
  }

  lemma NotEscaped(c: char, rest: string)
    requires c != '\\'
    ensures !("\\|" <= [c] + rest) && ([c] + rest)[1..] == rest
  {
    assert ([c] + rest)[0] == c && "\\|"[0] == '\\';
  }

  lemma PipeIsCut(rest: string)
    ensures CutPipes("|" + rest) == [""] + CutPipes(rest)
  {
    NotEscaped('|', rest);
  }

  lemma TextIsCut(s: string, text: string, first: string, tail: seq<string>)
    requires CutPipes(s) == InFront(text, [first] + tail)
    ensures CutPipes(s) == [text + first] + tail
  {
  }

  /** A cell is cut off with the spaces around it; `text` is what it shows. */
  lemma CellIsCut(printed: string, text: string, rest: string, tail: seq<string>)
    requires CutPipes(rest) == [""] + tail
    requires CutPipes(printed + (" " + rest)) == InFront(text, CutPipes(" " + rest))
    ensures CutPipes(Cell(printed) + rest) == [""] + ([" " + (text + (" " + ""))] + tail)
  {
    var after := printed + (" " + rest);
    SpaceIsCut(rest, "", tail);
    TextIsCut(after, text, " " + "", tail);
    SpaceIsCut(after, text + (" " + ""), tail);
    PipeIsCut(" " + after);
    CellThen(printed, rest);
  }

  lemma CellThen(printed: string, rest: string)
    ensures Cell(printed) + rest == "|" + (" " + (printed + (" " + rest)))
  {
  }

  // ----- the row of a package

  /** A cell that shows `text`. */
  function Padded(text: string): string { " " + (text + (" " + "")) }

  lemma EndOfRow()
    ensures CutPipes("|\n") == [""] + ["\n"]
  {
    PipeIsCut("\n");
    NotEscaped('\n', "");
    assert CutPipes("") == [""] && ['\n'] + "" == "\n";
    assert InFront("\n", [""]) == ["\n"];
  }

  lemma EscapedCell(value: string, rest: string, tail: seq<string>)
    requires CutPipes(rest) == [""] + tail
    ensures CutPipes(Cell(EscapeTable(value)) + rest)
            == [""] + ([Padded(Replace(value, '\n', " "))] + tail)
  {
    EscapedIsCut(value, " " + rest);
    CellIsCut(EscapeTable(value), Replace(value, '\n', " "), rest, tail);
  }

  lemma PlainCell(text: string, rest: string, tail: seq<string>)
    requires '|' !in text && CutPipes(rest) == [""] + tail
    ensures CutPipes(Cell(text) + rest) == [""] + ([Padded(text)] + tail)
  {
    PlainIsCut(text, " " + rest);
    CellIsCut(text, text, rest, tail);
  }

  lemma {:induction false} ReplaceAddsNoPipe(s: string, c: char, text: string)
    requires '|' !in s && '|' !in text
    ensures '|' !in Replace(s, c, text)
  {
    if s != "" {
      ReplaceAddsNoPipe(s[1..], c, text);
    }
  }

  lemma {:induction false} InlineAddsNoPipe(s: string)
    requires '|' !in s
    ensures '|' !in EscapeInlineCode(s)
  {
    if s != "" {
      InlineAddsNoPipe(s[1..]);
    }
  }

  lemma LinkHasNoPipe(p: Package)
    requires '|' !in Url(p)
    ensures '|' !in PackageLink(p)
  {
    var url := Url(p);
    NoPercentPipe();
    ReplaceAddsNoPipe(url, ')', "%29");
    InlineAddsNoPipe(url);
    WebLink(Replace(url, ')', "%29"));
    QuotedLink(EscapeInlineCode(url));
  }

  lemma NoPercentPipe()
    ensures '|' !in "%29"
  {
  }

  lemma WebLink(url: string)
    requires '|' !in url
    ensures '|' !in "[upstream](" + url + ")"
  {
  }

  lemma QuotedLink(url: string)
    requires '|' !in url
    ensures '|' !in "`" + url + "`"
  {
  }

  lemma ReferenceHasNoPipe(digest: Digest)
    ensures '|' !in Reference(digest)
  {
    forall c | c in digest ensures c != '|' {
      var i :| 0 <= i < |digest| && digest[i] == c;
      assert HexDigit(digest[i]);
    }
    assert forall c :: c in digest[..12] ==> c in digest;
  }

  lemma {:induction false} ReferencesHaveNoPipe(texts: seq<Digest>)
    ensures '|' !in References(texts)
  {
    if |texts| == 0 {
      NoTextHasNoPipe();
    } else if |texts| == 1 {
      ReferenceHasNoPipe(texts[0]);
    } else {
      ReferenceHasNoPipe(texts[0]);
      ReferencesHaveNoPipe(texts[1..]);
    }
  }

  lemma NoTextHasNoPipe()
    ensures '|' !in NO_TEXT
  {
    assert '|' !in "SPDX metadata; " && '|' !in "the package does not " && '|' !in "distribute a separate text";
  }

  /** The cells behind the declared license, as they should be. */
  function LastCells(p: Package): seq<string> {
    [Padded(PackageLink(p))] + ([Padded(References(p.texts))] + ["\n"])
  }

  function FirstCells(p: Package, rest: seq<string>): seq<string> {
    [""] + ([Padded(Replace(p.name, '\n', " "))]
            + ([Padded(Replace(p.version, '\n', " "))]
               + ([Padded(Replace(Or(p.license, "license file"), '\n', " "))] + rest)))
  }

  lemma LinkIsCut(p: Package, five: string)
    requires five == Cell(References(p.texts)) + "|\n" && '|' !in Url(p)
    ensures CutPipes(Cell(PackageLink(p)) + five) == [""] + LastCells(p)
  {
    ReferencesAreCut(p.texts);
    LinkHasNoPipe(p);
    PlainCell(PackageLink(p), five, [Padded(References(p.texts))] + ["\n"]);
  }

  lemma ReferencesAreCut(texts: seq<Digest>)
    ensures CutPipes(Cell(References(texts)) + "|\n") == [""] + ([Padded(References(texts))] + ["\n"])
  {
    EndOfRow();
    ReferencesHaveNoPipe(texts);
    PlainCell(References(texts), "|\n", ["\n"]);
  }

  // ----- a pipe in the link

  function TotalLength(cells: seq<string>): nat { if cells == [] then 0 else |cells[0]| + TotalLength(cells[1..]) }

  lemma InFrontLength(text: string, cells: seq<string>)
    requires cells != []
    ensures TotalLength(InFront(text, cells)) == |text| + TotalLength(cells)
  {
    assert InFront(text, cells)[1..] == cells[1..];
  }

  /** Text in front of a space adds no more than itself to the cells, and with a pipe in it another cell or less. */
  lemma {:induction false} PipesShow(text: string, rest: string)
    requires rest != "" && rest[0] != '|'
    ensures AddsCells(text, CutPipes(text + rest), CutPipes(rest))
    decreases |text|
  {
    var s, before := text + rest, CutPipes(rest);
    if text == "" {
      assert s == rest;
    } else if "\\|" <= text {
      PipesShow(text[2..], rest);
      assert s[2..] == text[2..] + rest;
      EscapedPipeAdds(text, CutPipes(text[2..] + rest), before);
    } else {
      PipesShow(text[1..], rest);
      assert s[1..] == text[1..] + rest;
      NotEscapedYet(text, rest);
      OneCharacterAdds(text, CutPipes(text[1..] + rest), before);
    }
  }

  ghost predicate AddsCells(text: string, cells: seq<string>, before: seq<string>) {
    && |cells| >= |before|
    && (|cells| == |before| ==> TotalLength(cells) <= |text| + TotalLength(before))
    && ('|' in text && |cells| == |before| ==> TotalLength(cells) < |text| + TotalLength(before))
  }

  lemma EscapedPipeAdds(text: string, cells: seq<string>, before: seq<string>)
    requires |text| >= 2 && cells != [] && AddsCells(text[2..], cells, before)
    ensures AddsCells(text, InFront("|", cells), before)
  {
    InFrontLength("|", cells);
  }

  lemma OneCharacterAdds(text: string, cells: seq<string>, before: seq<string>)
    requires text != "" && cells != [] && AddsCells(text[1..], cells, before)
    ensures AddsCells(text, if text[0] == '|' then [""] + cells else InFront([text[0]], cells), before)
  {
    assert text == [text[0]] + text[1..];
    InFrontLength([text[0]], cells);
  }

  lemma NotEscapedYet(text: string, rest: string)
    requires text != "" && !("\\|" <= text) && rest != "" && rest[0] != '|'
    ensures !("\\|" <= text + rest)
  {
    var s := text + rest;
    assert s[0] == text[0] && s[1] == if |text| > 1 then text[1] else rest[0];
  }

  lemma PipeIsNoText(text: string, rest: string)
    requires '|' in text && rest != "" && rest[0] != '|'
    ensures CutPipes(text + rest) != InFront(text, CutPipes(rest))
  {
    PipesShow(text, rest);
    InFrontLength(text, CutPipes(rest));
  }

  /** A cell with a pipe in it is not cut off as it is. */
  lemma PipedCell(text: string, rest: string, tail: seq<string>)
    requires '|' in text && CutPipes(rest) == [""] + tail
    ensures exists cells :: CutPipes(Cell(text) + rest) == [""] + cells && cells != [Padded(text)] + tail
  {
    var after := text + (" " + rest);
    SpaceIsCut(rest, "", tail);
    PipeIsNoText(text, " " + rest);
    var c := CutPipes(after);
    assert c == [c[0]] + c[1..];
    SpaceIsCut(after, c[0], c[1..]);
    PipeIsCut(" " + after);
    CellThen(text, rest);
    OtherCells(text, c, tail);
  }

  lemma OtherCells(text: string, c: seq<string>, tail: seq<string>)
    requires c != [] && c != InFront(text, [" " + ""] + tail)
    ensures [" " + c[0]] + c[1..] != [Padded(text)] + tail
  {
    if [" " + c[0]] + c[1..] == [Padded(text)] + tail {
      SameCells(text, c[0], c[1..], tail);
    }
  }

  lemma SameCells(text: string, first: string, others: seq<string>, tail: seq<string>)
    requires [" " + first] + others == [Padded(text)] + tail
    ensures [first] + others == InFront(text, [" " + ""] + tail)
  {
    assert ([" " + first] + others)[1..] == others && ([Padded(text)] + tail)[1..] == tail;
    assert ([" " + first] + others)[0] == " " + first && ([Padded(text)] + tail)[0] == Padded(text);
    assert (" " + first)[1..] == first && Padded(text)[1..] == text + (" " + "");
  }

  lemma LinkKeepsPipe(p: Package)
    requires '|' in Url(p)
    ensures '|' in PackageLink(p)
  {
    ReplaceKeepsPipe(Url(p), ')', "%29");
    InlineKeepsPipe(Url(p));
  }

  lemma {:induction false} ReplaceKeepsPipe(s: string, c: char, text: string)
    requires '|' in s && c != '|'
    ensures '|' in Replace(s, c, text)
  {
    if s[0] != '|' {
      ReplaceKeepsPipe(s[1..], c, text);
    }
  }

  lemma {:induction false} InlineKeepsPipe(s: string)
    requires '|' in s
    ensures '|' in EscapeInlineCode(s)
  {
    if s[0] != '|' {
      InlineKeepsPipe(s[1..]);
    }
  }

  /**
   * The row of a package shows its name, version and declared license, with line
   * breaks as spaces, then its link and its references, exactly when the link holds no
   * pipe: links are printed without escaping it.
   */
  lemma RowIsCut(p: Package)
    ensures CutPipes(Row(p)) == FirstCells(p, LastCells(p)) <==> '|' !in Url(p)
  {
    var five := Cell(References(p.texts)) + "|\n";
    var four := Cell(PackageLink(p)) + five;
    if '|' !in Url(p) {
      LinkIsCut(p, five);
      FrontIsCut(p, four, LastCells(p));
    } else {
      LinkKeepsPipe(p);
      ReferencesAreCut(p.texts);
      PipedCell(PackageLink(p), five, [Padded(References(p.texts))] + ["\n"]);
      var cells :| CutPipes(four) == [""] + cells && cells != LastCells(p);
      FrontIsCut(p, four, cells);
      FirstCellsDiffer(p, cells, LastCells(p));
    }
  }

  lemma FirstCellsDiffer(p: Package, a: seq<string>, b: seq<string>)
    requires a != b
    ensures FirstCells(p, a) != FirstCells(p, b)
  {
    BehindFour("", Padded(Replace(p.name, '\n', " ")), Padded(Replace(p.version, '\n', " ")),
               Padded(Replace(Or(p.license, "license file"), '\n', " ")), a, b);
  }

  lemma BehindFour(w: string, x: string, y: string, z: string, a: seq<string>, b: seq<string>)
    requires a != b
    ensures [w] + ([x] + ([y] + ([z] + a))) != [w] + ([x] + ([y] + ([z] + b)))
  {
    assert ([w] + ([x] + ([y] + ([z] + a))))[4..] == a && ([w] + ([x] + ([y] + ([z] + b))))[4..] == b;
  }

  lemma FrontIsCut(p: Package, four: string, cells: seq<string>)
    requires four == Cell(PackageLink(p)) + (Cell(References(p.texts)) + "|\n") && CutPipes(four) == [""] + cells
    ensures CutPipes(Row(p)) == FirstCells(p, cells)
  {
    var name, version := EscapeTable(p.name), EscapeTable(p.version);
    var license := EscapeTable(Or(p.license, "license file"));
    EscapedCell(Or(p.license, "license file"), four, cells);
    FrontCells(p, Cell(license) + four, cells);
    RowParts(name, version, license, PackageLink(p), References(p.texts), Cell(license) + four);
  }

  lemma FrontCells(p: Package, three: string, tail: seq<string>)
    requires CutPipes(three) == [""] + ([Padded(Replace(Or(p.license, "license file"), '\n', " "))] + tail)
    ensures CutPipes(Cell(EscapeTable(p.name)) + (Cell(EscapeTable(p.version)) + three)) == FirstCells(p, tail)
  {
    var license := [Padded(Replace(Or(p.license, "license file"), '\n', " "))] + tail;
    EscapedCell(p.version, three, license);
    EscapedCell(p.name, Cell(EscapeTable(p.version)) + three, [Padded(Replace(p.version, '\n', " "))] + license);
  }

  lemma RowParts(name: string, version: string, license: string, link: string, references: string, three: string)
    requires three == Cell(license) + (Cell(link) + (Cell(references) + "|\n"))
    ensures Cells([name, version, license, link, references]) == Cell(name) + (Cell(version) + three)
  {
    CellsFirst(references, []);
    CellsFirst(link, [references]);
    CellsFirst(license, [link, references]);
    CellsFirst(version, [license, link, references]);
    CellsFirst(name, [version, license, link, references]);
    assert [name, version, license, link, references] == [name] + [version, license, link, references];
    assert [version, license, link, references] == [version] + [license, link, references];
    assert [license, link, references] == [license] + [link, references];
    assert [link, references] == [link] + [references] && [references] == [references] + [];
  }

  lemma CellsFirst(first: string, rest: seq<string>)
    ensures Cells([first] + rest) == Cell(first) + Cells(rest)
  {
    assert ([first] + rest)[1..] == rest;
  }

  // ----- links and headings

  /** What a link to a text and the heading of the text have in common. */
  function Anchor(digest: Digest): string { "sha256-" + digest }

  /** Every text of a package is linked to. */
  lemma {:induction false} TextsAreLinked(texts: seq<Digest>, digest: Digest)
    requires digest in texts
    ensures Contains(References(texts), "](#" + Anchor(digest) + ")")
  {
    var link := "](#" + Anchor(digest) + ")";
    if texts[0] == digest {
      LinkInReference(digest);
      var i :| OccursAt(Reference(digest), i, link);
      if |texts| > 1 {
        OccursInFront(Reference(digest), ", " + References(texts[1..]), i, link);
        Regroup(Reference(digest), ", ", References(texts[1..]));
      }
    } else {
      TextsAreLinked(texts[1..], digest);
      var i :| OccursAt(References(texts[1..]), i, link);
      OccursBehind(Reference(texts[0]) + ", ", References(texts[1..]), i, link);
    }
  }

  lemma LinkInReference(digest: Digest)
    ensures OccursAt(Reference(digest), 13, "](#" + Anchor(digest) + ")")
  {
    assert Reference(digest) == "[" + digest[..12] + ("](#" + Anchor(digest) + ")");
    assert |"[" + digest[..12]| == 13;
  }

  lemma OccursInFront(a: string, b: string, i: int, pat: string)
    requires OccursAt(a, i, pat)
    ensures OccursAt(a + b, i, pat)
  {
    assert (a + b)[i..i + |pat|] == a[i..i + |pat|];
  }

  lemma OccursBehind(a: string, b: string, i: int, pat: string)
    requires OccursAt(b, i, pat)
    ensures OccursAt(a + b, |a| + i, pat)
  {
    assert (a + b)[|a| + i..|a| + i + |pat|] == b[i..i + |pat|];
  }

  /** And its heading is the target of these links. */
  lemma EntryStartsWithAnchor(entry: Entry, rest: string)
    ensures var lines := Lines(PrintEntry(entry) + rest); lines != [] && lines[0] == "### " + Anchor(entry.digest)
  {
    var title := "### sha256-" + entry.digest;
    DigestIsOneLine("### sha256-", entry.digest);
    AnchorTitle(entry.digest);
    TitleFirst(title, "Used by:\n\n", OriginLines(entry.origins), PrintBlock(entry.content), rest);
  }

  lemma AnchorTitle(digest: string)
    ensures "### sha256-" + digest == "### " + ("sha256-" + digest)
  {
  }

  lemma TitleFirst(title: string, used: string, origins: string, block: string, rest: string)
    requires OneLine(title)
    ensures var lines := Lines((title + "\n\n") + used + origins + "\n" + block + rest);
            lines != [] && lines[0] == title
  {
    var after := "\n" + used + origins + "\n" + block + rest;
    TitleThen(title, used, origins, block, rest, after);
    LinesOf(title, after);
  }

  lemma TitleThen(title: string, used: string, origins: string, block: string, rest: string, after: string)
    requires after == "\n" + used + origins + "\n" + block + rest
    ensures (title + "\n\n") + used + origins + "\n" + block + rest == title + "\n" + after
  {
    assert title + "\n\n" == title + "\n" + "\n";
  }

  // ----- origins

  function OriginText(origin: string): string { "- `" + EscapeInlineCode(origin) + "`" }

  function OriginTexts(origins: seq<string>): seq<string> {
    if origins == [] then [] else [OriginText(origins[0])] + OriginTexts(origins[1..])
  }

  /** Origins without line breaks are listed one a line, in order, with quotes for backticks. */
  lemma {:induction false} OriginsAreListed(origins: seq<string>, rest: string)
    requires forall origin <- origins :: OneLine(origin)
    ensures Lines(OriginLines(origins) + rest) == OriginTexts(origins) + Lines(rest)
  {
    if origins == [] {
      assert OriginLines(origins) + rest == rest && [] + Lines(rest) == Lines(rest);
    } else {
      assert origins[0] in origins;
      OriginsAreListed(origins[1..], rest);
      OriginFirst(origins[0], OriginLines(origins[1..]), rest, OriginTexts(origins[1..]) + Lines(rest));
      Regroup([OriginText(origins[0])], OriginTexts(origins[1..]), Lines(rest));
    }
  }

  lemma OriginFirst(origin: string, others: string, rest: string, lines: seq<string>)
    requires OneLine(origin) && Lines(others + rest) == lines
    ensures Lines(OriginLine(origin) + others + rest) == [OriginText(origin)] + lines
  {
    OriginIsOneLine(origin);
    LinesOf(OriginText(origin), others + rest);
    OriginLineIs(origin, others, rest);
  }

  lemma OriginLineIs(origin: string, others: string, rest: string)
    ensures OriginLine(origin) + others + rest == OriginText(origin) + "\n" + (others + rest)
  {
    assert OriginLine(origin) == OriginText(origin) + "\n";
    Regroup(OriginLine(origin), others, rest);
  }

  lemma OriginIsOneLine(origin: string)
    requires OneLine(origin)
    ensures OneLine(OriginText(origin))
  {
    QuotedIsOneLine(origin);
    OneLineJoin("- ", "`" + EscapeInlineCode(origin) + "`");
    assert OriginText(origin) == "- " + ("`" + EscapeInlineCode(origin) + "`");
  }
}
