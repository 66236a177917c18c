// The proof that a reader of fenced code blocks gets the legal texts back from the
// licence report, and exactly when it does not.
module LegalRecovery {
  import opened Sequences
  import opened Substrings
  import opened Unicode
  import opened LegalText
  import opened LegalReport
  import opened LegalOrigins
  import LineEndings

  // ----- whole entries

  predicate IsPrintable(entry: Entry) { IsText(entry.content) }

  predicate OpensNothing(entry: Entry) { forall origin <- entry.origins :: TildeFree(origin) }

  lemma ReadPrintedEntry(entry: Entry, rest: string)
    requires IsPrintable(entry) && OpensNothing(entry)
    ensures Read(Outside, Lines(PrintEntry(entry) + rest))
            == [Block("text", entry.content)] + Read(Outside, Lines(rest))
  {
    var origins, block := OriginLines(entry.origins), PrintBlock(entry.content) + rest;
    EntryParts(Heading(entry), origins, PrintBlock(entry.content), rest);
    HeadingIsQuiet(entry);
    ReadQuietText(Heading(entry), origins + ("\n" + block));
    ReadOrigins(entry.origins, "\n" + block);
    ReadBlankLine(block);
    ReadPrintedBlock(entry.content, rest);
  }

  lemma ReadBlankLine(rest: string)
    ensures Read(Outside, Lines("\n" + rest)) == Read(Outside, Lines(rest))
  {
    assert ("\n" + rest)[1..] == rest;
    PlainStart("");
    assert ([""] + Lines(rest))[1..] == Lines(rest);
  }

  lemma EntryParts(heading: string, origins: string, block: string, rest: string)
    ensures heading + origins + "\n" + block + rest == heading + (origins + ("\n" + (block + rest)))
  {
  }

  lemma PlainStart(line: string)
    requires line == "" || line[0] !in {' ', '`', '~'}
    ensures OpeningOf(line).None?
  {
    assert line[0..] == line;
  }

  lemma HeadingLines(title: string, used: string)
    requires OneLine(title) && OneLine(used)
    ensures WholeLines(title + "\n\n" + (used + "\n\n"))
    ensures Lines(title + "\n\n" + (used + "\n\n")) == [title, "", used, ""]
  {
    LineAndBlank(used, "");
    LineAndBlank(title, used + "\n\n");
    assert used + "\n\n" + "" == used + "\n\n";
  }

  lemma LineAndBlank(line: string, rest: string)
    requires OneLine(line)
    ensures Lines(line + "\n\n" + rest) == [line, ""] + Lines(rest)
  {
    var tail := "\n" + rest;
    assert tail[1..] == rest;
    LinesOf(line, tail);
    assert line + "\n\n" + rest == line + "\n" + tail;
  }

  function Heading(entry: Entry): string { "### sha256-" + entry.digest + "\n\n" + "Used by:\n\n" }

  lemma DigestIsOneLine(front: string, digest: Digest)
    requires OneLine(front)
    ensures OneLine(front + digest)
  {
    forall i | 0 <= i < |front + digest| ensures !Break((front + digest)[i]) {
      if i >= |front| {
        assert HexDigit(digest[i - |front|]);
      }
    }
  }

  lemma HeadingIsQuiet(entry: Entry)
    requires IsPrintable(entry)
    ensures WholeLines(Heading(entry)) && Quiet(Lines(Heading(entry)))
  {
    var title, used := "### sha256-" + entry.digest, "Used by:";
    DigestIsOneLine("### sha256-", entry.digest);
    HeadingLines(title, used);
    assert Heading(entry) == title + "\n\n" + (used + "\n\n");
    PlainStart(title);
    PlainStart("");
    PlainStart(used);
  }

  // ----- what an origin that opens a block does

  lemma QuietJoin(a: seq<string>, b: seq<string>)
    ensures Quiet(a + b) <==> Quiet(a) && Quiet(b)
  {
    if Quiet(a + b) {
      forall line <- a ensures OpeningOf(line).None? { assert line in a + b; }
      forall line <- b ensures OpeningOf(line).None? { assert line in a + b; }
    }
  }

  lemma {:induction false} OriginsAreQuiet(origins: seq<string>)
    ensures WholeLines(OriginLines(origins))
    ensures Quiet(Lines(OriginLines(origins))) <==> forall origin <- origins :: TildeFree(origin)
  {
    if origins != [] {
      OriginsAreQuiet(origins[1..]);
      OriginHasNoFence(origins[0]);
      OriginIsQuiet(origins[0]);
      LinesConcat(OriginLine(origins[0]), OriginLines(origins[1..]));
      QuietJoin(Lines(OriginLine(origins[0])), Lines(OriginLines(origins[1..])));
      assert origins == [origins[0]] + origins[1..];
      WholeJoin(OriginLine(origins[0]), OriginLines(origins[1..]));
    }
  }

  lemma WholeJoin(a: string, b: string)
    requires WholeLines(a) && WholeLines(b)
    ensures WholeLines(a + b)
  {
  }

  /** The lines of an entry in front of its block. */
  function Front(entry: Entry): seq<string> {
    Lines(Heading(entry)) + Lines(OriginLines(entry.origins)) + [""]
  }

  /** The lines between its fence and the next entry. */
  function Between(content: string): seq<string> { Lines(content) + [CodeFence(content), ""] }

  function Behind(content: string, rest: seq<string>): seq<string> {
    [CodeFence(content) + "text"] + (Between(content) + rest)
  }

  lemma EntryLines(entry: Entry, rest: string)
    requires IsPrintable(entry)
    ensures Lines(PrintEntry(entry) + rest) == Front(entry) + Behind(entry.content, Lines(rest))
  {
    var origins, block := OriginLines(entry.origins), PrintBlock(entry.content) + rest;
    EntryParts(Heading(entry), origins, PrintBlock(entry.content), rest);
    HeadingIsQuiet(entry);
    OriginsAreQuiet(entry.origins);
    LinesConcat(Heading(entry), origins + ("\n" + block));
    LinesConcat(origins, "\n" + block);
    LinesStep('\n', block);
    BehindLines(entry.content, rest);
    FrontJoined(Lines(Heading(entry)), Lines(origins), "", Lines(block));
  }

  lemma FrontJoined(a: seq<string>, b: seq<string>, line: string, c: seq<string>)
    ensures a + (b + ([line] + c)) == a + b + [line] + c
  {
  }

  lemma BehindLines(content: string, rest: string)
    requires WholeLines(content)
    ensures Lines(PrintBlock(content) + rest) == Behind(content, Lines(rest))
  {
    LinesOfBlock(content, rest);
    BetweenJoined(Lines(content), CodeFence(content), "", Lines(rest));
  }

  lemma BetweenJoined(a: seq<string>, line: string, other: string, b: seq<string>)
    ensures a + [line, other] + b == a + ([line] + ([other] + b))
  {
  }

  lemma FrontIsQuiet(entry: Entry)
    requires IsPrintable(entry)
    ensures Quiet(Front(entry)) <==> OpensNothing(entry)
  {
    HeadingIsQuiet(entry);
    OriginsAreQuiet(entry.origins);
    PlainStart("");
    QuietJoin(Lines(Heading(entry)), Lines(OriginLines(entry.origins)));
    QuietJoin(Lines(Heading(entry)) + Lines(OriginLines(entry.origins)), [""]);
  }

  /** A reader inside a block ends it some time, with what was collected in front. */
  lemma {:induction false} InsideYields(opening: Opening, body: string, lines: seq<string>)
    ensures var read := Read(Inside(opening, body), lines);
            read != [] && body <= read[0].body
    decreases |lines|
  {
    if lines != [] && !Closes(opening, lines[0]) {
      var more := body + Unindent(lines[0], opening.indent) + "\n";
      InsideYields(opening, more, lines[1..]);
      assert body <= more;
    }
  }

  function AfterLine(mode: Mode, line: string): Mode {
    match mode
    case Outside =>
      var opening := OpeningOf(line);
      if opening.Some? then Inside(opening.value, "") else Outside
    case Inside(opening, body) =>
      if Closes(opening, line) then Outside
      else Inside(opening, body + Unindent(line, opening.indent) + "\n")
  }

  function Bodies(blocks: seq<Block>): multiset<string> {
    if blocks == [] then multiset{} else multiset{blocks[0].body} + Bodies(blocks[1..])
  }

  function Contents(entries: seq<Entry>): multiset<string> {
    if entries == [] then multiset{} else multiset{entries[0].content} + Contents(entries[1..])
  }

  /**
   * The blocks read are the texts in `own`, each from its own fence, and others in
   * `fake`; the fence of each text in `lost` is part of one of the others.
   */
  ghost predicate Accounts(mode: Mode, lines: seq<string>, own: multiset<string>, lost: multiset<string>,
                           fake: multiset<string>) {
    && Bodies(Read(mode, lines)) == own + fake
    && AllSwallowed(lost, fake)
    && (mode.Inside? ==> Read(mode, lines) != [] && Read(mode, lines)[0].body in fake)
  }

  ghost predicate AllSwallowed(lost: multiset<string>, fake: multiset<string>) {
    forall content :: content in lost ==> Swallowed(content, fake)
  }

  ghost predicate Swallowed(content: string, fake: multiset<string>) {
    exists body :: body in fake && Contains(body, CodeFence(content))
  }

  lemma SwallowedStill(lost: multiset<string>, fake: multiset<string>, more: multiset<string>)
    requires AllSwallowed(lost, fake) && fake <= more
    ensures AllSwallowed(lost, more)
  {
    forall content | content in lost ensures Swallowed(content, more) {
      var body :| body in fake && Contains(body, CodeFence(content));
      assert body in more;
    }
  }

  /** One more line in front, which is not the fence of an entry. */
  lemma LineInFront(mode: Mode, line: string, rest: seq<string>, own: multiset<string>, lost: multiset<string>,
          fake: multiset<string>)
    returns (more: multiset<string>)
    requires Accounts(AfterLine(mode, line), rest, own, lost, fake)
    ensures Accounts(mode, [line] + rest, own, lost, more) && fake <= more
  {
    assert ([line] + rest)[1..] == rest;
    more := fake;
    if mode.Inside? && Closes(mode.opening, line) {
      more := fake + multiset{mode.body};
      var block := Block(mode.opening.info, mode.body);
      assert ([block] + Read(Outside, rest))[1..] == Read(Outside, rest);
    }
    SwallowedStill(lost, fake, more);
  }

  /** Outside, the fence opens the block of its text. */
  lemma OwnBlock(content: string, rest: seq<string>, own: multiset<string>, lost: multiset<string>,
          fake: multiset<string>)
    requires IsText(content) && Accounts(Outside, [""] + rest, own, lost, fake)
    ensures Accounts(Outside, Behind(content, rest), own + multiset{content}, lost, fake)
  {
    FenceIsFreshAndShortest(content);
    LinesAreFree(content, |CodeFence(content)|);
    ReadFenced(CodeFence(content), Lines(content), [""] + rest);
    UnlinesLines(content);
    BetweenJoined(Lines(content), CodeFence(content), "", rest);
    var read := Read(Outside, [""] + rest);
    assert ([Block("text", content)] + read)[1..] == read;
  }

  /** Inside, it is collected. */
  lemma LostBlock(mode: Mode, content: string, between: seq<string>, rest: seq<string>, own: multiset<string>,
          lost: multiset<string>, fake: multiset<string>)
    requires mode.Inside? && between == Between(content)
    requires Accounts(AfterLine(mode, CodeFence(content) + "text"), between + rest, own, lost, fake)
    ensures Accounts(mode, Behind(content, rest), own, lost + multiset{content}, fake)
  {
    var fence := CodeFence(content);
    var line := fence + "text";
    FenceDoesNotClose(mode.opening, fence);
    CollectedFence(mode, line, fence, between + rest);
    assert ([line] + (between + rest))[1..] == between + rest;
    assert Swallowed(content, fake);
  }

  lemma CollectedFence(mode: Mode, line: string, fence: string, rest: seq<string>)
    requires mode.Inside? && fence <= line && !Closes(mode.opening, line)
    requires Unindent(line, mode.opening.indent) == line
    ensures var read := Read(AfterLine(mode, line), rest);
            read != [] && Contains(read[0].body, fence)
  {
    var body := mode.body + line + "\n";
    InsideYields(mode.opening, body, rest);
    HoldsFence(mode.body, line, fence, Read(Inside(mode.opening, body), rest)[0].body);
  }

  lemma HoldsFence(front: string, line: string, fence: string, whole: string)
    requires fence <= line && front + line + "\n" <= whole
    ensures Contains(whole, fence)
  {
    var body := front + line + "\n";
    forall k | 0 <= k < |fence| ensures whole[|front| + k] == fence[k] {
      assert whole[|front| + k] == body[|front| + k] == line[k];
    }
    OccursAtIntro(whole, |front|, fence);
  }

  lemma FenceDoesNotClose(opening: Opening, fence: string)
    requires |fence| >= 3 && fence == Ticks(|fence|)
    ensures !Closes(opening, fence + "text") && Unindent(fence + "text", opening.indent) == fence + "text"
  {
    var line := fence + "text";
    assert line[0] == '`' && line[|line| - 1] == 't';
    NotClosed(opening, line);
  }

  lemma NotClosed(opening: Opening, line: string)
    requires line != "" && line[0] != ' ' && line[|line| - 1] != line[0] && !Blank(line[|line| - 1])
    ensures !Closes(opening, line)
  {
    var length, last := Leading(line, opening.mark), |line| - 1;
    LeadingIs(line, ' ', 0);
    assert line[0..] == line;
    assert length <= last;
    assert line[length..][last - length] == line[last];
    assert line[last] in line[length..];
  }

  lemma LoudBehindBlank(entries: seq<Entry>)
    ensures Loud(Outside, [""], entries) <==> Loud(Outside, [], entries)
  {
    PlainStart("");
  }

  /** Somewhere a block is opened that is not the block of an entry. */
  ghost predicate Loud(mode: Mode, lines: seq<string>, entries: seq<Entry>) {
    mode.Inside? || !Quiet(lines) || exists entry :: entry in entries && !OpensNothing(entry)
  }

  lemma LoudAfter(mode: Mode, lines: seq<string>, entries: seq<Entry>)
    requires lines != []
    ensures Loud(mode, lines, entries) ==> mode.Inside? || Loud(AfterLine(mode, lines[0]), lines[1..], entries)
  {
    assert lines == [lines[0]] + lines[1..];
  }

  lemma InsideIsFake(mode: Mode, lines: seq<string>, own: multiset<string>, lost: multiset<string>,
          fake: multiset<string>)
    requires Accounts(mode, lines, own, lost, fake)
    ensures mode.Inside? ==> fake != multiset{}
  {
  }

  /** What is read from `lines` and the entries behind them, in any mode. */
  lemma {:induction false} Account(mode: Mode, lines: seq<string>, entries: seq<Entry>, rest: seq<string>)
    returns (own: multiset<string>, lost: multiset<string>, fake: multiset<string>)
    requires forall entry <- entries :: IsPrintable(entry)
    requires rest == Lines(PrintEntries(entries))
    ensures own + lost == Contents(entries) && Accounts(mode, lines + rest, own, lost, fake)
    ensures Loud(mode, lines, entries) ==> fake != multiset{}
    decreases |entries|, 2, |lines|
  {
    if lines != [] {
      own, lost, fake := Account(AfterLine(mode, lines[0]), lines[1..], entries, rest);
      fake := LineInFront(mode, lines[0], lines[1..] + rest, own, lost, fake);
      LinesSplit(lines, rest);
      LoudAfter(mode, lines, entries);
      InsideIsFake(mode, lines + rest, own, lost, fake);
    } else if entries == [] {
      own, lost := multiset{}, multiset{};
      fake := if mode.Inside? then multiset{mode.body} else multiset{};
      NothingRead(mode, fake);
      assert lines + rest == [];
    } else {
      assert entries[0] in entries && lines + rest == rest;
      FirstEntry(entries, PrintEntries(entries[1..]));
      LoudAhead(mode, entries);
      own, lost, fake := AccountEntry(mode, Front(entries[0]), entries[0].content, entries[1..],
                                      Lines(PrintEntries(entries[1..])));
    }
  }

  lemma FirstEntry(entries: seq<Entry>, others: string)
    requires entries != [] && IsPrintable(entries[0]) && others == PrintEntries(entries[1..])
    ensures Lines(PrintEntries(entries)) == Front(entries[0]) + Behind(entries[0].content, Lines(others))
  {
    EntryLines(entries[0], others);
    assert PrintEntries(entries) == PrintEntry(entries[0]) + others;
  }

  lemma LoudAhead(mode: Mode, entries: seq<Entry>)
    requires entries != [] && IsPrintable(entries[0])
    ensures Loud(mode, [], entries) ==> Loud(mode, Front(entries[0]), entries[1..])
  {
    FrontIsQuiet(entries[0]);
    assert entries == [entries[0]] + entries[1..];
  }

  lemma LinesSplit(lines: seq<string>, rest: seq<string>)
    requires lines != []
    ensures lines + rest == [lines[0]] + (lines[1..] + rest)
  {
  }

  lemma NothingRead(mode: Mode, fake: multiset<string>)
    requires fake == if mode.Inside? then multiset{mode.body} else multiset{}
    ensures Accounts(mode, [], multiset{}, multiset{}, fake)
  {
    if mode.Inside? {
      assert Read(mode, [])[1..] == [];
    }
  }

  lemma {:induction false} AccountEntry(mode: Mode, lines: seq<string>, content: string, entries: seq<Entry>,
          rest: seq<string>)
    returns (own: multiset<string>, lost: multiset<string>, fake: multiset<string>)
    requires IsText(content) && forall entry <- entries :: IsPrintable(entry)
    requires rest == Lines(PrintEntries(entries))
    ensures own + lost == multiset{content} + Contents(entries)
    ensures Accounts(mode, lines + Behind(content, rest), own, lost, fake)
    ensures Loud(mode, lines, entries) ==> fake != multiset{}
    decreases |entries| + 1, 1, |lines|
  {
    var behind := Behind(content, rest);
    if lines != [] {
      own, lost, fake := AccountEntry(AfterLine(mode, lines[0]), lines[1..], content, entries, rest);
      fake := LineInFront(mode, lines[0], lines[1..] + behind, own, lost, fake);
      LinesSplit(lines, behind);
      LoudAfter(mode, lines, entries);
      InsideIsFake(mode, lines + behind, own, lost, fake);
    } else {
      own, lost, fake := AccountBlock(mode, content, entries, rest);
      InsideIsFake(mode, behind, own, lost, fake);
      assert lines + behind == behind;
    }
  }

  lemma AccountBlock(mode: Mode, content: string, entries: seq<Entry>, rest: seq<string>)
    returns (own: multiset<string>, lost: multiset<string>, fake: multiset<string>)
    requires IsText(content) && forall entry <- entries :: IsPrintable(entry)
    requires rest == Lines(PrintEntries(entries))
    ensures own + lost == multiset{content} + Contents(entries)
    ensures Accounts(mode, Behind(content, rest), own, lost, fake)
    ensures Loud(mode, [], entries) ==> fake != multiset{}
    decreases |entries| + 1, 0
  {
    if mode.Outside? {
      own, lost, fake := Account(Outside, [""], entries, rest);
      OwnBlock(content, rest, own, lost, fake);
      own := own + multiset{content};
      LoudBehindBlank(entries);
    } else {
      own, lost, fake := Account(AfterLine(mode, CodeFence(content) + "text"), Between(content), entries, rest);
      LostBlock(mode, content, Between(content), rest, own, lost, fake);
      lost := lost + multiset{content};
      InsideIsFake(mode, Behind(content, rest), own, lost, fake);
    }
  }

  // ----- the report

  ghost function Blocks(entries: seq<Entry>): (r: seq<Block>)
    ensures Bodies(r) == Contents(entries)
  {
    if entries == [] then []
    else
      var rest := Blocks(entries[1..]);
      assert ([Block("text", entries[0].content)] + rest)[1..] == rest;
      [Block("text", entries[0].content)] + rest
  }

  lemma {:induction false} QuietIsRecoverable(entries: seq<Entry>)
    requires forall entry <- entries :: IsPrintable(entry) && OpensNothing(entry)
    ensures Read(Outside, Lines(PrintEntries(entries))) == Blocks(entries)
  {
    if entries != [] {
      assert entries[0] in entries && forall entry <- entries[1..] :: entry in entries;
      QuietIsRecoverable(entries[1..]);
      ReadPrintedEntry(entries[0], PrintEntries(entries[1..]));
    }
  }

  /** The fence of a text is longer than every row of backticks in it. */
  lemma LongerFence(body: string, content: string)
    requires Contains(body, CodeFence(content))
    ensures FenceLength(content) < FenceLength(body)
  {
    LongestIsLongest(body, FenceLength(content));
  }

  /** Texts cannot hold each other's fences in a circle. */
  lemma {:induction false} NoneSwallowed(texts: multiset<string>, longest: nat)
    requires AllSwallowed(texts, texts)
    requires forall content :: content in texts ==> FenceLength(content) <= longest
    ensures texts == multiset{}
    decreases longest
  {
    forall content | content in texts ensures FenceLength(content) < longest {
      var body :| body in texts && Contains(body, CodeFence(content));
      LongerFence(body, content);
    }
    if content :| content in texts {
      NoneSwallowed(texts, longest - 1);
    }
  }

  lemma {:induction false} LongestOf(texts: multiset<string>) returns (longest: nat)
    ensures forall content :: content in texts ==> FenceLength(content) <= longest
    decreases |texts|
  {
    if content :| content in texts {
      longest := LongestOf(texts - multiset{content});
      longest := if FenceLength(content) > longest then FenceLength(content) else longest;
      assert forall other :: other in texts ==> other == content || other in texts - multiset{content};
    } else {
      longest := 0;
    }
  }

  /** The section of texts behind any text in whole lines. */
  lemma SectionIsRecoverable(front: string, entries: seq<Entry>)
    requires WholeLines(front) && forall entry <- entries :: IsPrintable(entry)
    ensures Read(Outside, Lines(front + PrintEntries(entries))) == Blocks(entries)
            <==> Quiet(Lines(front)) && forall entry <- entries :: OpensNothing(entry)
  {
    var lines, rest := Lines(front), Lines(PrintEntries(entries));
    LinesConcat(front, PrintEntries(entries));
    if Quiet(lines) && forall entry <- entries :: OpensNothing(entry) {
      ReadQuiet(lines, rest);
      QuietIsRecoverable(entries);
    } else {
      var own, lost, fake := Account(Outside, lines, entries, rest);
      if Read(Outside, lines + rest) == Blocks(entries) {
        SameRest(own, lost, fake);
        var longest := LongestOf(fake);
        NoneSwallowed(fake, longest);
      }
    }
  }

  lemma SameRest(own: multiset<string>, lost: multiset<string>, fake: multiset<string>)
    requires own + lost == own + fake
    ensures lost == fake
  {
    forall text ensures lost[text] == fake[text] {
      assert (own + lost)[text] == (own + fake)[text];
    }
  }

  // ----- the whole report

  lemma {:induction false} CellsEnd(cells: seq<string>)
    ensures Cells(cells) != "" && WholeLines(Cells(cells))
  {
    if cells != [] {
      CellsEnd(cells[1..]);
    }
  }

  lemma RowEnds(p: Package)
    ensures WholeLines(Row(p))
  {
    CellsEnd([EscapeTable(p.name), EscapeTable(p.version), EscapeTable(Or(p.license, "license file")),
              PackageLink(p), References(p.texts)]);
  }

  lemma {:induction false} JoinedIsQuiet(texts: seq<string>)
    requires forall text <- texts :: WholeLines(text)
    ensures WholeLines(Joined(texts))
    ensures Quiet(Lines(Joined(texts))) <==> forall text <- texts :: Quiet(Lines(text))
  {
    if texts != [] {
      assert texts == [texts[0]] + texts[1..];
      JoinedIsQuiet(texts[1..]);
      BothAreQuiet(texts[0], Joined(texts[1..]));
    }
  }

  lemma BothAreQuiet(a: string, b: string)
    requires WholeLines(a) && WholeLines(b)
    ensures WholeLines(a + b) && (Quiet(Lines(a + b)) <==> Quiet(Lines(a)) && Quiet(Lines(b)))
  {
    WholeJoin(a, b);
    LinesConcat(a, b);
    QuietJoin(Lines(a), Lines(b));
  }

  lemma RowsAreQuiet(packages: seq<Package>)
    ensures WholeLines(Joined(Rows(packages)))
    ensures Quiet(Lines(Joined(Rows(packages)))) <==> forall row <- Rows(packages) :: Quiet(Lines(row))
  {
    forall i | 0 <= i < |packages| ensures WholeLines(Rows(packages)[i]) { RowEnds(packages[i]); }
    JoinedIsQuiet(Rows(packages));
  }

  lemma TitleIsQuiet(title: string)
    requires OneLine(title) && title != "" && title[0] == '#'
    ensures WholeLines("\n" + title + "\n\n") && Quiet(Lines("\n" + title + "\n\n"))
  {
    LineAndBlank(title, "");
    LinesStep('\n', title + "\n\n");
    assert title + "\n\n" + "" == title + "\n\n" && "\n" + title + "\n\n" == ['\n'] + (title + "\n\n");
    PlainStart("");
    PlainStart(title);
  }

  lemma SectionIsQuiet()
    ensures WholeLines(SECTION) && Quiet(Lines(SECTION))
  {
    TitleIsQuiet(TITLE);
  }

  lemma FrontOfReport(prose: string, rows: string)
    requires WholeLines(prose) && WholeLines(rows)
    ensures WholeLines(prose + rows + SECTION)
    ensures Quiet(Lines(prose + rows + SECTION)) <==> Quiet(Lines(prose)) && Quiet(Lines(rows))
  {
    SectionIsQuiet();
    BothAreQuiet(prose, rows);
    BothAreQuiet(prose + rows, SECTION);
  }

  /**
   * A reader of fenced blocks gets the legal texts back from the report, all of them
   * and in order, exactly when nothing in front of a text opens a block: no line of the
   * prose, no line of a row of the table, and no line break of an origin in front of a
   * tilde fence. What the texts hold does not matter.
   */
  lemma ReportIsRecoverable(prose: string, packages: seq<Package>, entries: seq<Entry>)
    requires WholeLines(prose) && forall entry <- entries :: IsPrintable(entry)
    ensures Read(Outside, Lines(PrintReport(prose, packages, entries))) == Blocks(entries)
            <==> && Quiet(Lines(prose)) && (forall row <- Rows(packages) :: Quiet(Lines(row)))
                 && (forall entry <- entries :: OpensNothing(entry))
  {
    RowsAreQuiet(packages);
    FrontOfReport(prose, Joined(Rows(packages)));
    SectionIsRecoverable(prose + Joined(Rows(packages)) + SECTION, entries);
  }

  /** Normalised texts are whole lines that end in line feeds alone, so they can be printed. */
  lemma NormalizedIsPrintable(t: Tables, text: string, entry: Entry)
    requires entry.content == NormalizeLegalText(t, text)
    ensures IsPrintable(entry)
  {
    var lines := LineEndings.Normalize(text, '\r', '\n');
    LineEndings.NormalizeRemovesCr(text, '\r', '\n');
    TrimEndIdempotent(t, lines);
  }

  /** The report of a run: the texts are those of the legal files, normalised. */
  lemma InventoryIsRecoverable(t: Tables, prose: string, packages: seq<Package>, entries: seq<Entry>,
          files: seq<string>)
    requires WholeLines(prose) && |entries| == |files|
    requires forall i :: 0 <= i < |entries| ==> entries[i].content == NormalizeLegalText(t, files[i])
    ensures Read(Outside, Lines(PrintReport(prose, packages, entries))) == Blocks(entries)
            <==> && Quiet(Lines(prose)) && (forall row <- Rows(packages) :: Quiet(Lines(row)))
                 && (forall entry <- entries :: OpensNothing(entry))
  {
    forall entry <- entries ensures IsPrintable(entry) {
      var i :| 0 <= i < |entries| && entries[i] == entry;
      NormalizedIsPrintable(t, files[i], entry);
    }
    ReportIsRecoverable(prose, packages, entries);
  }

  // ----- what opens a block, and what does not

  lemma {:induction false} ReplacedIsOneLine(s: string, c: char, text: string)
    requires OneLine(text) && forall i :: 0 <= i < |s| && s[i] != c ==> !Break(s[i])
    ensures OneLine(Replace(s, c, text))
  {
    if s != "" {
      ReplacedIsOneLine(s[1..], c, text);
    }
  }

  lemma {:induction false} ReplacedHas(s: string, c: char, text: string, other: char)
    requires other !in s && other !in text
    ensures other !in Replace(s, c, text)
  {
    if s != "" {
      ReplacedHas(s[1..], c, text, other);
    }
  }

  lemma EscapedIsOneLine(value: string)
    requires '\r' !in value
    ensures OneLine(EscapeTable(value))
  {
    ReplacedHas(value, '|', "\\|", '\r');
    var s := Replace(value, '|', "\\|");
    forall i | 0 <= i < |s| ensures s[i] != '\r' { assert s[i] in s; }
    ReplacedIsOneLine(s, '\n', " ");
  }

  lemma OneLineJoin(a: string, b: string)
    requires OneLine(a) && OneLine(b)
    ensures OneLine(a + b)
  {
  }

  lemma LinkIsOneLine(p: Package)
    requires OneLine(Url(p))
    ensures OneLine(PackageLink(p))
  {
    UpstreamIsOneLine(Url(p));
    QuotedIsOneLine(Url(p));
  }

  lemma UpstreamIsOneLine(url: string)
    requires OneLine(url)
    ensures OneLine("[upstream](" + Replace(url, ')', "%29") + ")")
  {
    ReplacedIsOneLine(url, ')', "%29");
    OneLineJoin("[upstream](", Replace(url, ')', "%29"));
    OneLineJoin("[upstream](" + Replace(url, ')', "%29"), ")");
  }

  lemma QuotedIsOneLine(url: string)
    requires OneLine(url)
    ensures OneLine("`" + EscapeInlineCode(url) + "`")
  {
    forall i | 0 <= i < |url| ensures !Break(EscapeInlineCode(url)[i]) { EscapedAt(url, i); }
    OneLineJoin("`", EscapeInlineCode(url));
    OneLineJoin("`" + EscapeInlineCode(url), "`");
  }

  lemma ReferenceIsOneLine(digest: Digest)
    ensures OneLine(Reference(digest))
  {
    forall i | 0 <= i < |digest| ensures !Break(digest[i]) { assert HexDigit(digest[i]); }
    OneLineJoin("[", digest[..12]);
    OneLineJoin("[" + digest[..12], "](#sha256-");
    OneLineJoin("[" + digest[..12] + "](#sha256-", digest);
    OneLineJoin("[" + digest[..12] + "](#sha256-" + digest, ")");
  }

  lemma {:induction false} ReferencesAreOneLine(texts: seq<Digest>)
    ensures OneLine(References(texts))
  {
    if |texts| == 0 {
      OneLineJoin("SPDX metadata; ", "the package does not ");
      OneLineJoin("SPDX metadata; " + "the package does not ", "distribute a separate text");
    } else if |texts| == 1 {
      ReferenceIsOneLine(texts[0]);
    } else {
      ReferenceIsOneLine(texts[0]);
      ReferencesAreOneLine(texts[1..]);
      OneLineJoin(Reference(texts[0]), ", ");
      OneLineJoin(Reference(texts[0]) + ", ", References(texts[1..]));
    }
  }

  lemma {:induction false} CellsAreOneLine(cells: seq<string>)
    requires forall cell <- cells :: OneLine(cell)
    ensures var row := Cells(cells);
            row != "" && row[0] == '|' && row[|row| - 1] == '\n' && OneLine(row[..|row| - 1])
  {
    if cells != [] {
      var rest := Cells(cells[1..]);
      assert cells[0] in cells;
      CellsAreOneLine(cells[1..]);
      OneLineJoin("| ", cells[0]);
      OneLineJoin("| " + cells[0], " ");
      OneLineJoin(Cell(cells[0]), rest[..|rest| - 1]);
      CellsSplit(Cell(cells[0]), rest);
    }
  }

  lemma CellsSplit(cell: string, rest: string)
    requires rest != ""
    ensures (cell + rest)[..|cell + rest| - 1] == cell + rest[..|rest| - 1]
  {
  }

  /** A package whose fields hold no carriage return, and whose link holds no line break, opens nothing. */
  lemma PlainRow(p: Package)
    requires '\r' !in p.name && '\r' !in p.version && '\r' !in Or(p.license, "license file") && OneLine(Url(p))
    ensures Quiet(Lines(Row(p)))
  {
    EscapedIsOneLine(p.name);
    EscapedIsOneLine(p.version);
    EscapedIsOneLine(Or(p.license, "license file"));
    LinkIsOneLine(p);
    ReferencesAreOneLine(p.texts);
    PlainCells(EscapeTable(p.name), EscapeTable(p.version), EscapeTable(Or(p.license, "license file")),
               PackageLink(p), References(p.texts));
  }

  lemma PlainCells(a: string, b: string, c: string, d: string, e: string)
    requires OneLine(a) && OneLine(b) && OneLine(c) && OneLine(d) && OneLine(e)
    ensures Quiet(Lines(Cells([a, b, c, d, e])))
  {
    CellsAreOneLine([a, b, c, d, e]);
    OneLineIsQuiet(Cells([a, b, c, d, e]));
  }

  lemma OneLineIsQuiet(row: string)
    requires row != "" && row[0] == '|' && row[|row| - 1] == '\n' && OneLine(row[..|row| - 1])
    ensures Quiet(Lines(row))
  {
    var line := row[..|row| - 1];
    LinesOf(line, "");
    assert line + "\n" + "" == row;
    PlainStart(line);
  }

  /** An origin with a carriage return in front of a tilde fence opens a block, and the text behind it is lost. */
  lemma CarriageReturnOpens(entry: Entry)
    requires IsPrintable(entry) && entry.origins == ["\r~~~"]
    ensures !OpensNothing(entry) && Read(Outside, Lines(PrintEntries([entry]))) != Blocks([entry])
  {
    TildesBehindReturn(entry);
    assert entry in [entry] && "" + PrintEntries([entry]) == PrintEntries([entry]);
    SectionIsRecoverable("", [entry]);
  }

  lemma TildesBehindReturn(entry: Entry)
    requires entry.origins == ["\r~~~"]
    ensures !OpensNothing(entry)
  {
    var origin := "\r~~~";
    assert origin in entry.origins && origin[1..] == "~~~";
    LeadingIs("~~~", ' ', 0);
    LeadingIs("~~~", '~', 3);
    assert "~~~"[0..] == "~~~";
  }

  lemma TicksOpen(info: string)
    requires '`' !in info && OneLine(info)
    ensures OpeningOf(Ticks(3) + info).Some?
  {
    var line := Ticks(3) + info;
    LeadingIs(line, ' ', 0);
    LeadingIs(line, '`', 3);
    assert line[0..] == line && line[3..] == info;
  }

  /** So does a line break in front of backticks in the link of a package: links are not escaped. */
  lemma LinkOpens(p: Package, host: string, digest: Digest)
    requires "https://" <= host && ')' !in host && Url(p) == host + "\n" + Ticks(3) && p.texts == [digest]
    ensures !Quiet(Lines(Row(p)))
  {
    var reference := References(p.texts);
    ReferenceIsOneLine(digest);
    ReferenceHasNoTick(digest);
    LinkSplits(p, host);
    FiveCells(EscapeTable(p.name), EscapeTable(p.version), EscapeTable(Or(p.license, "license file")),
              PackageLink(p), reference);
    BrokenRow(Cell(EscapeTable(p.name)) + Cell(EscapeTable(p.version))
              + Cell(EscapeTable(Or(p.license, "license file"))),
              PackageLink(p), "[upstream](" + host, reference);
  }

  lemma LinkSplits(p: Package, host: string)
    requires "https://" <= host && ')' !in host && Url(p) == host + "\n" + Ticks(3)
    ensures PackageLink(p) == ("[upstream](" + host) + "\n" + (Ticks(3) + ")")
  {
    ReplaceNothing(Url(p), ')', "%29");
    PrefixOf("https://", host, "\n" + Ticks(3));
    LinkParts("[upstream](", host, Ticks(3));
    assert Url(p) == host + ("\n" + Ticks(3));
  }

  lemma PrefixOf(a: string, b: string, c: string)
    requires a <= b
    ensures a <= b + c
  {
  }

  lemma LinkParts(open: string, host: string, ticks: string)
    ensures open + (host + "\n" + ticks) + ")" == (open + host) + "\n" + (ticks + ")")
  {
  }

  lemma ReferenceHasNoTick(digest: Digest)
    ensures '`' !in Reference(digest)
  {
    forall i | 0 <= i < |digest| ensures digest[i] != '`' { assert HexDigit(digest[i]); }
  }

  lemma FiveCells(a: string, b: string, c: string, d: string, e: string)
    ensures Cells([a, b, c, d, e]) == Cell(a) + Cell(b) + Cell(c) + (Cell(d) + (Cell(e) + "|\n"))
  {
    CellsStep(a, [b, c, d, e]);
    CellsStep(b, [c, d, e]);
    CellsStep(c, [d, e]);
    CellsStep(d, [e]);
    CellsStep(e, []);
    assert [a] + [b, c, d, e] == [a, b, c, d, e] && [b] + [c, d, e] == [b, c, d, e];
    assert [c] + [d, e] == [c, d, e] && [d] + [e] == [d, e] && [e] + [] == [e];
    Regroup(Cell(b), Cell(c), Cell(d) + (Cell(e) + "|\n"));
    Regroup(Cell(a), Cell(b) + Cell(c), Cell(d) + (Cell(e) + "|\n"));
    Regroup(Cell(a), Cell(b), Cell(c));
  }

  lemma CellsStep(cell: string, rest: seq<string>)
    ensures Cells([cell] + rest) == Cell(cell) + Cells(rest)
  {
    assert ([cell] + rest)[1..] == rest;
  }

  /** A row whose link goes on with backticks on a new line. */
  lemma BrokenRow(before: string, link: string, start: string, reference: string)
    requires link == start + "\n" + (Ticks(3) + ")") && OneLine(reference) && '`' !in reference
    ensures !Quiet(Lines(before + (Cell(link) + (Cell(reference) + "|\n"))))
  {
    var info := ")" + " " + Cell(reference) + "|";
    var line := Ticks(3) + info;
    OneLineJoin(")" + " ", "| " + reference);
    OneLineJoin(")" + " " + ("| " + reference), " " + "|");
    assert info == ")" + " " + ("| " + reference) + (" " + "|");
    TicksOpen(info);
    OneLineJoin(Ticks(3), info);
    LinesOf(line, "");
    assert line + "\n" + "" == line + "\n";
    var front := before + "| " + start + "\n";
    BothAreQuiet(front, line + "\n");
    RowSplits(before, start, Ticks(3), Cell(reference));
    assert line in Lines(line + "\n");
  }

  lemma RowSplits(before: string, start: string, ticks: string, cell: string)
    ensures before + ("| " + (start + "\n" + (ticks + ")")) + " " + (cell + "|\n"))
         == before + "| " + start + "\n" + (ticks + (")" + " " + cell + "|") + "\n")
  {
  }
}
