// The licence report as it is written, and what a reader of fenced code blocks
// does with each printed text.
module LegalReport {
  import opened Sequences
  import opened Wrappers
  import opened Substrings
  import opened LegalText
  import LineEndings

  predicate HexDigit(c: char) { '0' <= c <= '9' || 'a' <= c <= 'f' }

  /** A SHA-256 digest in hexadecimal digits. */
  type Digest = d: string | |d| == 64 && forall i :: 0 <= i < |d| ==> HexDigit(d[i]) witness seq(64, _ => '0')

  datatype Package = Package(
    name: string, version: string, license: Option<string>, repository: Option<string>,
    homepage: Option<string>, source: Option<string>, texts: seq<Digest>)

  datatype Entry = Entry(digest: Digest, origins: seq<string>, content: string)

  // ----- printing, as the report is written

  function EscapeInlineCode(value: string): (r: string)
    ensures |r| == |value| && '`' !in r
    ensures forall i :: 0 <= i < |r| ==> r[i] == if value[i] == '`' then '\'' else value[i]
  {
    if value == "" then "" else [if value[0] == '`' then '\'' else value[0]] + EscapeInlineCode(value[1..])
  }

  function OriginLine(origin: string): string {
    "- `" + EscapeInlineCode(origin) + "`\n"
  }

  function OriginLines(origins: seq<string>): string {
    if origins == [] then "" else OriginLine(origins[0]) + OriginLines(origins[1..])
  }

  function PrintBlock(content: string): string {
    CodeFence(content) + "text\n" + content + CodeFence(content) + "\n\n"
  }

  function PrintEntry(entry: Entry): string {
    ("### sha256-" + entry.digest + "\n\n") + "Used by:\n\n" + OriginLines(entry.origins) + "\n"
        + PrintBlock(entry.content)
  }

  function PrintEntries(entries: seq<Entry>): string {
    if entries == [] then "" else PrintEntry(entries[0]) + PrintEntries(entries[1..])
  }

  function EscapeTable(value: string): string { Replace(Replace(value, '|', "\\|"), '\n', " ") }

  function Or(first: Option<string>, second: string): string { if first.Some? then first.value else second }

  function Url(p: Package): string { Or(p.repository, Or(p.homepage, Or(p.source, "local dependency"))) }

  function PackageLink(p: Package): string {
    var url := Url(p);
    if "https://" <= url || "http://" <= url then "[upstream](" + Replace(url, ')', "%29") + ")"
    else "`" + EscapeInlineCode(url) + "`"
  }

  function Reference(digest: Digest): string { "[" + digest[..12] + "](#sha256-" + digest + ")" }

  const NO_TEXT := "SPDX metadata; " + "the package does not " + "distribute a separate text"

  function References(texts: seq<Digest>): string {
    if |texts| == 0 then NO_TEXT
    else if |texts| == 1 then Reference(texts[0])
    else Reference(texts[0]) + ", " + References(texts[1..])
  }

  function Cell(text: string): string { "| " + text + " " }

  function Cells(cells: seq<string>): string {
    if cells == [] then "|\n" else Cell(cells[0]) + Cells(cells[1..])
  }

  /** A row of the table of packages. */
  function Row(p: Package): string {
    Cells([EscapeTable(p.name), EscapeTable(p.version), EscapeTable(Or(p.license, "license file")),
           PackageLink(p), References(p.texts)])
  }

  function Rows(packages: seq<Package>): seq<string> {
    seq(|packages|, i requires 0 <= i < |packages| => Row(packages[i]))
  }

  function Joined(texts: seq<string>): string { if texts == [] then "" else texts[0] + Joined(texts[1..]) }

  const TITLE := "## Deduplicated legal texts"

  const SECTION := "\n" + TITLE + "\n\n"

  /** The report: fixed prose, the table of packages, and the section of texts. */
  function PrintReport(prose: string, packages: seq<Package>, entries: seq<Entry>): string {
    prose + Joined(Rows(packages)) + SECTION + PrintEntries(entries)
  }

  // ----- reading fenced code blocks (section 4.5 of CommonMark)

  datatype Block = Block(info: string, body: string)

  datatype Opening = Opening(mark: char, indent: nat, length: nat, info: string)

  datatype Mode = Outside | Inside(opening: Opening, body: string)

  /** Line feeds and carriage returns end lines (section 2.1 of CommonMark). */
  predicate Break(c: char) { c == '\n' || c == '\r' }

  /** A carriage return and the line feed behind it are one line ending. */
  predicate IsPair(c: char, rest: string) { c == '\r' && rest != "" && rest[0] == '\n' }

  function AddToLines(c: char, lines: seq<string>): seq<string> {
    if Break(c) then [""] + lines
    else if lines == [] then [[c]]
    else [[c] + lines[0]] + lines[1..]
  }

  /** The lines of a text, without their endings. */
  function Lines(s: string): (r: seq<string>)
    ensures r == [] <==> s == ""
    ensures r != [] ==> r[0] <= s
  {
    if s == "" then []
    else if IsPair(s[0], s[1..]) then Lines(s[1..])
    else AddToLines(s[0], Lines(s[1..]))
  }

  function Unlines(lines: seq<string>): string {
    if lines == [] then "" else lines[0] + "\n" + Unlines(lines[1..])
  }

  function Leading(s: string, c: char): (n: nat)
    ensures n <= |s| && (forall i :: 0 <= i < n ==> s[i] == c) && (n < |s| ==> s[n] != c)
  {
    if s != "" && s[0] == c then 1 + Leading(s[1..], c) else 0
  }

  lemma LeadingIs(s: string, c: char, n: nat)
    requires n <= |s| && (forall i :: 0 <= i < n ==> s[i] == c) && (n < |s| ==> s[n] != c)
    ensures Leading(s, c) == n
  {
  }

  predicate Blank(c: char) { c == ' ' || c == '\t' }

  function TrimBlanks(s: string): string {
    if s != "" && Blank(s[0]) then TrimBlanks(s[1..])
    else if s != "" && Blank(s[|s| - 1]) then TrimBlanks(s[..|s| - 1])
    else s
  }

  /** At most three spaces, three or more of the mark, and behind backticks an info string without them. */
  function FenceOf(line: string, mark: char): Option<Opening> {
    var indent := Leading(line, ' ');
    var length := Leading(line[indent..], mark);
    var info := line[indent + length..];
    if indent <= 3 && length >= 3 && (mark != '`' || '`' !in info)
    then Some(Opening(mark, indent, length, TrimBlanks(info))) else None
  }

  function OpeningOf(line: string): Option<Opening> {
    if FenceOf(line, '`').Some? then FenceOf(line, '`') else FenceOf(line, '~')
  }

  /** At most three spaces, at least as many of its mark as the opening, then only blanks. */
  predicate Closes(opening: Opening, line: string) {
    var indent := Leading(line, ' ');
    var length := Leading(line[indent..], opening.mark);
    indent <= 3 && length >= opening.length && forall c <- line[indent + length..] :: Blank(c)
  }

  function Unindent(line: string, n: nat): string {
    if n > 0 && line != "" && line[0] == ' ' then Unindent(line[1..], n - 1) else line
  }

  function Read(mode: Mode, lines: seq<string>): seq<Block>
    decreases |lines|
  {
    if lines == [] then
      if mode.Inside? then [Block(mode.opening.info, mode.body)] else []
    else match mode
      case Outside =>
        var opening := OpeningOf(lines[0]);
        Read(if opening.Some? then Inside(opening.value, "") else Outside, lines[1..])
      case Inside(opening, body) =>
        if Closes(opening, lines[0]) then [Block(opening.info, body)] + Read(Outside, lines[1..])
        else Read(Inside(opening, body + Unindent(lines[0], opening.indent) + "\n"), lines[1..])
  }

  // ----- lines

  predicate WholeLines(s: string) { s == "" || s[|s| - 1] == '\n' }

  predicate OneLine(s: string) { forall i :: 0 <= i < |s| ==> !Break(s[i]) }

  /** What is printed between fences: whole lines, each ended by a line feed alone. */
  predicate IsText(content: string) { WholeLines(content) && '\r' !in content }

  lemma {:induction false} LinesOf(line: string, rest: string)
    requires OneLine(line)
    ensures Lines(line + "\n" + rest) == [line] + Lines(rest)
  {
    var s := line + "\n" + rest;
    if line == "" {
      assert s[1..] == rest;
    } else {
      LinesOf(line[1..], rest);
      assert s[1..] == line[1..] + "\n" + rest && s[0] == line[0];
      assert [line[0]] + line[1..] == line;
    }
  }

  lemma AddToLinesConcat(c: char, a: seq<string>, b: seq<string>)
    requires Break(c) || a != []
    ensures AddToLines(c, a + b) == AddToLines(c, a) + b
  {
    if !Break(c) {
      assert (a + b)[1..] == a[1..] + b;
    }
  }

  lemma WholeTail(s: string)
    requires WholeLines(s) && s != ""
    ensures WholeLines(s[1..]) && (s[0] == '\n' || s[1..] != "")
  {
  }

  lemma {:induction false} LinesConcat(s: string, rest: string)
    requires WholeLines(s)
    ensures Lines(s + rest) == Lines(s) + Lines(rest)
  {
    if s == "" {
      assert s + rest == rest;
    } else {
      WholeTail(s);
      LinesConcat(s[1..], rest);
      LinesInFront(s[0], s[1..], rest);
      FirstApart(s, rest);
    }
  }

  lemma FirstApart(s: string, rest: string)
    requires s != ""
    ensures s == [s[0]] + s[1..] && s + rest == [s[0]] + (s[1..] + rest)
  {
  }

  lemma LinesInFront(c: char, s: string, rest: string)
    requires Lines(s + rest) == Lines(s) + Lines(rest) && (c == '\n' || s != "")
    ensures Lines([c] + (s + rest)) == Lines([c] + s) + Lines(rest)
  {
    LinesStep(c, s);
    LinesStep(c, s + rest);
    if !IsPair(c, s) {
      AddToLinesConcat(c, Lines(s), Lines(rest));
    }
  }

  lemma LinesStep(c: char, rest: string)
    ensures Lines([c] + rest) == if IsPair(c, rest) then Lines(rest) else AddToLines(c, Lines(rest))
  {
    assert ([c] + rest)[1..] == rest;
  }

  lemma {:induction false} UnlinesLines(s: string)
    requires IsText(s)
    ensures Unlines(Lines(s)) == s
  {
    if s != "" {
      assert s[0] in s;
      UnlinesLines(s[1..]);
      UnlinesStep(s[0], Lines(s[1..]));
    }
  }

  lemma UnlinesStep(c: char, lines: seq<string>)
    requires c != '\r' && (c == '\n' || lines != [])
    ensures Unlines(AddToLines(c, lines)) == [c] + Unlines(lines)
  {
    if c == '\n' {
      assert ([""] + lines)[1..] == lines;
    } else {
      assert ([[c] + lines[0]] + lines[1..])[1..] == lines[1..];
      FrontMoves(c, lines[0], Unlines(lines[1..]));
    }
  }

  lemma FrontMoves(c: char, line: string, rest: string)
    ensures [c] + line + "\n" + rest == [c] + (line + "\n" + rest)
  {
  }

  /** No line contains a row of `n` backticks. */
  ghost predicate Free(lines: seq<string>, n: nat) {
    forall line <- lines :: !Contains(line, Ticks(n))
  }

  lemma PrefixContains(prefix: string, s: string, pat: string)
    requires prefix <= s && Contains(prefix, pat)
    ensures Contains(s, pat)
  {
    var i :| OccursAt(prefix, i, pat);
    assert s[i..i + |pat|] == prefix[i..i + |pat|];
    assert OccursAt(s, i, pat);
  }

  lemma {:induction false} LinesAreFree(s: string, n: nat)
    requires !Contains(s, Ticks(n))
    ensures Free(Lines(s), n)
  {
    if s != "" {
      if Contains(s[1..], Ticks(n)) {
        var i :| OccursAt(s[1..], i, Ticks(n));
        OccursLater(s, i, Ticks(n));
      }
      LinesAreFree(s[1..], n);
      forall line | line in Lines(s)
        ensures !Contains(line, Ticks(n))
      {
        if line == Lines(s)[0] && Contains(line, Ticks(n)) {
          PrefixContains(line, s, Ticks(n));
        }
      }
    }
  }

  /** A line with `n` backticks after its indentation contains a row of `n`. */
  lemma LeadingTicksOccur(line: string, n: nat)
    requires n <= Leading(line[Leading(line, ' ')..], '`')
    ensures Contains(line, Ticks(n))
  {
    var indent := Leading(line, ' ');
    forall i | 0 <= i < n ensures line[indent + i] == Ticks(n)[i] {
      assert line[indent..][i] == '`' && line[indent..][i] == line[indent + i];
    }
    OccursAtIntro(line, indent, Ticks(n));
  }

  /** The lines are those of the text with every line ending a line feed. */
  lemma {:induction false} LinesOfNormalized(s: string)
    ensures Lines(LineEndings.Normalize(s, '\r', '\n')) == Lines(s)
    decreases |s|
  {
    LineEndings.TwoPassesAreOne(s, '\r', '\n');
    LinesOfUnified(s);
  }

  lemma {:induction false} LinesOfUnified(s: string)
    ensures Lines(LineEndings.Unified(s, '\r', '\n')) == Lines(s)
    decreases |s|
  {
    if s != "" {
      var k := if |s| > 1 && s[0] == '\r' && s[1] == '\n' then 2 else 1;
      LinesOfUnified(s[k..]);
      assert k == 2 ==> s[1..][1..] == s[2..];
      var c := if s[0] == '\r' then '\n' else s[0];
      LinesStep(c, LineEndings.Unified(s[k..], '\r', '\n'));
    }
  }

  // ----- what the reader does with each printed part

  /** None of the lines opens a block. */
  predicate Quiet(lines: seq<string>) { forall line <- lines :: OpeningOf(line).None? }

  lemma {:induction false} ReadQuiet(lines: seq<string>, rest: seq<string>)
    requires Quiet(lines)
    ensures Read(Outside, lines + rest) == Read(Outside, rest)
  {
    if lines == [] {
      assert lines + rest == rest;
    } else {
      assert lines[0] in lines;
      ReadQuiet(lines[1..], rest);
      assert (lines + rest)[1..] == lines[1..] + rest;
    }
  }

  lemma ReadQuietText(s: string, rest: string)
    requires WholeLines(s) && Quiet(Lines(s))
    ensures Read(Outside, Lines(s + rest)) == Read(Outside, Lines(rest))
  {
    LinesConcat(s, rest);
    ReadQuiet(Lines(s), Lines(rest));
  }

  /** Lines that do not contain the fence are collected as they are. */
  lemma {:induction false} ReadBody(opening: Opening, body: string, lines: seq<string>, rest: seq<string>)
    requires opening.mark == '`' && opening.indent == 0 && Free(lines, opening.length)
    ensures Read(Inside(opening, body), lines + rest) == Read(Inside(opening, body + Unlines(lines)), rest)
    decreases |lines|
  {
    if lines == [] {
      assert lines + rest == rest && body + Unlines(lines) == body;
    } else {
      assert lines[0] in lines;
      ReadLine(opening, body, lines[0], lines[1..] + rest);
      ReadBody(opening, body + lines[0] + "\n", lines[1..], rest);
      assert lines + rest == [lines[0]] + (lines[1..] + rest);
      BodyGrows(body, lines);
    }
  }

  lemma BodyGrows(body: string, lines: seq<string>)
    requires lines != []
    ensures body + lines[0] + "\n" + Unlines(lines[1..]) == body + Unlines(lines)
  {
  }

  lemma ReadLine(opening: Opening, body: string, line: string, lines: seq<string>)
    requires opening.mark == '`' && opening.indent == 0 && !Contains(line, Ticks(opening.length))
    ensures Read(Inside(opening, body), [line] + lines) == Read(Inside(opening, body + line + "\n"), lines)
  {
    if Closes(opening, line) {
      LeadingTicksOccur(line, opening.length);
    }
    assert ([line] + lines)[1..] == lines;
  }

  lemma LeadingTicks(n: nat, rest: string)
    requires rest == "" || rest[0] != '`'
    ensures Leading(Ticks(n) + rest, '`') == n
  {
    var s := Ticks(n) + rest;
    var k := Leading(s, '`');
    assert forall i :: 0 <= i < n ==> s[i] == Ticks(n)[i] == '`';
    assert n < |s| ==> s[n] == rest[0];
    assert k < |s| ==> s[k] != '`';
  }

  lemma FenceLines(n: nat)
    requires n >= 3
    ensures OpeningOf(Ticks(n) + "text") == Some(Opening('`', 0, n, "text"))
    ensures Closes(Opening('`', 0, n, "text"), Ticks(n))
  {
    var line := Ticks(n) + "text";
    assert line[0] == '`' && line[0..] == line;
    LeadingTicks(n, "text");
    assert line[n..] == "text";
    assert TrimBlanks("text") == "text";
    var fence := Ticks(n);
    LeadingTicks(n, "");
    assert Ticks(n) + "" == fence && fence[0..] == fence && fence[0] == '`';
  }

  lemma LinesOfBlock(content: string, rest: string)
    requires WholeLines(content)
    ensures var fence := CodeFence(content);
            Lines(PrintBlock(content) + rest) == [fence + "text"] + (Lines(content) + ([fence] + ([""] + Lines(rest))))
  {
    var fence := CodeFence(content);
    FencesAreLines(fence);
    LinesStep('\n', rest);
    LinesOf(fence, "\n" + rest);
    LinesConcat(content, fence + "\n" + ("\n" + rest));
    LinesOf(fence + "text", content + (fence + "\n" + ("\n" + rest)));
    BlockParts(fence, content, rest);
  }

  lemma FencesAreLines(fence: string)
    requires fence == Ticks(|fence|)
    ensures OneLine(fence) && OneLine(fence + "text")
  {
  }

  lemma BlockParts(fence: string, content: string, rest: string)
    ensures fence + "text\n" + content + fence + "\n\n" + rest
         == (fence + "text") + "\n" + (content + (fence + "\n" + ("\n" + rest)))
  {
  }

  /** A fenced body is read as one block, and the reader is outside again behind it. */
  lemma ReadFenced(fence: string, lines: seq<string>, rest: seq<string>)
    requires |fence| >= 3 && fence == Ticks(|fence|) && Free(lines, |fence|)
    ensures Read(Outside, [fence + "text"] + (lines + ([fence] + rest)))
            == [Block("text", Unlines(lines))] + Read(Outside, rest)
  {
    var opening := Opening('`', 0, |fence|, "text");
    FenceLines(|fence|);
    var tail := lines + ([fence] + rest);
    assert ([fence + "text"] + tail)[1..] == tail;
    ReadBody(opening, "", lines, [fence] + rest);
    assert "" + Unlines(lines) == Unlines(lines);
    assert ([fence] + rest)[1..] == rest;
  }

  /** A printed block is read back as its content. */
  lemma ReadPrintedBlock(content: string, rest: string)
    requires IsText(content)
    ensures Read(Outside, Lines(PrintBlock(content) + rest)) == [Block("text", content)] + Read(Outside, Lines(rest))
  {
    FenceIsFreshAndShortest(content);
    LinesAreFree(content, |CodeFence(content)|);
    LinesOfBlock(content, rest);
    ReadFenced(CodeFence(content), Lines(content), [""] + Lines(rest));
    UnlinesLines(content);
    assert ([""] + Lines(rest))[1..] == Lines(rest);
  }
}
