// Markup as text: one tag a line, indented by the elements around it, and a
// reader of tags and double-quoted attributes.
module XmlMarkup {
  import opened Wrappers
  import opened Sequences

  /** A start tag, an empty-element tag or an end tag; attribute values are as printed, already escaped. */
  datatype Markup =
    | Start(tag: string, attributes: seq<(string, string)>)
    | Empty(tag: string, attributes: seq<(string, string)>)
    | End(tag: string)

  // ----- printing

  function Spaces(n: nat): string { if n == 0 then "" else " " + Spaces(n - 1) }

  function AttributeText(attribute: (string, string)): string {
    " " + (attribute.0 + ("=\"" + (attribute.1 + "\"")))
  }

  function AttributesText(attributes: seq<(string, string)>): string {
    if attributes == [] then "" else AttributeText(attributes[0]) + AttributesText(attributes[1..])
  }

  function TagText(m: Markup): string {
    match m
    case Start(tag, attributes) => "<" + (tag + (AttributesText(attributes) + ">"))
    case Empty(tag, attributes) => "<" + (tag + (AttributesText(attributes) + " />"))
    case End(tag) => "</" + (tag + ">")
  }

  function LineText(indent: nat, m: Markup): string { Spaces(indent) + (TagText(m) + "\n") }

  function Out(indent: nat): nat { if indent >= 2 then indent - 2 else 0 }

  function Print(indent: nat, xml: seq<Markup>): string
    decreases |xml|
  {
    if xml == [] then ""
    else match xml[0]
      case Start(_, _) => LineText(indent, xml[0]) + Print(indent + 2, xml[1..])
      case Empty(_, _) => LineText(indent, xml[0]) + Print(indent, xml[1..])
      case End(_) => LineText(Out(indent), xml[0]) + Print(Out(indent), xml[1..])
  }

  /** The indentation behind the markup. */
  function Depth(indent: nat, xml: seq<Markup>): nat
    decreases |xml|
  {
    if xml == [] then indent
    else match xml[0]
      case Start(_, _) => Depth(indent + 2, xml[1..])
      case Empty(_, _) => Depth(indent, xml[1..])
      case End(_) => Depth(Out(indent), xml[1..])
  }

  lemma PrintOne(indent: nat, m: Markup, rest: seq<Markup>)
    ensures var at := if m.End? then Out(indent) else indent;
            var after := if m.Start? then indent + 2 else at;
            Print(indent, [m] + rest) == LineText(at, m) + Print(after, rest)
            && Depth(indent, [m] + rest) == Depth(after, rest)
  {
    assert ([m] + rest)[1..] == rest;
  }

  lemma {:induction false} PrintConcat(indent: nat, a: seq<Markup>, b: seq<Markup>)
    ensures Print(indent, a + b) == Print(indent, a) + Print(Depth(indent, a), b)
    decreases |a|
  {
    if a == [] {
      assert a + b == b;
    } else {
      var m, rest := a[0], a[1..];
      var at := if m.End? then Out(indent) else indent;
      var after := if m.Start? then indent + 2 else at;
      assert a + b == [m] + (rest + b) && a == [m] + rest;
      PrintOne(indent, m, rest + b);
      PrintOne(indent, m, rest);
      PrintConcat(after, rest, b);
      Regroup(LineText(at, m), Print(after, rest), Print(Depth(after, rest), b));
    }
  }

  // ----- reading

  predicate NameChar(c: char) {
    'a' <= c <= 'z' || 'A' <= c <= 'Z' || '0' <= c <= '9' || c == '_' || c == ':' || c == '-' || c == '.'
  }

  predicate Blank(c: char) { c == ' ' || c == '\t' || c == '\n' || c == '\r' }

  /** Where the name at the start ends. */
  function NameEnd(s: string): (n: nat)
    ensures n <= |s|
  {
    if s == "" || !NameChar(s[0]) then 0 else 1 + NameEnd(s[1..])
  }

  /** Where the first quotation mark is. */
  function Quote(s: string): (n: nat)
    ensures n <= |s|
  {
    if s == "" || s[0] == '"' then 0 else 1 + Quote(s[1..])
  }

  function SkipBlanks(s: string): (r: string)
    ensures |r| <= |s|
  {
    if s != "" && Blank(s[0]) then SkipBlanks(s[1..]) else s
  }

  /** One attribute, and what follows it. */
  function ReadAttribute(s: string): (r: Option<((string, string), string)>)
    ensures r.Some? ==> |r.value.1| < |s|
  {
    var n := NameEnd(s);
    if n == 0 || !("=\"" <= s[n..]) then None
    else
      var after := s[n + 2..];
      var k := Quote(after);
      if k == |after| || '<' in after[..k] then None else Some(((s[..n], after[..k]), after[k + 1..]))
  }

  /** Attributes up to the end of a tag. */
  function ReadAttributes(s: string): (r: Option<(seq<(string, string)>, string)>)
    ensures r.Some? ==> |r.value.1| <= |s|
    decreases |s|
  {
    var t := SkipBlanks(s);
    if t == "" then None
    else if t[0] == '>' || t[0] == '/' then Some(([], t))
    else
      match ReadAttribute(t)
      case None => None
      case Some((attribute, u)) =>
        match ReadAttributes(u)
        case None => None
        case Some((rest, v)) => Some(([attribute] + rest, v))
  }

  function ReadEnd(s: string): (r: Option<(Markup, string)>)
    ensures r.Some? ==> |r.value.1| <= |s|
  {
    var n := NameEnd(s);
    if n > 0 && n < |s| && s[n] == '>' then Some((End(s[..n]), s[n + 1..])) else None
  }

  function ReadStart(s: string): (r: Option<(Markup, string)>)
    ensures r.Some? ==> |r.value.1| <= |s|
  {
    var n := NameEnd(s);
    if n == 0 then None
    else
      match ReadAttributes(s[n..])
      case None => None
      case Some((attributes, t)) =>
        if ">" <= t then Some((Start(s[..n], attributes), t[1..]))
        else if "/>" <= t then Some((Empty(s[..n], attributes), t[2..]))
        else None
  }

  function ReadTag(s: string): (r: Option<(Markup, string)>)
    ensures r.Some? ==> |r.value.1| < |s|
  {
    if "</" <= s then ReadEnd(s[2..]) else if "<" <= s then ReadStart(s[1..]) else None
  }

  /** Tags with nothing but white space between them. */
  function ReadTags(s: string): Option<seq<Markup>>
    decreases |s|
  {
    var t := SkipBlanks(s);
    if t == "" then Some([])
    else
      match ReadTag(t)
      case None => None
      case Some((m, rest)) =>
        match ReadTags(rest)
        case None => None
        case Some(more) => Some([m] + more)
  }

  // ----- what is printed is read

  predicate IsName(s: string) { s != "" && forall c <- s :: NameChar(c) }

  /** No quotation mark or opening bracket: such a value can be printed between quotation marks. */
  predicate IsValue(s: string) { '"' !in s && '<' !in s }

  predicate AreAttributes(attributes: seq<(string, string)>) {
    forall a <- attributes :: IsName(a.0) && IsValue(a.1)
  }

  predicate IsMarkup(m: Markup) { IsName(m.tag) && (m.End? || AreAttributes(m.attributes)) }

  lemma {:induction false} NameEndIs(name: string, rest: string)
    requires forall c <- name :: NameChar(c)
    requires rest == "" || !NameChar(rest[0])
    ensures NameEnd(name + rest) == |name|
  {
    if name == "" {
      assert name + rest == rest;
    } else {
      assert (name + rest)[1..] == name[1..] + rest;
      NameEndIs(name[1..], rest);
    }
  }

  lemma {:induction false} QuoteIs(value: string, rest: string)
    requires '"' !in value && rest != "" && rest[0] == '"'
    ensures Quote(value + rest) == |value|
  {
    if value == "" {
      assert value + rest == rest;
    } else {
      assert (value + rest)[1..] == value[1..] + rest;
      QuoteIs(value[1..], rest);
    }
  }

  /** An attribute is read, whatever follows. */
  lemma AttributeBack(name: string, value: string, rest: string, s: string)
    requires IsName(name) && IsValue(value) && s == name + ("=\"" + (value + ("\"" + rest)))
    ensures ReadAttribute(s) == Some(((name, value), rest))
  {
    var quoted := value + ("\"" + rest);
    NameEndIs(name, "=\"" + quoted);
    QuoteIs(value, "\"" + rest);
    assert s[..|name|] == name && s[|name|..] == "=\"" + quoted && s[|name| + 2..] == quoted;
    assert quoted[..|value|] == value && quoted[|value| + 1..] == rest;
  }

  lemma NotBlank(s: string)
    requires s != "" && !Blank(s[0])
    ensures SkipBlanks(s) == s && SkipBlanks(" " + s) == s
  {
    assert (" " + s)[1..] == s;
  }

  lemma AttributeTextThen(attribute: (string, string), rest: string)
    ensures AttributeText(attribute) + rest
            == " " + (attribute.0 + ("=\"" + (attribute.1 + ("\"" + rest))))
  {
  }

  /** `tail` ends the tag, and reads as no attributes and `u`. */
  lemma {:induction false} AttributesBack(attributes: seq<(string, string)>, tail: string, u: string)
    requires AreAttributes(attributes) && ReadAttributes(tail) == Some(([], u))
    ensures ReadAttributes(AttributesText(attributes) + tail) == Some((attributes, u))
  {
    if attributes == [] {
      assert AttributesText(attributes) + tail == tail;
    } else {
      var first, rest := attributes[0], AttributesText(attributes[1..]) + tail;
      assert first in attributes;
      AttributesBack(attributes[1..], tail, u);
      Regroup(AttributeText(first), AttributesText(attributes[1..]), tail);
      OneMoreAttribute(first, rest, attributes[1..], u);
      assert [first] + attributes[1..] == attributes;
    }
  }

  lemma OneMoreAttribute(first: (string, string), rest: string, others: seq<(string, string)>, u: string)
    requires IsName(first.0) && IsValue(first.1) && ReadAttributes(rest) == Some((others, u))
    ensures ReadAttributes(AttributeText(first) + rest) == Some(([first] + others, u))
  {
    var s := first.0 + ("=\"" + (first.1 + ("\"" + rest)));
    AttributeTextThen(first, rest);
    assert s[0] == first.0[0] && first.0[0] in first.0;
    NotBlank(s);
    AttributeBack(first.0, first.1, rest, s);
  }

  lemma TagEnds(rest: string)
    ensures ReadAttributes(">" + rest) == Some(([], ">" + rest))
    ensures ReadAttributes(" />" + rest) == Some(([], "/>" + rest))
  {
    NotBlank(">" + rest);
    NotBlank("/>" + rest);
    assert " />" + rest == " " + ("/>" + rest);
  }

  /** A start or empty tag behind its bracket is read, whatever follows. */
  lemma StartBack(tag: string, attributes: seq<(string, string)>, tail: string, u: string, s: string)
    requires IsName(tag) && AreAttributes(attributes) && ReadAttributes(tail) == Some(([], u))
    requires tail != "" && !NameChar(tail[0]) && s == tag + (AttributesText(attributes) + tail)
    ensures NameEnd(s) == |tag| && s[..|tag|] == tag && ReadAttributes(s[|tag|..]) == Some((attributes, u))
  {
    var body := AttributesText(attributes) + tail;
    AttributesBack(attributes, tail, u);
    AttributesStart(attributes, tail);
    NameEndIs(tag, body);
    assert s[..|tag|] == tag && s[|tag|..] == body;
  }

  lemma AttributesStart(attributes: seq<(string, string)>, tail: string)
    requires tail != "" && !NameChar(tail[0])
    ensures var s := AttributesText(attributes) + tail; s != "" && !NameChar(s[0])
  {
    if attributes != [] {
      assert AttributesText(attributes)[0] == AttributeText(attributes[0])[0] == ' ';
    }
  }

  lemma ClosingBack(tag: string, rest: string, s: string)
    requires IsName(tag) && s == tag + (">" + rest)
    ensures ReadEnd(s) == Some((End(tag), rest))
  {
    NameEndIs(tag, ">" + rest);
    assert s[..|tag|] == tag && s[|tag|] == '>' && s[|tag| + 1..] == rest;
  }

  lemma TagTextThen(m: Markup, rest: string)
    ensures m.Start? ==>
              TagText(m) + rest == "<" + (m.tag + (AttributesText(m.attributes) + (">" + rest)))
    ensures m.Empty? ==>
              TagText(m) + rest == "<" + (m.tag + (AttributesText(m.attributes) + (" />" + rest)))
    ensures m.End? ==> TagText(m) + rest == "</" + (m.tag + (">" + rest))
  {
    if !m.End? {
      OpeningThen(m.tag, AttributesText(m.attributes), if m.Start? then ">" else " />", rest);
    }
  }

  lemma OpeningThen(tag: string, attributes: string, end: string, rest: string)
    ensures "<" + (tag + (attributes + end)) + rest == "<" + (tag + (attributes + (end + rest)))
  {
  }

  lemma StartTagBack(tag: string, s: string)
    requires IsName(tag) && tag <= s
    ensures !("</" <= "<" + s) && ReadTag("<" + s) == ReadStart(s)
  {
    assert tag[0] in tag && ("<" + s)[1] == tag[0];
    assert ("<" + s)[1..] == s;
  }

  lemma OpeningBack(tag: string, attributes: seq<(string, string)>, tail: string, u: string)
    requires IsName(tag) && AreAttributes(attributes) && ReadAttributes(tail) == Some(([], u))
    requires tail != "" && !NameChar(tail[0])
    ensures ReadTag("<" + (tag + (AttributesText(attributes) + tail)))
            == if ">" <= u then Some((Start(tag, attributes), u[1..]))
               else if "/>" <= u then Some((Empty(tag, attributes), u[2..]))
               else None
  {
    var s := tag + (AttributesText(attributes) + tail);
    StartBack(tag, attributes, tail, u, s);
    StartTagBack(tag, s);
  }

  lemma EndTagBack(tag: string, rest: string)
    requires IsName(tag)
    ensures ReadTag("</" + (tag + (">" + rest))) == Some((End(tag), rest))
  {
    var s := tag + (">" + rest);
    ClosingBack(tag, rest, s);
    assert ("</" + s)[2..] == s;
  }

  /** A tag is read, whatever follows. */
  lemma TagBack(m: Markup, rest: string)
    requires IsMarkup(m)
    ensures ReadTag(TagText(m) + rest) == Some((m, rest))
  {
    TagTextThen(m, rest);
    TagEnds(rest);
    match m
    case Start(tag, attributes) => OpeningBack(tag, attributes, ">" + rest, ">" + rest);
    case Empty(tag, attributes) => OpeningBack(tag, attributes, " />" + rest, "/>" + rest);
    case End(tag) => EndTagBack(tag, rest);
  }

  lemma {:induction false} SkipSpaces(n: nat, s: string)
    ensures SkipBlanks(Spaces(n) + s) == SkipBlanks(s)
  {
    if n == 0 {
      assert Spaces(n) + s == s;
    } else {
      assert (Spaces(n) + s)[1..] == Spaces(n - 1) + s;
      SkipSpaces(n - 1, s);
    }
  }

  lemma TagTextStarts(m: Markup)
    ensures TagText(m) != "" && TagText(m)[0] == '<'
  {
  }

  lemma LineBack(indent: nat, m: Markup, rest: string)
    requires IsMarkup(m)
    ensures ReadTags(LineText(indent, m) + rest)
            == match ReadTags(rest) case None => None case Some(more) => Some([m] + more)
  {
    var tail := "\n" + rest;
    var s := TagText(m) + tail;
    TagTextStarts(m);
    TagBack(m, tail);
    assert LineText(indent, m) + rest == Spaces(indent) + s;
    SkipSpaces(indent, s);
    NotBlank(s);
    NewLineSkipped(rest);
  }

  lemma NewLineSkipped(rest: string)
    ensures ReadTags("\n" + rest) == ReadTags(rest)
  {
    assert ("\n" + rest)[1..] == rest;
  }

  /** What is printed is read back, tag by tag. */
  lemma {:induction false} PrintedIsRead(indent: nat, xml: seq<Markup>)
    requires forall m <- xml :: IsMarkup(m)
    ensures ReadTags(Print(indent, xml)) == Some(xml)
    decreases |xml|
  {
    if xml != [] {
      var m, rest := xml[0], xml[1..];
      var at := if m.End? then Out(indent) else indent;
      var after := if m.Start? then indent + 2 else at;
      assert xml == [m] + rest && m in xml;
      PrintOne(indent, m, rest);
      PrintedIsRead(after, rest);
      LineBack(at, m, Print(after, rest));
    }
  }
}
