// What an XML processor finds in the printed document, and what it makes of the
// values in it.
module WindowsMsiReading {
  import opened Wrappers
  import opened WindowsMsiWalk
  import opened WindowsMsiTree
  import opened WindowsMsiRender
  import opened WindowsMsiFragment
  import opened XmlEscape
  import opened XmlMarkup

  predicate All(p: char -> bool, s: string) { forall c <- s :: p(c) }

  lemma AllOf(p: char -> bool, a: string, b: string)
    ensures All(p, a + b) <==> All(p, a) && All(p, b)
  {
    assert forall c :: c in a + b <==> c in a || c in b;
  }

  // ----- the reader

  predicate Break(c: char) { c == '\t' || c == '\n' || c == '\r' }

  /** A character that may stand in a document (section 2.2 of XML 1.0). */
  const XML_CHAR: char -> bool := c => Break(c) || (c >= ' ' && c != '\U{FFFE}' && c != '\U{FFFF}')

  const UNBROKEN: char -> bool := c => !Break(c)

  /**
   * Line ends become one line feed, and any white space in an attribute value reads
   * as a space (sections 2.11 and 3.3.3 of XML 1.0).
   */
  function AsRead(s: string): string {
    if s == "" then ""
    else if s[0] == '\r' && |s| > 1 && s[1] == '\n' then " " + AsRead(s[2..])
    else [if Break(s[0]) then ' ' else s[0]] + AsRead(s[1..])
  }

  function ValueOf(raw: string): string { Unescape(AsRead(raw)) }

  function DecodedFiles(files: seq<ResourceFile>): seq<ResourceFile> {
    if files == [] then []
    else [ResourceFile(ValueOf(files[0].source), ValueOf(files[0].destination), ValueOf(files[0].digest))]
         + DecodedFiles(files[1..])
  }

  function Decoded(tree: Tree): Tree
    decreases tree, 1
  {
    Tree(DecodedChildren(tree.children), DecodedFiles(tree.files))
  }

  function DecodedChildren(children: seq<Child>): seq<Child>
    decreases children, 0
  {
    if children == [] then []
    else [Child(ValueOf(children[0].name), Decoded(children[0].tree))] + DecodedChildren(children[1..])
  }

  /** The resources that a processor finds: a balanced document of allowed characters, from its third tag on. */
  ghost function ReadDocument(text: string): Option<multiset<Located>> {
    if !All(XML_CHAR, text) || !(PROLOG <= text) then None
    else
      match ReadTags(text[|PROLOG|..])
      case None => None
      case Some(xml) =>
        if Run([], xml) != Some([]) || |xml| < 3 then None
        else Some(Flatten(Decoded(Read(xml[3..]).0), []))
  }

  // ----- what reading makes of a value

  lemma {:induction false} AsReadUnbroken(s: string)
    ensures All(UNBROKEN, AsRead(s))
    decreases |s|
  {
    if s != "" {
      if s[0] == '\r' && |s| > 1 && s[1] == '\n' {
        AsReadUnbroken(s[2..]);
      } else {
        AsReadUnbroken(s[1..]);
      }
    }
  }

  lemma {:induction false} UnbrokenAsRead(s: string)
    requires All(UNBROKEN, s)
    ensures AsRead(s) == s
  {
    if s != "" {
      assert s[0] in s && s == [s[0]] + s[1..];
      UnbrokenAsRead(s[1..]);
    }
  }

  lemma {:induction false} AsReadPrefix(a: string, b: string)
    requires All(UNBROKEN, a)
    ensures AsRead(a + b) == a + AsRead(b)
  {
    if a == "" {
      assert a + b == b;
    } else {
      assert a[0] in a && (a + b)[1..] == a[1..] + b && a == [a[0]] + a[1..];
      AsReadPrefix(a[1..], b);
    }
  }

  lemma EntityUnbroken(c: char)
    ensures All(UNBROKEN, Entity(c)) <==> UNBROKEN(c)
    ensures All(XML_CHAR, Entity(c)) <==> XML_CHAR(c)
  {
    if Reserved(c) {
      forall d | d in Entity(c) ensures UNBROKEN(d) && XML_CHAR(d) {
        var i :| 0 <= i < |Entity(c)| && Entity(c)[i] == d;
        EntityIsAscii(c, i);
      }
    } else {
      assert Entity(c) == [c];
      AllOne(UNBROKEN, c);
      AllOne(XML_CHAR, c);
    }
  }

  lemma AllOne(p: char -> bool, c: char)
    ensures All(p, [c]) <==> p(c)
  {
    assert c in [c];
  }

  lemma EntityIsAscii(c: char, i: nat)
    requires Reserved(c) && i < |Entity(c)|
    ensures ' ' < Entity(c)[i] <= '~'
  {
  }

  /** Escaping does not touch white space, so it is read the same escaped or not. */
  lemma {:induction false} EscapedAsRead(s: string)
    ensures AsRead(EscapeEach(s)) == EscapeEach(AsRead(s))
    decreases |s|
  {
    if s != "" {
      if s[0] == '\r' && |s| > 1 && s[1] == '\n' {
        EscapedAsRead(s[2..]);
        assert s == "\r\n" + s[2..];
        PairAsRead(s, s[2..]);
      } else {
        EscapedAsRead(s[1..]);
        OneAsRead(s, s[0], s[1..], EscapeEach(s[1..]));
      }
    }
  }

  lemma OneAsRead(s: string, c: char, rest: string, e: string)
    requires s == [c] + rest && !(c == '\r' && rest != "" && rest[0] == '\n') && e == EscapeEach(rest)
    requires AsRead(e) == EscapeEach(AsRead(rest))
    ensures AsRead(EscapeEach(s)) == EscapeEach(AsRead(s))
  {
    var read := if Break(c) then ' ' else c;
    OneRead(c, rest);
    EscapeFirst(c, rest);
    EscapeFirst(read, AsRead(rest));
    EntityUnbroken(c);
    if Break(c) {
      NoPair(c, rest, e);
      OneRead(c, e);
    } else {
      AsReadPrefix(Entity(c), e);
    }
  }

  lemma OneRead(c: char, rest: string)
    requires !(c == '\r' && rest != "" && rest[0] == '\n')
    ensures AsRead([c] + rest) == [if Break(c) then ' ' else c] + AsRead(rest)
  {
    assert ([c] + rest)[1..] == rest;
  }

  lemma PairAsRead(s: string, rest: string)
    requires s == "\r\n" + rest && AsRead(EscapeEach(rest)) == EscapeEach(AsRead(rest))
    ensures AsRead(EscapeEach(s)) == EscapeEach(AsRead(s))
  {
    var e := EscapeEach(rest);
    assert s[1..] == "\n" + rest && s[2..] == rest;
    EscapeFirst('\n', rest);
    EscapeFirst('\r', s[1..]);
    PairRead(EscapeEach(s), e);
    EscapeFirst(' ', AsRead(rest));
  }

  lemma PairRead(s: string, rest: string)
    requires s == "\r" + ("\n" + rest)
    ensures AsRead(s) == " " + AsRead(rest)
  {
    assert s[2..] == rest;
  }

  lemma EscapeFirst(c: char, rest: string)
    ensures EscapeEach([c] + rest) == Entity(c) + EscapeEach(rest)
  {
    assert ([c] + rest)[1..] == rest;
  }

  /** Escaping creates no line feed behind a carriage return. */
  lemma NoPair(c: char, rest: string, e: string)
    requires !(c == '\r' && rest != "" && rest[0] == '\n') && e == EscapeEach(rest)
    ensures !(c == '\r' && e != "" && e[0] == '\n')
  {
    if rest != "" {
      assert e[0] == Entity(rest[0])[0];
    }
  }

  /** An escaped value is read as the value with its white space blanked. */
  lemma ValueIsRead(s: string)
    ensures ValueOf(EscapeXmlAttribute(s)) == AsRead(s)
  {
    PassesAreOneMap(s);
    EscapedAsRead(s);
    UnescapeEscapeEach(AsRead(s));
  }

  /** Plain text, as digests and ids are, reads as it is. */
  lemma {:induction false} PlainIsRead(s: string)
    requires All(NameChar, s)
    ensures ValueOf(s) == s && EscapeEach(s) == s && All(UNBROKEN, s)
  {
    if s != "" {
      assert s[0] in s && s == [s[0]] + s[1..];
      PlainIsRead(s[1..]);
      assert !Reserved(s[0]);
    }
    UnbrokenAsRead(s);
    UnescapeEscapeEach(s);
  }

  lemma {:induction false} EscapedXml(s: string)
    ensures All(XML_CHAR, EscapeEach(s)) <==> All(XML_CHAR, s)
  {
    if s != "" {
      EscapedXml(s[1..]);
      EntityUnbroken(s[0]);
      AllOf(XML_CHAR, Entity(s[0]), EscapeEach(s[1..]));
      assert s == [s[0]] + s[1..];
      AllOf(XML_CHAR, [s[0]], s[1..]);
    }
  }
}
