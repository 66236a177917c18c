// `escape_xml_attribute`: five whole-string replacements, one after another.
module XmlEscape {
  import opened Sequences

  function EscapeXmlAttribute(value: string): string {
    var s1 := Replace(value, '&', "&amp;");
    var s2 := Replace(s1, '<', "&lt;");
    var s3 := Replace(s2, '>', "&gt;");
    var s4 := Replace(s3, '"', "&quot;");
    Replace(s4, '\'', "&apos;")
  }

  /** The predefined entity that stands for a character (section 4.6 of XML 1.0), or the character itself. */
  function Entity(c: char): string {
    match c
    case '&' => "&amp;"
    case '<' => "&lt;"
    case '>' => "&gt;"
    case '"' => "&quot;"
    case '\'' => "&apos;"
    case _ => [c]
  }

  function EscapeEach(value: string): string {
    if value == "" then "" else Entity(value[0]) + EscapeEach(value[1..])
  }

  predicate Reserved(c: char) {
    c == '&' || c == '<' || c == '>' || c == '"' || c == '\''
  }

  lemma {:induction false} ReplaceConcat(a: string, b: string, c: char, text: string)
    ensures Replace(a + b, c, text) == Replace(a, c, text) + Replace(b, c, text)
  {
    if a == "" {
      assert a + b == b;
    } else {
      ReplaceConcat(a[1..], b, c, text);
      assert (a + b)[1..] == a[1..] + b;
      Regroup(if a[0] == c then text else [a[0]], Replace(a[1..], c, text), Replace(b, c, text));
    }
  }

  lemma EscapeConcat(a: string, b: string)
    ensures EscapeXmlAttribute(a + b) == EscapeXmlAttribute(a) + EscapeXmlAttribute(b)
  {
    ReplaceConcat(a, b, '&', "&amp;");
    var a1, b1 := Replace(a, '&', "&amp;"), Replace(b, '&', "&amp;");
    ReplaceConcat(a1, b1, '<', "&lt;");
    var a2, b2 := Replace(a1, '<', "&lt;"), Replace(b1, '<', "&lt;");
    ReplaceConcat(a2, b2, '>', "&gt;");
    var a3, b3 := Replace(a2, '>', "&gt;"), Replace(b2, '>', "&gt;");
    ReplaceConcat(a3, b3, '"', "&quot;");
    ReplaceConcat(Replace(a3, '"', "&quot;"), Replace(b3, '"', "&quot;"), '\'', "&apos;");
  }

  /** One pass over what is left of one character: it is replaced, or left alone. */
  lemma Pass(s: string, c: char, text: string)
    requires s == [c] || c !in s
    ensures Replace(s, c, text) == if s == [c] then text else s
  {
    if s == [c] {
      assert Replace(s[1..], c, text) == "";
    } else {
      ReplaceNothing(s, c, text);
    }
  }

  lemma EscapeOther(c: char)
    requires !Reserved(c)
    ensures EscapeXmlAttribute([c]) == [c]
  {
    Pass([c], '&', "&amp;");
    Pass([c], '<', "&lt;");
    Pass([c], '>', "&gt;");
    Pass([c], '"', "&quot;");
    Pass([c], '\'', "&apos;");
  }

  /** What a pass inserts survives the later passes. */
  lemma EscapeReserved(c: char)
    requires Reserved(c)
    ensures EscapeXmlAttribute([c]) == Entity(c)
  {
    var s1 := if c == '&' then "&amp;" else [c];
    Pass([c], '&', "&amp;");
    var s2 := if c == '<' then "&lt;" else s1;
    Pass(s1, '<', "&lt;");
    EscapeLastThree(c, s2);
  }

  lemma EscapeLastThree(c: char, s2: string)
    requires Reserved(c) && s2 == if c == '&' then "&amp;" else if c == '<' then "&lt;" else [c]
    ensures LastThree(s2) == Entity(c)
  {
    if c == '&' || c == '<' {
      LastThreeLeave(s2);
    } else if c == '>' {
      Pass(s2, '>', "&gt;");
      Pass("&gt;", '"', "&quot;");
      Pass("&gt;", '\'', "&apos;");
    } else if c == '"' {
      Pass(s2, '>', "&gt;");
      Pass(s2, '"', "&quot;");
      Pass("&quot;", '\'', "&apos;");
    } else {
      Pass(s2, '>', "&gt;");
      Pass(s2, '"', "&quot;");
      Pass(s2, '\'', "&apos;");
    }
  }

  function LastThree(s: string): string { Replace(Replace(Replace(s, '>', "&gt;"), '"', "&quot;"), '\'', "&apos;") }

  lemma LastThreeLeave(s: string)
    requires '>' !in s && '"' !in s && '\'' !in s
    ensures LastThree(s) == s
  {
    ReplaceNothing(s, '>', "&gt;");
    ReplaceNothing(s, '"', "&quot;");
    ReplaceNothing(s, '\'', "&apos;");
  }

  lemma EscapeOne(c: char)
    ensures EscapeXmlAttribute([c]) == Entity(c)
  {
    if Reserved(c) { EscapeReserved(c); } else { EscapeOther(c); }
  }

  /** The five passes over the whole string are one map over its characters. */
  lemma {:induction false} PassesAreOneMap(value: string)
    ensures EscapeXmlAttribute(value) == EscapeEach(value)
  {
    if value != "" {
      PassesAreOneMap(value[1..]);
      EscapeConcat(value[..1], value[1..]);
      EscapeOne(value[0]);
      assert value[..1] + value[1..] == value && value[..1] == [value[0]];
    }
  }

  /** The five characters are written as section 4.6 of XML 1.0 names them, and any other as it is. */
  lemma EscapedByName(c: char)
    ensures EscapeXmlAttribute([c])
            == if c == '&' then "&amp;" else if c == '<' then "&lt;" else if c == '>' then "&gt;"
               else if c == '"' then "&quot;" else if c == '\'' then "&apos;" else [c]
  {
    PassesAreOneMap([c]);
    assert [c][1..] == "";
    assert Entity(c) + "" == Entity(c);
  }

  /** A reader that resolves the predefined entities from left to right. */
  function Unescape(s: string): string
    decreases |s|
  {
    if s == "" then ""
    else if "&amp;" <= s then "&" + Unescape(s[5..])
    else if "&lt;" <= s then "<" + Unescape(s[4..])
    else if "&gt;" <= s then ">" + Unescape(s[4..])
    else if "&quot;" <= s then "\"" + Unescape(s[6..])
    else if "&apos;" <= s then "'" + Unescape(s[6..])
    else [s[0]] + Unescape(s[1..])
  }

  lemma UnescapeEntity(c: char, rest: string)
    ensures Unescape(Entity(c) + rest) == [c] + Unescape(rest)
  {
    var s := Entity(c) + rest;
    assert s[|Entity(c)|..] == rest;
    if Reserved(c) {
      assert Entity(c) <= s && s[1] == Entity(c)[1] && s[2] == Entity(c)[2];
    } else {
      assert s[0] == c;
    }
  }

  lemma {:induction false} UnescapeEscapeEach(value: string)
    ensures Unescape(EscapeEach(value)) == value
  {
    if value != "" {
      UnescapeEscapeEach(value[1..]);
      UnescapeEntity(value[0], EscapeEach(value[1..]));
    }
  }

  /** Unescaping gives every string back. */
  lemma UnescapeInvertsEscape(value: string)
    ensures Unescape(EscapeXmlAttribute(value)) == value
  {
    PassesAreOneMap(value);
    UnescapeEscapeEach(value);
  }

  predicate StartsEntity(s: string) {
    "&amp;" <= s || "&lt;" <= s || "&gt;" <= s || "&quot;" <= s || "&apos;" <= s
  }

  predicate SafeAt(s: string, i: nat)
    requires i < |s|
  {
    s[i] != '<' && s[i] != '>' && s[i] != '"' && s[i] != '\'' && (s[i] == '&' ==> StartsEntity(s[i..]))
  }

  /** Safe inside a quoted attribute: no bracket or quote, and every ampersand starts a predefined entity. */
  ghost predicate AttributeSafe(s: string) {
    forall i :: 0 <= i < |s| ==> SafeAt(s, i)
  }

  lemma EntityChars(c: char, i: nat)
    requires i < |Entity(c)|
    ensures var d := Entity(c)[i];
            d != '<' && d != '>' && d != '"' && d != '\'' && (d == '&' ==> i == 0 && StartsEntity(Entity(c)))
  {
  }

  lemma StartsEntityThen(entity: string, rest: string)
    requires StartsEntity(entity)
    ensures StartsEntity(entity + rest)
  {
  }

  lemma EntityThenSafe(c: char, rest: string)
    requires AttributeSafe(rest)
    ensures AttributeSafe(Entity(c) + rest)
  {
    var entity := Entity(c);
    var s := entity + rest;
    forall i | 0 <= i < |s|
      ensures SafeAt(s, i)
    {
      if i >= |entity| {
        assert SafeAt(rest, i - |entity|);
        assert s[i..] == rest[i - |entity|..];
      } else {
        EntityChars(c, i);
        if entity[i] == '&' {
          StartsEntityThen(entity, rest);
          assert s[0..] == s;
        }
      }
    }
  }

  lemma {:induction false} EscapedIsSafe(value: string)
    ensures AttributeSafe(EscapeXmlAttribute(value))
  {
    PassesAreOneMap(value);
    if value != "" {
      EscapedIsSafe(value[1..]);
      PassesAreOneMap(value[1..]);
      EntityThenSafe(value[0], EscapeEach(value[1..]));
    }
  }
}
