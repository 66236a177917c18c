// Base64 as the site's bundled assets use it: the encoding of section 4 of RFC 4648
// and the forgiving decoder of the web platform's `atob`.
module Base64 {
  import opened Wrappers
  import Utf8

  type Byte = Utf8.Byte

  function Letter(v: nat): (c: char)
    requires v < 64
  {
    if v < 26 then ('A' as int + v) as char
    else if v < 52 then ('a' as int + v - 26) as char
    else if v < 62 then ('0' as int + v - 52) as char
    else if v == 62 then '+'
    else '/'
  }

  predicate IsLetter(c: char) { 'A' <= c <= 'Z' || 'a' <= c <= 'z' || '0' <= c <= '9' || c == '+' || c == '/' }

  function Value(c: char): (v: nat)
    requires IsLetter(c)
    ensures v < 64 && Letter(v) == c
  {
    if 'A' <= c <= 'Z' then c as int - 'A' as int
    else if 'a' <= c <= 'z' then c as int - 'a' as int + 26
    else if '0' <= c <= '9' then c as int - '0' as int + 52
    else if c == '+' then 62
    else 63
  }

  lemma ValueOfLetter(v: nat)
    requires v < 64
    ensures IsLetter(Letter(v)) && Value(Letter(v)) == v
  {
  }

  predicate AllLetters(s: string) { forall c <- s :: IsLetter(c) }

  // ----- encoding

  type Sextet = v: nat | v < 64

  /** The letters of the encoding, without padding. */
  function Letters(bytes: seq<Byte>): string {
    if bytes == [] then ""
    else if |bytes| == 1 then [Letter(Top(bytes[0])), Letter(Middle(bytes[0], 0))]
    else if |bytes| == 2 then
      [Letter(Top(bytes[0])), Letter(Middle(bytes[0], bytes[1])), Letter(Lower(bytes[1], 0))]
    else Quad(bytes[0], bytes[1], bytes[2]) + Letters(bytes[3..])
  }

  function Top(a: Byte): Sextet { a / 4 }
  function Middle(a: Byte, b: Byte): Sextet { a % 4 * 16 + b / 16 }
  function Lower(b: Byte, c: Byte): Sextet { b % 16 * 4 + c / 64 }
  function Bottom(c: Byte): Sextet { c % 64 }

  function Quad(a: Byte, b: Byte, c: Byte): string {
    [Letter(Top(a)), Letter(Middle(a, b)), Letter(Lower(b, c)), Letter(Bottom(c))]
  }

  /** The padding that fills the last quad. */
  function Padding(bytes: seq<Byte>): (p: string)
    ensures p in ["", "=", "=="]
  {
    if bytes == [] then "" else if |bytes| == 1 then "==" else if |bytes| == 2 then "=" else Padding(bytes[3..])
  }

  function Encode(bytes: seq<Byte>): string { Letters(bytes) + Padding(bytes) }

  // ----- decoding

  /** Whole bytes carried by the letters; leftover bits are dropped. */
  function Decode(letters: string): seq<Byte>
    requires AllLetters(letters)
  {
    if |letters| < 2 then []
    else if |letters| == 2 then [First(letters[0], letters[1])]
    else if |letters| == 3 then [First(letters[0], letters[1]), Second(letters[1], letters[2])]
    else Triple(letters[0], letters[1], letters[2], letters[3]) + Decode(letters[4..])
  }

  function First(a: char, b: char): Byte
    requires IsLetter(a) && IsLetter(b)
  {
    Value(a) * 4 + Value(b) / 16
  }

  function Second(b: char, c: char): Byte
    requires IsLetter(b) && IsLetter(c)
  {
    Value(b) % 16 * 16 + Value(c) / 4
  }

  function Third(c: char, d: char): Byte
    requires IsLetter(c) && IsLetter(d)
  {
    Value(c) % 4 * 64 + Value(d)
  }

  function Triple(a: char, b: char, c: char, d: char): seq<Byte>
    requires IsLetter(a) && IsLetter(b) && IsLetter(c) && IsLetter(d)
  {
    [First(a, b), Second(b, c), Third(c, d)]
  }

  predicate IsBlank(c: char) { c == '\t' || c == '\n' || c == '\U{0C}' || c == '\r' || c == ' ' }

  function WithoutBlanks(s: string): string {
    if s == "" then ""
    else if IsBlank(s[0]) then WithoutBlanks(s[1..])
    else [s[0]] + WithoutBlanks(s[1..])
  }

  predicate EndsWith(s: string, suffix: string) { |suffix| <= |s| && s[|s| - |suffix|..] == suffix }

  /** One or two padding characters come off a whole number of quads. */
  function WithoutPadding(s: string): string {
    if |s| % 4 != 0 then s
    else if EndsWith(s, "==") then s[..|s| - 2]
    else if EndsWith(s, "=") then s[..|s| - 1]
    else s
  }

  function Atob(text: string): Option<seq<Byte>> {
    var letters := WithoutPadding(WithoutBlanks(text));
    if |letters| % 4 == 1 || !AllLetters(letters) then None else Some(Decode(letters))
  }

  // ----- round trip

  /** The two letters that share a byte's bits give it back. */
  lemma FirstReadsBack(a: Byte, b: Byte, p: Sextet, q: Sextet)
    requires p == Top(a) && q == Middle(a, b)
    ensures IsLetter(Letter(p)) && IsLetter(Letter(q)) && First(Letter(p), Letter(q)) == a
  {
    ValueOfLetter(p);
    ValueOfLetter(q);
  }

  lemma SecondReadsBack(a: Byte, b: Byte, c: Byte, q: Sextet, r: Sextet)
    requires q == Middle(a, b) && r == Lower(b, c)
    ensures IsLetter(Letter(q)) && IsLetter(Letter(r)) && Second(Letter(q), Letter(r)) == b
  {
    ValueOfLetter(q);
    ValueOfLetter(r);
    HalvesJoin(a % 4, b / 16, b % 16, c / 64, q, r);
  }

  lemma HalvesJoin(above: nat, high: nat, low: nat, below: nat, q: nat, r: nat)
    requires above < 4 && high < 16 && low < 16 && below < 4
    requires q == above * 16 + high && r == low * 4 + below
    ensures q % 16 == high && r / 4 == low
  {
  }

  lemma ThirdReadsBack(b: Byte, c: Byte, r: Sextet, t: Sextet)
    requires r == Lower(b, c) && t == Bottom(c)
    ensures IsLetter(Letter(r)) && IsLetter(Letter(t)) && Third(Letter(r), Letter(t)) == c
  {
    ValueOfLetter(r);
    ValueOfLetter(t);
    LowBits(b % 16, c / 64);
  }

  lemma LowBits(high: nat, low: nat)
    requires low < 4
    ensures (high * 4 + low) % 4 == low
  {
  }

  lemma QuadReadsBack(a: Byte, b: Byte, c: Byte, p: Sextet, q: Sextet, r: Sextet, t: Sextet)
    requires p == Top(a) && q == Middle(a, b) && r == Lower(b, c) && t == Bottom(c)
    ensures IsLetter(Letter(p)) && IsLetter(Letter(q)) && IsLetter(Letter(r)) && IsLetter(Letter(t))
    ensures Triple(Letter(p), Letter(q), Letter(r), Letter(t)) == [a, b, c]
  {
    FirstReadsBack(a, b, p, q);
    SecondReadsBack(a, b, c, q, r);
    ThirdReadsBack(b, c, r, t);
  }

  /** Four letters write in base 64 the number that their three bytes write in base 256. */
  lemma QuadIsOneNumber(a: Byte, b: Byte, c: Byte)
    ensures AllLetters(Quad(a, b, c))
    ensures var q := Quad(a, b, c);
            ((Value(q[0]) * 64 + Value(q[1])) * 64 + Value(q[2])) * 64 + Value(q[3]) == (a * 256 + b) * 256 + c
  {
    ValueOfLetter(Top(a));
    ValueOfLetter(Middle(a, b));
    ValueOfLetter(Lower(b, c));
    ValueOfLetter(Bottom(c));
    SextetsAre(a, b, c, Top(a), Middle(a, b), Lower(b, c), Bottom(c));
  }

  lemma SextetsAre(a: Byte, b: Byte, c: Byte, p: Sextet, q: Sextet, r: Sextet, t: Sextet)
    requires p == Top(a) && q == Middle(a, b) && r == Lower(b, c) && t == Bottom(c)
    ensures ((p * 64 + q) * 64 + r) * 64 + t == (a * 256 + b) * 256 + c
  {
    SameNumber(a / 4, a % 4, b / 16, b % 16, c / 64, c % 64);
  }

  lemma SameNumber(a: nat, a': nat, b: nat, b': nat, c: nat, c': nat)
    ensures ((a * 64 + (a' * 16 + b)) * 64 + (b' * 4 + c)) * 64 + c'
            == ((a * 4 + a') * 256 + (b * 16 + b')) * 256 + (c * 64 + c')
  {
  }

  lemma OneReadsBack(a: Byte, letters: string)
    requires letters == [Letter(Top(a)), Letter(Middle(a, 0))]
    ensures AllLetters(letters) && Decode(letters) == [a]
  {
    FirstReadsBack(a, 0, Top(a), Middle(a, 0));
  }

  lemma TwoReadBack(a: Byte, b: Byte, letters: string)
    requires letters == [Letter(Top(a)), Letter(Middle(a, b)), Letter(Lower(b, 0))]
    ensures AllLetters(letters) && Decode(letters) == [a, b]
  {
    FirstReadsBack(a, b, Top(a), Middle(a, b));
    SecondReadsBack(a, b, 0, Middle(a, b), Lower(b, 0));
    DecodeThree(Letter(Top(a)), Letter(Middle(a, b)), Letter(Lower(b, 0)), letters);
  }

  lemma DecodeThree(p: char, q: char, r: char, letters: string)
    requires IsLetter(p) && IsLetter(q) && IsLetter(r) && letters == [p, q, r]
    ensures AllLetters(letters) && Decode(letters) == [First(p, q), Second(q, r)]
  {
  }

  lemma ThreeReadBack(a: Byte, b: Byte, c: Byte, quad: string, rest: string)
    requires quad == Quad(a, b, c) && AllLetters(rest)
    ensures AllLetters(quad + rest) && Decode(quad + rest) == [a, b, c] + Decode(rest)
  {
    QuadReadsBack(a, b, c, Top(a), Middle(a, b), Lower(b, c), Bottom(c));
    DecodeQuad(Letter(Top(a)), Letter(Middle(a, b)), Letter(Lower(b, c)), Letter(Bottom(c)), quad, rest, [a, b, c]);
  }

  lemma {:induction false} DecodeLetters(bytes: seq<Byte>, letters: string)
    requires letters == Letters(bytes)
    ensures AllLetters(letters) && Decode(letters) == bytes
  {
    if |bytes| == 1 {
      OneReadsBack(bytes[0], letters);
    } else if |bytes| == 2 {
      TwoReadBack(bytes[0], bytes[1], letters);
    } else if |bytes| >= 3 {
      var quad, rest := Quad(bytes[0], bytes[1], bytes[2]), Letters(bytes[3..]);
      DecodeLetters(bytes[3..], rest);
      ThreeReadBack(bytes[0], bytes[1], bytes[2], quad, rest);
    }
  }

  lemma DecodeQuad(p: char, q: char, r: char, t: char, quad: string, rest: string, triple: seq<Byte>)
    requires IsLetter(p) && IsLetter(q) && IsLetter(r) && IsLetter(t) && quad == [p, q, r, t] && AllLetters(rest)
    requires Triple(p, q, r, t) == triple
    ensures AllLetters(quad + rest) && Decode(quad + rest) == triple + Decode(rest)
  {
    var s := quad + rest;
    assert s[4..] == rest;
    assert s[0] == quad[0] && s[1] == quad[1] && s[2] == quad[2] && s[3] == quad[3];
  }

  lemma {:induction false} NoBlanksToStrip(s: string)
    requires IsBlankFree(s)
    ensures WithoutBlanks(s) == s
  {
    if s != "" {
      NoBlanksToStrip(s[1..]);
      assert [s[0]] + s[1..] == s;
    }
  }

  /** A letter run followed by the padding its length asks for loses exactly that padding. */
  lemma PaddingComesOff(letters: string, padding: string)
    requires AllLetters(letters) && padding in ["", "=", "=="] && (|letters| + |padding|) % 4 == 0
    ensures WithoutPadding(letters + padding) == letters
  {
    var s := letters + padding;
    assert s[..|letters|] == letters;
    assert s[|letters|..] == padding;
    forall i | 0 <= i < |letters| ensures s[i] == letters[i] && s[i] != '=' { assert letters[i] in letters; }
    if padding == "" && s != "" {
      assert s[|s| - 1] != '=';
    } else if padding == "=" {
      assert s[|s| - 1..] == "=";
      assert |letters| > 0 && s[|s| - 2] != '=';
    }
  }

  function Quads(bytes: seq<Byte>): nat { if bytes == [] then 0 else if |bytes| <= 3 then 1 else 1 + Quads(bytes[3..]) }

  lemma {:induction false} WholeQuads(bytes: seq<Byte>)
    ensures |Letters(bytes)| + |Padding(bytes)| == 4 * Quads(bytes)
    ensures |Padding(bytes)| < 3
  {
    if |bytes| >= 3 {
      WholeQuads(bytes[3..]);
    }
  }

  lemma MultipleOfFour(n: nat, k: nat)
    requires n == 4 * k
    ensures n % 4 == 0
  {
  }

  /** Letters with their padding are a whole number of quads that `atob` reads. */
  lemma AtobReads(letters: string, padding: string, text: string, quads: nat)
    requires AllLetters(letters) && padding in ["", "=", "=="] && text == letters + padding && |text| == 4 * quads
    ensures |text| % 4 == 0 && IsBlankFree(text)
    ensures Atob(text) == Some(Decode(letters))
  {
    MultipleOfFour(|text|, quads);
    NoBlanksToStrip(text);
    PaddingComesOff(letters, padding);
    NotOneOver(|letters|, |padding|, quads);
  }

  lemma NotOneOver(letters: nat, padding: nat, quads: nat)
    requires letters + padding == 4 * quads && padding < 3
    ensures letters % 4 != 1
  {
  }

  /** `atob` reads every encoded byte string back. */
  lemma AtobInvertsEncode(bytes: seq<Byte>)
    ensures Atob(Encode(bytes)) == Some(bytes)
    ensures |Encode(bytes)| % 4 == 0 && IsBlankFree(Encode(bytes))
  {
    DecodeLetters(bytes, Letters(bytes));
    WholeQuads(bytes);
    AtobReads(Letters(bytes), Padding(bytes), Encode(bytes), Quads(bytes));
  }

  // ----- the size without decoding

  lemma {:induction false} DecodedLength(letters: string)
    requires AllLetters(letters) && |letters| % 4 != 1
    ensures |Decode(letters)| == |letters| * 3 / 4
  {
    if |letters| >= 4 {
      DecodedLength(letters[4..]);
    }
  }

  /** Padding characters at the end, at most two. */
  function PaddingCount(s: string): nat { if EndsWith(s, "==") then 2 else if EndsWith(s, "=") then 1 else 0 }

  /** What is left after the padding tells how much there was. */
  lemma PaddingCounted(text: string)
    requires AllLetters(WithoutPadding(text))
    ensures |WithoutPadding(text)| == |text| - if |text| % 4 == 0 then PaddingCount(text) else 0
    ensures |text| % 4 != 0 ==> PaddingCount(text) == 0
  {
    if |text| % 4 != 0 {
      assert text[|text| - 1] in text;
    }
  }

  function Size(length: nat, padding: nat): real { (length * 3) as real / 4.0 - padding as real }

  predicate IsBlankFree(s: string) { forall c <- s :: !IsBlank(c) }

  lemma {:induction false} StrippedLength(s: string)
    ensures |WithoutBlanks(s)| <= |s|
    ensures |WithoutBlanks(s)| == |s| <==> IsBlankFree(s)
  {
    if s != "" {
      StrippedLength(s[1..]);
      assert s == [s[0]] + s[1..];
    }
  }

  lemma {:induction false} StripConcat(a: string, b: string)
    ensures WithoutBlanks(a + b) == WithoutBlanks(a) + WithoutBlanks(b)
  {
    if a == "" {
      assert a + b == b;
    } else {
      StripConcat(a[1..], b);
      assert (a + b)[1..] == a[1..] + b;
      if !IsBlank(a[0]) {
        assert [a[0]] + (WithoutBlanks(a[1..]) + WithoutBlanks(b)) == [a[0]] + WithoutBlanks(a[1..]) + WithoutBlanks(b);
      }
    }
  }

  /** An end without blanks is still the end once the blanks are gone. */
  lemma EndStays(s: string, suffix: string)
    requires EndsWith(s, suffix) && IsBlankFree(suffix)
    ensures EndsWith(WithoutBlanks(s), suffix)
  {
    var front := s[..|s| - |suffix|];
    assert s == front + suffix;
    StripConcat(front, suffix);
    NoBlanksToStrip(suffix);
  }

  /** Taking out blanks can only bring padding to the end. */
  lemma PaddingStays(s: string)
    ensures PaddingCount(s) <= PaddingCount(WithoutBlanks(s))
  {
    if EndsWith(s, "==") {
      EndStays(s, "==");
    } else if EndsWith(s, "=") {
      EndStays(s, "=");
    }
  }

  /**
   * For every text that `atob` accepts, the computed size is the decoded length
   * exactly when the text is a whole number of quads without blanks.
   */
  lemma SizeIsRightExactly(text: string)
    requires Atob(text).Some?
    ensures Size(|text|, PaddingCount(text)) == |Atob(text).value| as real <==> IsBlankFree(text) && |text| % 4 == 0
  {
    var stripped := WithoutBlanks(text);
    var letters := WithoutPadding(stripped);
    StrippedLength(text);
    PaddingStays(text);
    PaddingCounted(stripped);
    DecodedLength(letters);
    if IsBlankFree(text) {
      NoBlanksToStrip(text);
    }
    QuartersAreWhole(|text|, PaddingCount(text), |stripped|, PaddingCount(stripped), |letters|);
  }

  lemma QuartersAreWhole(length: nat, padding: nat, stripped: nat, all: nat, letters: nat)
    requires padding <= all <= 2 && stripped <= length && letters % 4 != 1 && (stripped == length ==> padding == all)
    requires letters == stripped - if stripped % 4 == 0 then all else 0
    requires stripped % 4 != 0 ==> all == 0
    ensures Size(length, padding) == (letters * 3 / 4) as real <==> stripped == length && length % 4 == 0
  {
    SizeIs(length, padding, letters * 3 / 4);
    WholeExactly(length, padding, stripped, all, letters, letters * 3 / 4, letters * 3 % 4, stripped / 4, stripped % 4);
  }

  lemma SizeIs(length: nat, padding: nat, k: nat)
    ensures Size(length, padding) == k as real <==> length * 3 == 4 * k + 4 * padding
  {
  }

  /** The same with the quotients and remainders named. */
  lemma WholeExactly(length: nat, padding: nat, stripped: nat, all: nat, letters: nat, k: nat, left: nat, quads: nat,
          over: nat)
    requires padding <= all <= 2 && stripped <= length && (stripped == length ==> padding == all)
    requires letters * 3 == 4 * k + left && left < 4 && stripped == 4 * quads + over && over < 4
    requires letters == stripped - if over == 0 then all else 0
    requires over != 0 ==> all == 0 && over != 1
    ensures length * 3 == 4 * k + 4 * padding <==> stripped == length && over == 0
  {
    if over == 0 {
      assert length * 3 == 4 * k + 4 * padding <==> (length - stripped) * 3 + 3 * all + left == 4 * padding;
    } else {
      assert length * 3 == 4 * k + 4 * padding <==> (length - stripped) * 3 + left == 0;
    }
  }

  lemma TwoLetters(stripped: string)
    requires WithoutPadding(stripped) == "QQ"
    ensures |WithoutPadding(stripped)| % 4 != 1 && AllLetters(WithoutPadding(stripped))
    ensures Decode(WithoutPadding(stripped)) == [65]
  {
  }

  lemma NoPadding(s: string)
    requires s != "" && s[|s| - 1] != '='
    ensures PaddingCount(s) == 0
  {
    if EndsWith(s, "==") {
      LastOfEnd(s, "==");
    } else if EndsWith(s, "=") {
      LastOfEnd(s, "=");
    }
  }

  lemma LastOfEnd(s: string, suffix: string)
    requires EndsWith(s, suffix) && suffix != ""
    ensures s[|s| - 1] == suffix[|suffix| - 1]
  {
    assert s[|s| - |suffix|..][|suffix| - 1] == s[|s| - 1];
  }

  /** Unpadded text is accepted by `atob`, but the computed size is half a byte too large. */
  lemma UnpaddedSizeIsWrong()
    ensures Atob("QQ") == Some([65]) && Size(2, PaddingCount("QQ")) == 1.5
  {
    NoBlanksToStrip("QQ");
    TwoLetters("QQ");
    NoPadding("QQ");
  }

  /** So is padded text with blanks behind it: one byte, where the computed size is six. */
  lemma BlanksMakeTheSizeWrong()
    ensures Atob("QQ==" + "    ") == Some([65])
    ensures |"QQ==" + "    "| % 4 == 0 && Size(8, PaddingCount("QQ==" + "    ")) == 6.0
  {
    BlanksBehindQuad();
    assert WithoutPadding("QQ==") == "QQ" by { assert "QQ=="[2..] == "=="; }
    TwoLetters("QQ==");
    NoPadding("QQ==" + "    ");
  }

  lemma BlanksBehindQuad()
    ensures WithoutBlanks("QQ==" + "    ") == "QQ=="
  {
    StripConcat("QQ==", "    ");
    NoBlanksToStrip("QQ==");
    OnlyBlanks("    ");
    assert "QQ==" + "" == "QQ==";
  }

  lemma {:induction false} OnlyBlanks(s: string)
    requires forall i :: 0 <= i < |s| ==> IsBlank(s[i])
    ensures WithoutBlanks(s) == ""
  {
    if s != "" {
      OnlyBlanks(s[1..]);
    }
  }
}
