// Well-formed UTF-8 (section 4 of RFC 3629), which `String::from_utf8` checks,
// and the byte-level boundary test behind `str::get`.
module Utf8 {
  type Byte = x: int | 0 <= x < 256

  predicate Continuation(b: Byte) { 0x80 <= b < 0xC0 }

  /** The bytes are those of an ASCII text. */
  ghost predicate Spells(bytes: seq<Byte>, text: string) {
    |bytes| == |text| && forall i :: 0 <= i < |text| ==> bytes[i] == text[i] as int
  }

  /** Length of the well-formed character that `s` starts with, or 0. */
  function CharLen(s: seq<Byte>): (n: nat)
    ensures n <= |s| && n <= 4
    ensures n == 1 <==> s != [] && s[0] < 0x80
    ensures n > 1 ==> forall i :: 0 <= i < n ==> s[i] >= 0x80
  {
    if s == [] then 0
    else if s[0] < 0x80 then 1
    else if 0xC2 <= s[0] < 0xE0 then
      if |s| >= 2 && Continuation(s[1]) then 2 else 0
    else if 0xE0 <= s[0] < 0xF0 then
      if |s| >= 3 && Continuation(s[1]) && Continuation(s[2])
         && (s[0] == 0xE0 ==> s[1] >= 0xA0) && (s[0] == 0xED ==> s[1] < 0xA0) then 3 else 0
    else if 0xF0 <= s[0] < 0xF5 then
      if |s| >= 4 && Continuation(s[1]) && Continuation(s[2]) && Continuation(s[3])
         && (s[0] == 0xF0 ==> s[1] >= 0x90) && (s[0] == 0xF4 ==> s[1] < 0x90) then 4 else 0
    else 0
  }

  /** The check made by `String::from_utf8`: one character after another. */
  predicate IsUtf8(s: seq<Byte>) {
    s == [] || (CharLen(s) > 0 && IsUtf8(s[CharLen(s)..]))
  }

  /** The encoding of one character. */
  predicate Char(c: seq<Byte>) { c != [] && CharLen(c) == |c| }

  ghost function Flatten(chars: seq<seq<Byte>>): seq<Byte> {
    if chars == [] then [] else chars[0] + Flatten(chars[1..])
  }

  /** Well-formed text: characters one after another. */
  ghost predicate Valid(s: seq<Byte>) {
    exists chars: seq<seq<Byte>> :: Flatten(chars) == s && forall c <- chars :: Char(c)
  }

  /** `str::is_char_boundary`. */
  predicate Boundary(s: seq<Byte>, i: int) {
    i == 0 || i == |s| || (0 < i < |s| && !Continuation(s[i]))
  }

  lemma EmptyValid()
    ensures Valid([])
  {
    assert Flatten([]) == [];
  }

  lemma CharThenValid(c: seq<Byte>, s: seq<Byte>)
    requires Char(c) && Valid(s)
    ensures Valid(c + s)
  {
    var chars: seq<seq<Byte>> :| Flatten(chars) == s && forall d <- chars :: Char(d);
    assert ([c] + chars)[1..] == chars;
    assert Flatten([c] + chars) == c + s;
  }

  /** A non-empty well-formed text starts with a character. */
  lemma FirstChar(s: seq<Byte>) returns (c: seq<Byte>, rest: seq<Byte>)
    requires Valid(s) && s != []
    ensures s == c + rest && c != [] && Char(c) && Valid(rest)
    ensures s[0] == c[0] && !Continuation(c[0])
    ensures if c[0] < 0x80 then |c| == 1 else forall i :: 0 <= i < |c| ==> c[i] >= 0x80
  {
    var chars: seq<seq<Byte>> :| Flatten(chars) == s && forall d <- chars :: Char(d);
    c, rest := chars[0], Flatten(chars[1..]);
    assert c in chars && forall d <- chars[1..] :: d in chars;
  }

  lemma AfterAscii(s: seq<Byte>)
    requires Valid(s) && s != [] && s[0] < 0x80
    ensures Valid(s[1..])
  {
    var c, rest := FirstChar(s);
    assert s[1..] == rest;
  }

  lemma {:induction false} AsciiThenValid(a: seq<Byte>, s: seq<Byte>)
    requires forall i :: 0 <= i < |a| ==> a[i] < 0x80
    requires Valid(s)
    ensures Valid(a + s)
  {
    if a == [] {
      assert a + s == s;
    } else {
      AsciiThenValid(a[1..], s);
      CharThenValid(a[..1], a[1..] + s);
      assert a + s == a[..1] + (a[1..] + s);
    }
  }

  lemma CharLenOfPrefix(c: seq<Byte>, s: seq<Byte>)
    requires Char(c)
    ensures CharLen(c + s) == |c|
  {
  }

  lemma CharOfPrefix(s: seq<Byte>)
    requires CharLen(s) > 0
    ensures Char(s[..CharLen(s)])
  {
  }

  /** The check accepts exactly the well-formed texts. */
  lemma {:induction false} IsUtf8Exactly(s: seq<Byte>)
    ensures IsUtf8(s) <==> Valid(s)
    decreases |s|
  {
    if s == [] {
      EmptyValid();
    } else {
      if IsUtf8(s) {
        IsUtf8Exactly(s[CharLen(s)..]);
        CharOfPrefix(s);
        CharThenValid(s[..CharLen(s)], s[CharLen(s)..]);
        assert s == s[..CharLen(s)] + s[CharLen(s)..];
      }
      if Valid(s) {
        var c, rest := FirstChar(s);
        CharLenOfPrefix(c, rest);
        assert s[|c|..] == rest;
        IsUtf8Exactly(rest);
      }
    }
  }

  lemma {:induction false} ValidConcat(a: seq<Byte>, b: seq<Byte>)
    requires Valid(a) && Valid(b)
    ensures Valid(a + b)
    decreases |a|
  {
    if a == [] {
      assert a + b == b;
    } else {
      var c, rest := FirstChar(a);
      ValidConcat(rest, b);
      CharThenValid(c, rest + b);
      assert a + b == c + (rest + b);
    }
  }

  lemma InsideChar(c: seq<Byte>, k: nat)
    requires Char(c) && 0 < k < |c|
    ensures Continuation(c[k])
  {
  }

  /** A well-formed text cut where a character starts is well formed in front of the cut. */
  lemma {:induction false} ValidPrefix(s: seq<Byte>, n: nat)
    requires Valid(s) && n < |s| && !Continuation(s[n])
    ensures Valid(s[..n])
    decreases n
  {
    if n == 0 {
      EmptyValid();
    } else {
      var c, rest := FirstChar(s);
      forall k | 0 < k < |c| ensures Continuation(s[k]) { InsideChar(c, k); }
      assert |c| <= n;
      assert rest[n - |c|] == s[n];
      ValidPrefix(rest, n - |c|);
      CharThenValid(c, rest[..n - |c|]);
      assert s[..n] == c + rest[..n - |c|];
    }
  }
}
