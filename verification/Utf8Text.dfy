// The UTF-8 encoding of text, and the slices of it that byte positions select.
module Utf8Text {
  import opened Wrappers
  import opened Utf8

  /** The six lowest bits, as a continuation byte. */
  function Low(n: nat): (b: Byte)
    ensures Continuation(b)
  {
    0x80 + n % 0x40
  }

  function EncodeChar(c: char): (b: seq<Byte>)
    ensures Char(b) && !Continuation(b[0]) && forall k :: 0 < k < |b| ==> Continuation(b[k])
  {
    var n := c as int;
    if n < 0x80 then [n]
    else if n < 0x800 then [0xC0 + n / 0x40, Low(n)]
    else if n < 0x1_0000 then
      ThreeBytes(n);
      [0xE0 + n / 0x1000, Low(n / 0x40), Low(n)]
    else
      FourBytes(n);
      [0xF0 + n / 0x4_0000, Low(n / 0x1000), Low(n / 0x40), Low(n)]
  }

  /** No shorter form, and no surrogate. */
  lemma ThreeBytes(n: nat)
    requires 0x800 <= n < 0xD800 || 0xE000 <= n < 0x1_0000
    ensures 0xE0 <= 0xE0 + n / 0x1000 < 0xF0
    ensures n / 0x1000 == 0 ==> Low(n / 0x40) >= 0xA0
    ensures n / 0x1000 == 0xD ==> Low(n / 0x40) < 0xA0
  {
  }

  /** No shorter form, and nothing above the last character. */
  lemma FourBytes(n: nat)
    requires 0x1_0000 <= n < 0x11_0000
    ensures 0xF0 <= 0xF0 + n / 0x4_0000 < 0xF5
    ensures n / 0x4_0000 == 0 ==> Low(n / 0x1000) >= 0x90
    ensures n / 0x4_0000 == 4 ==> Low(n / 0x1000) < 0x90
  {
  }

  function Encode(s: string): seq<Byte> {
    if s == "" then [] else EncodeChar(s[0]) + Encode(s[1..])
  }

  lemma {:induction false} EncodeConcat(a: string, b: string)
    ensures Encode(a + b) == Encode(a) + Encode(b)
  {
    if a == "" {
      assert a + b == b;
    } else {
      EncodeConcat(a[1..], b);
      assert (a + b)[1..] == a[1..] + b;
      assert EncodeChar(a[0]) + (Encode(a[1..]) + Encode(b)) == EncodeChar(a[0]) + Encode(a[1..]) + Encode(b);
    }
  }

  // ----- positions in bytes and in characters

  /** How many characters the first `k` bytes hold, if they hold whole ones. */
  function CharsIn(s: string, k: nat): (n: Option<nat>)
    ensures n.Some? ==> n.value <= |s|
  {
    if k == 0 then Some(0)
    else if s == "" || k < |EncodeChar(s[0])| then None
    else
      match CharsIn(s[1..], k - |EncodeChar(s[0])|)
      case None => None
      case Some(n) => Some(n + 1)
  }

  lemma BoundaryAfter(c: seq<Byte>, rest: seq<Byte>, k: nat)
    requires Char(c) && |c| <= k <= |c + rest| && (rest == [] || !Continuation(rest[0]))
    ensures Boundary(c + rest, k) <==> Boundary(rest, k - |c|)
  {
  }

  lemma NotInside(c: seq<Byte>, rest: seq<Byte>, k: nat)
    requires Char(c) && 0 < k < |c|
    ensures !Boundary(c + rest, k)
  {
    InsideChar(c, k);
  }

  lemma StartsNew(s: string)
    ensures Encode(s) == [] || !Continuation(Encode(s)[0])
  {
    if s != "" {
      assert Encode(s)[0] == EncodeChar(s[0])[0];
    }
  }

  /** The byte-level test finds exactly the positions between characters. */
  lemma {:induction false} BoundaryExactly(s: string, k: nat)
    requires k <= |Encode(s)|
    ensures Boundary(Encode(s), k) <==> CharsIn(s, k).Some?
  {
    if s != "" && k > 0 {
      var c, rest := EncodeChar(s[0]), Encode(s[1..]);
      if k < |c| {
        NotInside(c, rest, k);
      } else {
        StartsNew(s[1..]);
        BoundaryAfter(c, rest, k);
        BoundaryExactly(s[1..], k - |c|);
      }
    }
  }

  lemma {:induction false} CharsAre(s: string, k: nat)
    requires CharsIn(s, k).Some?
    ensures k <= |Encode(s)| && Encode(s[..CharsIn(s, k).value]) == Encode(s)[..k]
  {
    if k == 0 {
      assert s[..0] == "";
    } else {
      var c, n := EncodeChar(s[0]), CharsIn(s, k).value;
      CharsAre(s[1..], k - |c|);
      assert s[..n][1..] == s[1..][..n - 1];
      assert (c + Encode(s[1..]))[..k] == c + Encode(s[1..])[..k - |c|];
    }
  }

  lemma {:induction false} MoreBytesMoreChars(s: string, j: nat, k: nat)
    requires j < k && CharsIn(s, j).Some? && CharsIn(s, k).Some?
    ensures CharsIn(s, j).value < CharsIn(s, k).value
  {
    if j > 0 {
      var n := |EncodeChar(s[0])|;
      MoreBytesMoreChars(s[1..], j - n, k - n);
    }
  }

  /** The characters between two byte positions. */
  function Slice(s: string, start: nat, end: nat): string
    requires CharsIn(s, start).Some? && CharsIn(s, end).Some? && start < end
  {
    MoreBytesMoreChars(s, start, end);
    s[CharsIn(s, start).value..CharsIn(s, end).value]
  }

  /** A slice encodes the bytes between its positions. */
  lemma SliceEncodes(s: string, start: nat, end: nat)
    requires CharsIn(s, start).Some? && CharsIn(s, end).Some? && start < end
    ensures end <= |Encode(s)| && Encode(Slice(s, start, end)) == Encode(s)[start..end]
  {
    MoreBytesMoreChars(s, start, end);
    CharsAre(s, start);
    CharsAre(s, end);
    var i, j := CharsIn(s, start).value, CharsIn(s, end).value;
    assert s[..j] == s[..i] + s[i..j];
    EncodeConcat(s[..i], s[i..j]);
    assert Encode(s)[..end][start..] == Encode(s)[start..end];
  }

  lemma {:induction false} AsciiIsItself(s: string)
    requires forall b <- Encode(s) :: b < 0x80
    ensures |Encode(s)| == |s| && forall i :: 0 <= i < |s| ==> Encode(s)[i] == s[i] as int
  {
    if s != "" {
      var c, rest := EncodeChar(s[0]), Encode(s[1..]);
      assert (c + rest)[0] == c[0] && c[0] in Encode(s);
      assert forall b <- rest :: b in c + rest;
      AsciiIsItself(s[1..]);
    }
  }

  lemma {:induction false} AsciiStaysAscii(s: string)
    requires forall c <- s :: c < 128 as char
    ensures forall b <- Encode(s) :: b < 0x80
  {
    if s != "" {
      assert s[0] in s && EncodeChar(s[0]) == [s[0] as int];
      assert forall c <- s[1..] :: c in s;
      AsciiStaysAscii(s[1..]);
    }
  }
}
