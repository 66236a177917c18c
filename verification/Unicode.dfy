// The character tables the source takes from the standard library, as
// parameters: the proofs hold for every table with the stated properties.
// `lower` lowers one character, as `char::to_lowercase` does; `lowerText` lowers
// a whole text, as `str::to_lowercase` does, which looks at the neighbours of a
// capital sigma.
module Unicode {
  datatype Tables = Tables(
    whitespace: char -> bool,
    alphanumeric: char -> bool,
    alphabetic: char -> bool,
    uppercase: char -> bool,
    lowercase: char -> bool,
    lower: char -> string,
    lowerText: string -> string)

  predicate AsciiDigit(c: char) { '0' <= c <= '9' }

  /**
   * Space and newline are white space. Lower-casing keeps white space, and turns
   * any other character into one or more non-blank ones that are lower case
   * already. The opening angle bracket is not alphanumeric, and a text without
   * one is lowered to a text without one.
   */
  ghost predicate Sound(t: Tables) {
    && t.whitespace(' ') && t.whitespace('\n')
    && (forall c :: t.whitespace(c) ==> t.lower(c) == [c])
    && (forall c :: !t.whitespace(c) ==> t.lower(c) != "" && forall d <- t.lower(c) :: !t.whitespace(d))
    && (forall c :: forall d <- t.lower(c) :: t.lower(d) == [d])
    && !t.alphanumeric('<')
    && (forall s :: '<' !in s ==> '<' !in t.lowerText(s))
  }

  function TrimStart(t: Tables, s: string): string {
    if s != "" && t.whitespace(s[0]) then TrimStart(t, s[1..]) else s
  }

  function TrimEnd(t: Tables, s: string): string {
    if s != "" && t.whitespace(s[|s| - 1]) then TrimEnd(t, s[..|s| - 1]) else s
  }

  function Trim(t: Tables, s: string): string { TrimEnd(t, TrimStart(t, s)) }

  lemma {:induction false} TrimEndBlank(t: Tables, s: string)
    ensures TrimEnd(t, s) == "" <==> forall c <- s :: t.whitespace(c)
  {
    if s != "" {
      var n := |s| - 1;
      assert s == s[..n] + [s[n]];
      if t.whitespace(s[n]) {
        TrimEndBlank(t, s[..n]);
      } else {
        assert s[n] in s;
      }
    }
  }

  /** Trimming leaves nothing of a text exactly when all of it is white space. */
  lemma {:induction false} TrimBlank(t: Tables, s: string)
    ensures Trim(t, s) != "" <==> exists c :: c in s && !t.whitespace(c)
  {
    if s != "" && t.whitespace(s[0]) {
      TrimBlank(t, s[1..]);
      assert s == [s[0]] + s[1..];
    } else {
      TrimEndBlank(t, s);
    }
  }
}
