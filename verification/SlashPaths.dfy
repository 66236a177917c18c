// Strings cut at forward slashes: `str::split('/')` and the inverse.
module SlashPaths {
  function AddChar(c: char, segments: seq<string>): (r: seq<string>)
    requires segments != []
    ensures r != []
  {
    if c == '/' then [""] + segments else [[c] + segments[0]] + segments[1..]
  }

  function Split(s: string): (r: seq<string>)
    ensures r != [] && forall segment <- r :: '/' !in segment
  {
    if s == "" then [""] else AddChar(s[0], Split(s[1..]))
  }

  lemma AddCharConcat(c: char, a: seq<string>, b: seq<string>)
    requires a != []
    ensures AddChar(c, a + b) == AddChar(c, a) + b
  {
    if c != '/' {
      assert (a + b)[1..] == a[1..] + b;
    }
  }

  function Join(segments: seq<string>): string
    requires segments != []
  {
    if |segments| == 1 then segments[0] else segments[0] + "/" + Join(segments[1..])
  }

  lemma {:induction false} JoinSplit(s: string)
    ensures Join(Split(s)) == s
  {
    if s != "" {
      JoinSplit(s[1..]);
      var rest := Split(s[1..]);
      if s[0] == '/' {
        assert ([""] + rest)[1..] == rest;
      } else {
        assert Split(s)[1..] == rest[1..];
      }
    }
  }

  lemma {:induction false} SplitPlain(s: string)
    requires '/' !in s
    ensures Split(s) == [s]
  {
    if s != "" {
      SplitPlain(s[1..]);
      assert [s[0]] + s[1..] == s;
    }
  }

  /** The first segment ends at the first slash. */
  lemma {:induction false} SplitAtSlash(first: string, rest: string)
    requires '/' !in first
    ensures Split(first + "/" + rest) == [first] + Split(rest)
  {
    var s := first + "/" + rest;
    if first == "" {
      assert s[1..] == rest;
    } else {
      SplitAtSlash(first[1..], rest);
      assert s[1..] == first[1..] + "/" + rest && [first[0]] + first[1..] == first;
    }
  }

  lemma {:induction false} SplitJoin(segments: seq<string>)
    requires segments != [] && forall segment <- segments :: '/' !in segment
    ensures Split(Join(segments)) == segments
  {
    assert segments[0] in segments;
    if |segments| == 1 {
      SplitPlain(segments[0]);
      assert segments == [segments[0]];
    } else {
      SplitJoin(segments[1..]);
      SplitAtSlash(segments[0], Join(segments[1..]));
      assert segments == [segments[0]] + segments[1..];
    }
  }

  /** Splitting `a/b` gives the segments of `a`, then those of `b`. */
  lemma {:induction false} SplitConcat(a: string, b: string)
    ensures Split(a + "/" + b) == Split(a) + Split(b)
  {
    var s := a + "/" + b;
    if a == "" {
      assert s[1..] == b;
    } else {
      SplitConcat(a[1..], b);
      AddCharConcat(a[0], Split(a[1..]), Split(b));
      assert s[0] == a[0];
      assert s[1..] == a[1..] + "/" + b;
    }
  }
}
