// `isSingleByteRange` and `parseByteRange`: one byte range of a `Range` header,
// against sections 14.1.1 and 14.1.2 of RFC 9110. Numbers are JavaScript numbers:
// the size of an asset need not be whole.
module ByteRanges {
  import opened Wrappers

  /** `Number.MAX_SAFE_INTEGER`. */
  const MAX_SAFE_INTEGER: int := 9007199254740991

  datatype ByteRange = Ignore | Unsatisfiable | Range(start: real, end: real)

  // ----- decimal numbers

  predicate IsDigit(c: char) { '0' <= c <= '9' }

  predicate AllDigits(s: string) { forall c <- s :: IsDigit(c) }

  function Number(digits: string): nat
    requires AllDigits(digits)
  {
    if digits == "" then 0
    else
      assert digits[|digits| - 1] in digits;
      Number(digits[..|digits| - 1]) * 10 + (digits[|digits| - 1] as int - '0' as int)
  }

  function Decimal(n: nat): (s: string)
    ensures s != "" && AllDigits(s)
  {
    if n < 10 then [('0' as int + n) as char] else Decimal(n / 10) + [('0' as int + n % 10) as char]
  }

  lemma {:induction false} NumberOfDecimal(n: nat)
    ensures Number(Decimal(n)) == n
  {
    if n < 10 {
      assert Decimal(n)[..0] == "";
    } else {
      NumberOfDecimal(n / 10);
      var s := Decimal(n);
      assert s[..|s| - 1] == Decimal(n / 10);
    }
  }

  // ----- the pattern

  const PREFIX := "bytes="

  function DigitsBefore(s: string): (n: nat)
    ensures n <= |s| && AllDigits(s[..n])
    ensures n < |s| ==> !IsDigit(s[n])
  {
    if s != "" && IsDigit(s[0]) then
      var n := DigitsBefore(s[1..]);
      assert s[..n + 1] == [s[0]] + s[1..][..n];
      n + 1
    else 0
  }

  /** The two groups of `^bytes=(\d*)-(\d*)$`. */
  function Match(value: string): Option<(string, string)> {
    if !(PREFIX <= value) then None
    else
      var rest := value[|PREFIX|..];
      var n := DigitsBefore(rest);
      if n < |rest| && rest[n] == '-' && AllDigits(rest[n + 1..]) then Some((rest[..n], rest[n + 1..])) else None
  }

  predicate Matches(value: string, first: string, last: string) {
    AllDigits(first) && AllDigits(last) && value == PREFIX + (first + "-" + last)
  }

  lemma {:induction false} DigitsBeforeDash(first: string, last: string)
    requires AllDigits(first)
    ensures DigitsBefore(first + "-" + last) == |first|
  {
    var s := first + "-" + last;
    if first != "" {
      DigitsBeforeDash(first[1..], last);
      assert s[1..] == first[1..] + "-" + last;
      assert s[0] == first[0] && first[0] in first;
    }
  }

  /** The pattern has exactly one way to match. */
  lemma MatchExactly(value: string, first: string, last: string)
    ensures Match(value) == Some((first, last)) <==> Matches(value, first, last)
  {
    if Matches(value, first, last) {
      var rest := first + "-" + last;
      assert value[|PREFIX|..] == rest;
      DigitsBeforeDash(first, last);
      assert rest[..|first|] == first;
      assert rest[|first| + 1..] == last;
    }
    if Match(value) == Some((first, last)) {
      var rest := value[|PREFIX|..];
      var n := DigitsBefore(rest);
      assert rest == rest[..n] + "-" + rest[n + 1..];
      assert value == PREFIX + rest;
    }
  }

  // ----- the parser

  predicate IsSingleByteRange(value: string) {
    Match(value).Some? && (Match(value).value.0 != "" || Match(value).value.1 != "")
  }

  predicate IsSafeInteger(x: real) { x == x.Floor as real && -MAX_SAFE_INTEGER <= x.Floor <= MAX_SAFE_INTEGER }

  function Max(a: real, b: real): real { if a < b then b else a }
  function Min(a: real, b: real): real { if a < b then a else b }

  lemma MatchedDigits(value: string)
    requires Match(value).Some?
    ensures AllDigits(Match(value).value.0) && AllDigits(Match(value).value.1)
  {
    MatchExactly(value, Match(value).value.0, Match(value).value.1);
  }

  function ParseByteRange(value: string, size: real): ByteRange {
    match Match(value)
    case None => Ignore
    case Some((first, last)) =>
      MatchedDigits(value);
      if first == "" && last == "" then Ignore
      else if size == 0.0 then Unsatisfiable
      else if first == "" then
        var suffix := Number(last) as real;
        if !IsSafeInteger(suffix) || suffix <= 0.0 then Unsatisfiable
        else Range(Max(size - suffix, 0.0), size - 1.0)
      else
        var start := Number(first) as real;
        var end := if last == "" then size - 1.0 else Number(last) as real;
        if !IsSafeInteger(start) || !IsSafeInteger(end) || start < 0.0 || end < start || start >= size
        then Unsatisfiable
        else Range(start, Min(end, size - 1.0))
  }

  // ----- what the header asks for

  /** The positions of a `size`-byte representation that `first-last` names. */
  predicate Names(first: string, last: string, size: nat, k: nat)
    requires AllDigits(first) && AllDigits(last)
  {
    if first == "" then k < size && k >= size - Number(last)
    else k < size && Number(first) <= k && (last == "" || k <= Number(last))
  }

  ghost predicate NamesAny(first: string, last: string, size: nat)
    requires AllDigits(first) && AllDigits(last)
  {
    exists k: nat :: Names(first, last, size, k)
  }

  /** A number beyond the safe integers is where the parser gives up. */
  predicate Unsafe(first: string, last: string, size: nat)
    requires AllDigits(first) && AllDigits(last)
  {
    MAX_SAFE_INTEGER < if last == "" then size - 1 else Number(last)
  }

  // ----- whole sizes

  /** The first and last position selected from a representation of a whole size, if any. */
  function Selected(first: string, last: string, size: nat): Option<(nat, nat)>
    requires AllDigits(first) && AllDigits(last) && (first != "" || last != "")
  {
    if first == "" then
      var suffix := Number(last);
      if size == 0 || suffix == 0 || suffix > MAX_SAFE_INTEGER then None
      else Some((if suffix < size then size - suffix else 0, size - 1))
    else
      var start, end := Number(first), if last == "" then size - 1 else Number(last);
      if start >= size || end < start || end > MAX_SAFE_INTEGER then None
      else Some((start, if end < size then end else size - 1))
  }

  lemma WholeIsSafe(n: int)
    ensures IsSafeInteger(n as real) <==> -MAX_SAFE_INTEGER <= n <= MAX_SAFE_INTEGER
  {
  }

  lemma WholeSuffix(size: nat, suffix: nat)
    ensures Max(size as real - suffix as real, 0.0) == (if suffix < size then size - suffix else 0) as real
  {
  }

  lemma WholeEnd(size: nat, end: int)
    ensures Min(end as real, size as real - 1.0) == (if end < size then end else size - 1) as real
  {
  }

  /** For a whole size the parser counts in whole numbers. */
  lemma ParsedWhole(value: string, first: string, last: string, size: nat)
    requires Matches(value, first, last) && (first != "" || last != "")
    ensures ParseByteRange(value, size as real) ==
            match Selected(first, last, size)
            case None => Unsatisfiable
            case Some((a, b)) => Range(a as real, b as real)
  {
    if first == "" {
      ParsedSuffix(value, last, size);
    } else {
      ParsedSpan(value, first, last, size);
    }
  }

  lemma ParsedSuffix(value: string, last: string, size: nat)
    requires Matches(value, "", last) && last != ""
    ensures ParseByteRange(value, size as real) ==
            match Selected("", last, size)
            case None => Unsatisfiable
            case Some((a, b)) => Range(a as real, b as real)
  {
    MatchExactly(value, "", last);
    WholeIsSafe(Number(last));
    WholeSuffix(size, Number(last));
  }

  lemma ParsedSpan(value: string, first: string, last: string, size: nat)
    requires Matches(value, first, last) && first != ""
    ensures ParseByteRange(value, size as real) ==
            match Selected(first, last, size)
            case None => Unsatisfiable
            case Some((a, b)) => Range(a as real, b as real)
  {
    MatchExactly(value, first, last);
    var start, end := Number(first), if last == "" then size - 1 else Number(last);
    WholeIsSafe(start);
    WholeIsSafe(end);
    WholeEnd(size, end);
  }

  /** Ignored is exactly what `isSingleByteRange` turns away. */
  lemma IgnoredExactly(value: string, size: real)
    ensures ParseByteRange(value, size).Ignore? <==> !IsSingleByteRange(value)
  {
  }

  lemma SelectedAreNamed(first: string, last: string, size: nat, k: nat)
    requires AllDigits(first) && AllDigits(last) && (first != "" || last != "") && Selected(first, last, size).Some?
    ensures var (a, b) := Selected(first, last, size).value;
            a <= b < size && (a <= k <= b <==> Names(first, last, size, k))
  {
  }

  /** A range is whole and inside the representation, and selects exactly the positions named. */
  lemma RangeSelects(value: string, first: string, last: string, size: nat, k: nat) returns (a: nat, b: nat)
    requires Matches(value, first, last) && ParseByteRange(value, size as real).Range?
    ensures ParseByteRange(value, size as real) == Range(a as real, b as real)
    ensures a <= b < size && (a <= k <= b <==> Names(first, last, size, k))
  {
    MatchExactly(value, first, last);
    ParsedWhole(value, first, last, size);
    SelectedAreNamed(first, last, size, k);
    a, b := Selected(first, last, size).value.0, Selected(first, last, size).value.1;
  }

  /** A suffix of `n` selects the last `n` bytes, or all there are. */
  lemma SuffixSelects(n: nat, size: nat)
    requires 0 < n <= MAX_SAFE_INTEGER && 0 < size
    ensures var r := ParseByteRange(PREFIX + ("" + "-" + Decimal(n)), size as real);
            r.Range? && r.end == (size - 1) as real && r.end - r.start + 1.0 == (if n < size then n else size) as real
  {
    ParsedWhole(PREFIX + ("" + "-" + Decimal(n)), "", Decimal(n), size);
    NumberOfDecimal(n);
  }

  /**
   * A single range is unsatisfiable exactly when it names no byte at all, or when
   * its last number is not a safe integer.
   */
  lemma UnsatisfiableExactly(value: string, first: string, last: string, size: nat)
    requires Matches(value, first, last) && (first != "" || last != "")
    ensures ParseByteRange(value, size as real).Unsatisfiable?
            <==> !NamesAny(first, last, size) || Unsafe(first, last, size)
  {
    ParsedWhole(value, first, last, size);
    if size > 0 {
      if first == "" {
        assert Number(last) > 0 ==> Names(first, last, size, size - 1);
      } else if Number(first) < size && (last == "" || Number(first) <= Number(last)) {
        assert Names(first, last, size, Number(first));
      }
    }
  }

  /** Asking for the positions of a returned range returns the same range. */
  lemma RangeReadsBack(start: nat, end: nat, size: nat)
    requires start <= end < size && end <= MAX_SAFE_INTEGER
    ensures ParseByteRange(PREFIX + (Decimal(start) + "-" + Decimal(end)), size as real)
            == Range(start as real, end as real)
  {
    ParsedWhole(PREFIX + (Decimal(start) + "-" + Decimal(end)), Decimal(start), Decimal(end), size);
    NumberOfDecimal(start);
    NumberOfDecimal(end);
  }

  // ----- against RFC 9110

  datatype Reading = Invalid | NotSatisfiable | Satisfiable

  /** A last position below the first makes a range invalid (section 14.1.1). */
  predicate Backwards(first: string, last: string)
    requires AllDigits(first) && AllDigits(last)
  {
    first != "" && last != "" && Number(last) < Number(first)
  }

  /**
   * Satisfiable are a first position inside the representation and any suffix that
   * is not of length zero (section 14.1.2).
   */
  function ReadingOf(first: string, last: string, size: nat): Reading
    requires AllDigits(first) && AllDigits(last)
  {
    if (first == "" && last == "") || Backwards(first, last) then Invalid
    else if (if first == "" then Number(last) > 0 else Number(first) < size) then Satisfiable
    else NotSatisfiable
  }

  /** A last position below the first is answered as unsatisfiable. */
  lemma BackwardsIsUnsatisfiable(first: nat, last: nat, size: nat)
    requires last < first
    ensures ParseByteRange(PREFIX + (Decimal(first) + "-" + Decimal(last)), size as real) == Unsatisfiable
  {
    ParsedWhole(PREFIX + (Decimal(first) + "-" + Decimal(last)), Decimal(first), Decimal(last), size);
    NumberOfDecimal(first);
    NumberOfDecimal(last);
  }

  /**
   * The parser ignores or refuses the invalid (section 14.2 leaves both open),
   * refuses the unsatisfiable and selects what the rest names.
   */
  ghost predicate Follows(result: ByteRange, first: string, last: string, size: nat)
    requires AllDigits(first) && AllDigits(last)
  {
    match ReadingOf(first, last, size)
    case Invalid => result.Ignore? || result.Unsatisfiable?
    case NotSatisfiable => result.Unsatisfiable?
    case Satisfiable =>
      result.Range? && forall k: nat :: result.start <= k as real <= result.end <==> Names(first, last, size, k)
  }

  /**
   * The parser follows the standard except in two cases: a suffix of an empty
   * representation, and a satisfiable range whose last number is not a safe
   * integer. Both it calls unsatisfiable.
   */
  lemma FollowsExactly(value: string, first: string, last: string, size: nat)
    requires Matches(value, first, last)
    ensures Follows(ParseByteRange(value, size as real), first, last, size) <==>
            && !(first == "" && size == 0 && Number(last) > 0)
            && !(ReadingOf(first, last, size).Satisfiable? && Unsafe(first, last, size))
    ensures !Follows(ParseByteRange(value, size as real), first, last, size)
            ==> ParseByteRange(value, size as real).Unsatisfiable?
  {
    MatchExactly(value, first, last);
    if first != "" || last != "" {
      ParsedWhole(value, first, last, size);
      if Selected(first, last, size).Some? {
        SelectedFollows(first, last, size);
      }
    }
  }

  lemma SelectedFollows(first: string, last: string, size: nat)
    requires AllDigits(first) && AllDigits(last) && (first != "" || last != "") && Selected(first, last, size).Some?
    ensures var (a, b) := Selected(first, last, size).value;
            Follows(Range(a as real, b as real), first, last, size)
  {
    var (a, b) := Selected(first, last, size).value;
    forall k: nat ensures a as real <= k as real <= b as real <==> Names(first, last, size, k) {
      SelectedAreNamed(first, last, size, k);
    }
  }
}
