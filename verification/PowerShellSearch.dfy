// The "executable exact" search over the two views of a PowerShell script, and
// the extraction of one function from both of them.
module PowerShellSearch {
  import opened Wrappers
  import opened Utf8
  import opened Substrings
  import opened PowerShellLexer
  import opened PowerShellSegments
  import opened PowerShellViews

  /** Where `str::match_indices` may report a match: an empty pattern matches at character boundaries only. */
  predicate MatchAt(hay: Bytes, i: int, pat: Bytes) {
    OccursAt(hay, i, pat) && (pat == [] ==> Boundary(hay, i))
  }

  /** `code.get(at..).is_some_and(|candidate| candidate.starts_with(marker))`. */
  predicate Accepts(code: Bytes, at: nat, marker: Bytes) {
    Boundary(code, at) && OccursAt(code, at, marker)
  }

  /**
   * `normalized.match_indices(exact).find_map(..)` from offset `i` on. After a
   * match the scan resumes behind it, so overlapping occurrences are skipped.
   */
  function FindAccepted(normalized: Bytes, code: Bytes, exact: Bytes, marker: Bytes,
                        markerOffset: nat, i: nat): (r: Option<nat>)
    ensures r.Some? ==> OccursAt(normalized, r.value, exact) && Accepts(code, r.value + markerOffset, marker)
    decreases |normalized| + 1 - i
  {
    if i + |exact| > |normalized| then None
    else if !MatchAt(normalized, i, exact) then FindAccepted(normalized, code, exact, marker, markerOffset, i + 1)
    else if Accepts(code, i + markerOffset, marker) then Some(i)
    else FindAccepted(normalized, code, exact, marker, markerOffset, i + if exact == [] then 1 else |exact|)
  }

  function ExactOffset(normalized: Bytes, code: Bytes, exact: Bytes, marker: Bytes): Option<nat> {
    match Find(exact, marker)
    case None => None
    case Some(markerOffset) => FindAccepted(normalized, code, exact, marker, markerOffset, 0)
  }

  predicate Blanked(b: Byte) { b == SPACE || b == NEWLINE }

  predicate AllBlank(s: Bytes) { forall b <- s :: Blanked(b) }

  // ----- soundness

  /** The exact text stands at `offset`, and every non-blank byte of its marker was scanned as code. */
  ghost predicate ExecutableText(normalized: Bytes, flags: seq<bool>, exact: Bytes, marker: Bytes, offset: nat) {
    && OccursAt(normalized, offset, exact)
    && Find(exact, marker).Some?
    && offset + Find(exact, marker).value + |marker| <= |flags|
    && forall k :: 0 <= k < |marker| && !Blanked(marker[k]) ==> flags[offset + Find(exact, marker).value + k]
  }

  /**
   * An accepted offset is an occurrence of the exact text, and every non-blank
   * byte of the marker inside it was scanned as code.
   */
  lemma AcceptedIsExecutable(normalized: Bytes, code: Bytes, flags: seq<bool>, exact: Bytes, marker: Bytes)
    requires Aligned(normalized, code, flags)
    requires ExactOffset(normalized, code, exact, marker).Some?
    ensures ExecutableText(normalized, flags, exact, marker, ExactOffset(normalized, code, exact, marker).value)
  {
    var at, offset := Find(exact, marker).value, ExactOffset(normalized, code, exact, marker).value;
    AcceptedAt(normalized, code, exact, marker, at, offset);
    ShownIsExecutable(normalized, code, flags, exact, marker, at, offset);
  }

  lemma ShownIsExecutable(normalized: Bytes, code: Bytes, flags: seq<bool>, exact: Bytes, marker: Bytes, at: nat,
          offset: nat)
    requires Aligned(normalized, code, flags) && Find(exact, marker) == Some(at)
    requires OccursAt(normalized, offset, exact) && OccursAt(code, offset + at, marker)
    ensures ExecutableText(normalized, flags, exact, marker, offset)
  {
    MarkerScannedAsCode(normalized, code, flags, offset + at, marker);
  }

  lemma AcceptedAt(normalized: Bytes, code: Bytes, exact: Bytes, marker: Bytes, at: nat, offset: nat)
    requires Find(exact, marker) == Some(at) && ExactOffset(normalized, code, exact, marker) == Some(offset)
    ensures OccursAt(normalized, offset, exact) && Accepts(code, offset + at, marker)
  {
    var found := FindAccepted(normalized, code, exact, marker, at, 0);
    assert found == ExactOffset(normalized, code, exact, marker);
  }

  lemma MarkerScannedAsCode(normalized: Bytes, code: Bytes, flags: seq<bool>, at: nat, marker: Bytes)
    requires Aligned(normalized, code, flags) && OccursAt(code, at, marker)
    ensures forall k :: 0 <= k < |marker| && !Blanked(marker[k]) ==> flags[at + k]
  {
    forall k | 0 <= k < |marker| && !Blanked(marker[k])
      ensures flags[at + k]
    {
      OccursAtIndex(code, at, marker, k);
    }
  }

  /** On a scanned script: text that lies wholly in strings and comments is never what was found. */
  lemma NeverInsideStringsOrComments(segments: seq<Segment>, exact: Bytes, marker: Bytes)
    requires WellFormed(segments, []) && !AllBlank(marker)
    requires ExactOffset(PrintAll(segments), MaskAll(segments), exact, marker).Some?
    ensures var offset := ExactOffset(PrintAll(segments), MaskAll(segments), exact, marker).value;
            && OccursAt(PrintAll(segments), offset, exact)
            && |Flags(segments)| == |PrintAll(segments)|
            && exists i :: offset <= i < offset + |exact| && Flags(segments)[i]
  {
    SegmentsAlign(segments);
    AcceptedIsExecutable(PrintAll(segments), MaskAll(segments), Flags(segments), exact, marker);
    SomeByteIsCode(PrintAll(segments), Flags(segments), exact, marker,
                   ExactOffset(PrintAll(segments), MaskAll(segments), exact, marker).value);
  }

  lemma SomeByteIsCode(normalized: Bytes, flags: seq<bool>, exact: Bytes, marker: Bytes, offset: nat)
    requires ExecutableText(normalized, flags, exact, marker, offset) && !AllBlank(marker)
    ensures OccursAt(normalized, offset, exact) && offset + |exact| <= |normalized|
    ensures |flags| == |normalized| ==> exists i :: offset <= i < offset + |exact| && flags[i]
  {
    var k :| 0 <= k < |marker| && !Blanked(marker[k]);
    assert flags[offset + Find(exact, marker).value + k];
  }

  // ----- one function of the script

  datatype RangeError = NoFunction | NotTerminated | NormalizedOffsets | CodeOffsets

  const FUNCTION: Bytes := [102, 117, 110, 99, 116, 105, 111, 110, 32]             // "function "
  const NEXT_FUNCTION: Bytes := [NEWLINE] + FUNCTION                               // "\nfunction "
  const TOP_LEVEL_TRY: Bytes := [NEWLINE, 116, 114, 121, 32, 123]                  // "\ntry {"

  lemma KeywordsSpell()
    ensures Spells(FUNCTION, "function ")
    ensures Spells(NEXT_FUNCTION, "\nfunction ")
    ensures Spells(TOP_LEVEL_TRY, "\ntry {")
  {
  }

  lemma StartsWithNewline(source: Bytes, i: nat)
    requires OccursAt(source, i, NEXT_FUNCTION) || OccursAt(source, i, TOP_LEVEL_TRY)
    ensures i < |source| && source[i] == NEWLINE
  {
    if OccursAt(source, i, NEXT_FUNCTION) {
      OccursAtIndex(source, i, NEXT_FUNCTION, 0);
    } else {
      OccursAtIndex(source, i, TOP_LEVEL_TRY, 0);
    }
  }

  /** `pat` stands at `i`, and nowhere between `from` and there. */
  ghost predicate FirstFrom(source: Bytes, from: nat, i: nat, pat: Bytes) {
    from <= i && OccursAt(source, i, pat) && forall j :: from <= j < i ==> !OccursAt(source, j, pat)
  }

  ghost predicate NoneFrom(source: Bytes, from: nat, pat: Bytes) {
    forall j :: from <= j ==> !OccursAt(source, j, pat)
  }

  /**
   * From the first definition of the name to the next function behind it or, if
   * there is none, to the first top-level `try`.
   */
  function FunctionRange(source: Bytes, name: Bytes): (r: Result<(nat, nat), RangeError>)
    ensures r == Err(NoFunction) <==> NoneFrom(source, 0, FUNCTION + name)
    ensures r.Err? ==> r.error.NoFunction? || r.error.NotTerminated?
    ensures r.Ok? ==> r.value.0 < r.value.1 < |source| && source[r.value.1] == NEWLINE
    ensures r.Ok? ==>
              var (start, end) := r.value;
              var body := start + |FUNCTION + name|;
              && FirstFrom(source, 0, start, FUNCTION + name)
              && (|| FirstFrom(source, body, end, NEXT_FUNCTION)
                  || (NoneFrom(source, body, NEXT_FUNCTION) && FirstFrom(source, body, end, TOP_LEVEL_TRY)))
    ensures r == Err(NotTerminated) ==>
              exists start: nat ::
                && FirstFrom(source, 0, start, FUNCTION + name)
                && NoneFrom(source, start + |FUNCTION + name|, NEXT_FUNCTION)
                && NoneFrom(source, start + |FUNCTION + name|, TOP_LEVEL_TRY)
  {
    var marker := FUNCTION + name;
    match Find(source, marker)
    case None => Err(NoFunction)
    case Some(start) =>
      var bodyStart := start + |marker|;
      var end := match FindFrom(source, bodyStart, NEXT_FUNCTION)
        case Some(i) => Some(i)
        case None => FindFrom(source, bodyStart, TOP_LEVEL_TRY);
      match end
      case None =>
        assert FirstFrom(source, 0, start, marker);
        Err(NotTerminated)
      case Some(i) =>
        assert OccursAt(source, i, NEXT_FUNCTION) || OccursAt(source, i, TOP_LEVEL_TRY);
        StartsWithNewline(source, i);
        Ok((start, i))
  }

  /** `str::get` of a range. */
  function Get(s: Bytes, start: nat, end: nat): Option<Bytes> {
    if start <= end && Boundary(s, start) && Boundary(s, end) then Some(s[start..end]) else None
  }

  function ExactInFunction(views: Views, name: Bytes, exact: Bytes, marker: Bytes): Result<bool, RangeError> {
    match FunctionRange(views.code, name)
    case Err(e) => Err(e)
    case Ok((start, end)) =>
      match Get(views.normalized, start, end)
      case None => Err(NormalizedOffsets)
      case Some(normalized) =>
        match Get(views.code, start, end)
        case None => Err(CodeOffsets)
        case Some(code) => Ok(ExactOffset(normalized, code, exact, marker).Some?)
  }

  lemma AlignedSlices(normalized: Bytes, code: Bytes, flags: seq<bool>, start: nat, end: nat)
    requires Aligned(normalized, code, flags) && start <= end <= |code|
    ensures Aligned(normalized[start..end], code[start..end], flags[start..end])
  {
  }

  /** An occurrence of the exact text between two offsets whose marker was scanned as code. */
  ghost predicate ExecutableWithin(normalized: Bytes, flags: seq<bool>, exact: Bytes, marker: Bytes,
                                   start: nat, end: nat) {
    exists offset: nat :: LiesWithin(normalized, flags, exact, marker, start, end, offset)
  }

  ghost predicate LiesWithin(normalized: Bytes, flags: seq<bool>, exact: Bytes, marker: Bytes,
                             start: nat, end: nat, offset: nat) {
    start <= offset && offset + |exact| <= end && ExecutableText(normalized, flags, exact, marker, offset)
  }

  /** Every non-blank byte of a text at `at` was scanned as code. */
  ghost predicate KeywordIsCode(flags: seq<bool>, at: nat, text: Bytes) {
    at + |text| <= |flags| && forall k :: 0 <= k < |text| && !Blanked(text[k]) ==> flags[at + k]
  }

  /**
   * A range found in the masked view cuts both views: the offset errors cannot
   * happen. The function keyword and the name were scanned as code, and what the
   * search accepts inside the slice is executable in the whole script.
   */
  lemma FunctionSlicesAlign(views: Views, flags: seq<bool>, name: Bytes, exact: Bytes, marker: Bytes)
    requires Aligned(views.normalized, views.code, flags)
    ensures var r := ExactInFunction(views, name, exact, marker);
            && (r.Err? ==> r.error.NoFunction? || r.error.NotTerminated?)
            && (r.Ok? ==> KeywordIsCode(flags, FunctionRange(views.code, name).value.0, FUNCTION + name))
            && (r == Ok(true) ==>
                  var (start, end) := FunctionRange(views.code, name).value;
                  ExecutableWithin(views.normalized, flags, exact, marker, start, end))
  {
    var range := FunctionRange(views.code, name);
    if range.Ok? {
      var (start, end) := range.value;
      RangeCutsBoth(views, flags, name);
      if ExactOffset(views.normalized[start..end], views.code[start..end], exact, marker).Some? {
        SliceIsExecutable(views, flags, start, end, exact, marker);
      }
    }
  }

  lemma RangeCutsBoth(views: Views, flags: seq<bool>, name: Bytes)
    requires Aligned(views.normalized, views.code, flags) && FunctionRange(views.code, name).Ok?
    ensures var (start, end) := FunctionRange(views.code, name).value;
            && Get(views.normalized, start, end) == Some(views.normalized[start..end])
            && Get(views.code, start, end) == Some(views.code[start..end])
            && KeywordIsCode(flags, start, FUNCTION + name)
  {
    var (start, end) := FunctionRange(views.code, name).value;
    MarkerScannedAsCode(views.normalized, views.code, flags, start, FUNCTION + name);
    OccursAtIndex(views.code, start, FUNCTION + name, 0);
    assert views.code[start] == views.normalized[start] == FUNCTION[0] == 102;
    assert views.code[end] == views.normalized[end] == NEWLINE;
  }

  lemma SliceIsExecutable(views: Views, flags: seq<bool>, start: nat, end: nat, exact: Bytes, marker: Bytes)
    requires Aligned(views.normalized, views.code, flags) && start <= end <= |views.code|
    requires ExactOffset(views.normalized[start..end], views.code[start..end], exact, marker).Some?
    ensures ExecutableWithin(views.normalized, flags, exact, marker, start, end)
  {
    var normalized, code := views.normalized[start..end], views.code[start..end];
    AlignedSlices(views.normalized, views.code, flags, start, end);
    AcceptedIsExecutable(normalized, code, flags[start..end], exact, marker);
    var inner := ExactOffset(normalized, code, exact, marker).value;
    WithinWhole(views.normalized, flags, start, end, exact, marker, inner);
    assert LiesWithin(views.normalized, flags, exact, marker, start, end, start + inner);
  }

  lemma SliceOfSlice(s: Bytes, start: nat, end: nat, i: nat, j: nat)
    requires start <= end <= |s| && i <= j <= end - start
    ensures s[start..end][i..j] == s[start + i..start + j]
  {
    assert forall k :: 0 <= k < j - i ==> s[start..end][i..j][k] == s[start + i..start + j][k];
  }

  /** An occurrence of a slice, as an occurrence of the whole. */
  lemma WithinWhole(normalized: Bytes, flags: seq<bool>, start: nat, end: nat, exact: Bytes, marker: Bytes, inner: nat)
    requires start <= end <= |normalized| == |flags|
    requires ExecutableText(normalized[start..end], flags[start..end], exact, marker, inner)
    ensures LiesWithin(normalized, flags, exact, marker, start, end, start + inner)
  {
    var offset, at := start + inner, Find(exact, marker).value;
    SliceOfSlice(normalized, start, end, inner, inner + |exact|);
    forall k | 0 <= k < |marker| && !Blanked(marker[k])
      ensures flags[offset + at + k]
    {
      assert flags[start..end][inner + at + k];
    }
  }
}
