// When the "executable exact" search finds every executable occurrence: exactly
// when no overlap of the text with itself hides the first marker only.
module PowerShellCompleteness {
  import opened Utf8
  import opened Wrappers
  import opened Substrings
  import opened PowerShellLexer
  import opened PowerShellSegments
  import opened PowerShellSearch
  import opened PowerShellOverlap
  import opened PowerShellOverlapScript

  // ----- where the text occurs in the script

  lemma BorderFirst(exact: Bytes, d: nat)
    requires Border(exact, d)
    ensures exact[d] == exact[0]
  {
    assert exact[d..][0] == exact[..|exact| - d][0];
  }

  lemma BorderLast(exact: Bytes, d: nat)
    requires Border(exact, d)
    ensures exact[|exact| - 1 - d] == exact[|exact| - 1]
  {
    assert exact[d..][|exact| - 1 - d] == exact[..|exact| - d][|exact| - 1 - d];
  }

  lemma OverlapStarts(exact: Bytes, d: nat)
    requires Border(exact, d)
    ensures Overlap(exact, d)[..|exact|] == exact && Overlap(exact, d)[d..] == exact
  {
    assert exact[..d] + exact[..|exact| - d] == exact[..d] + exact[d..] == exact;
  }

  lemma CopiesOccur(t: Bytes, opening: Bytes, rest: Bytes, exact: Bytes, d: nat)
    requires Border(exact, d) && t == opening + (Overlap(exact, d) + rest)
    ensures OccursAt(t, |opening|, exact) && OccursAt(t, |opening| + d, exact)
  {
    var both := Overlap(exact, d);
    OverlapStarts(exact, d);
    forall k | 0 <= k < |exact| ensures t[|opening| + k] == exact[k] && t[|opening| + d + k] == exact[k] {
      assert both[..|exact|][k] == both[k] && both[d..][k] == both[d + k];
    }
    OccursAtIntro(t, |opening|, exact);
    OccursAtIntro(t, |opening| + d, exact);
  }

  lemma DiffersAt(t: Bytes, k: nat, exact: Bytes, i: nat)
    requires i < |exact| && k + i < |t| && t[k + i] != exact[i]
    ensures !OccursAt(t, k, exact)
  {
    if OccursAt(t, k, exact) {
      OccursAtIndex(t, k, exact, i);
    }
  }

  lemma DiffersAtTwo(t: Bytes, k: nat, exact: Bytes, i: nat, j: nat)
    requires i < |exact| && j < |exact| && exact[i] == exact[j]
    requires k + i < |t| && k + j < |t| && t[k + i] != t[k + j]
    ensures !OccursAt(t, k, exact)
  {
    if t[k + i] != exact[i] {
      DiffersAt(t, k, exact, i);
    } else {
      DiffersAt(t, k, exact, j);
    }
  }

  predicate Constant(s: Bytes) { forall i :: 0 <= i < |s| ==> s[i] == s[0] }

  lemma {:induction false} ShiftedIsConstant(s: Bytes, i: nat)
    requires i < |s| && forall j :: 0 <= j < |s| - 1 ==> s[j + 1] == s[j]
    ensures s[i] == s[0]
  {
    if i > 0 {
      ShiftedIsConstant(s, i - 1);
      assert s[i - 1 + 1] == s[i - 1];
    }
  }

  /** A text that also occurs one byte in front of the overlap is a single byte repeated. */
  lemma OneBefore(t: Bytes, opening: Bytes, rest: Bytes, exact: Bytes, d: nat)
    requires Border(exact, d) && t == opening + (Overlap(exact, d) + rest) && opening != []
    requires OccursAt(t, |opening| - 1, exact)
    ensures Constant(exact)
  {
    var a := |opening|;
    CopiesOccur(t, opening, rest, exact, d);
    forall j | 0 <= j < |exact| - 1 ensures exact[j + 1] == exact[j] {
      OccursAtIndex(t, a - 1, exact, j + 1);
      OccursAtIndex(t, a, exact, j);
    }
    forall i | 0 <= i < |exact| ensures exact[i] == exact[0] { ShiftedIsConstant(exact, i); }
  }

  /** Entries whose opening ends in the byte that the text may start with. */
  predicate Doubles(entry: Entry) { entry.InEscape? || entry.InDoubledQuote? || entry.InStringEscape? }

  /** The text does not start within the opening, but where it repeats the last byte of it. */
  lemma NotInOpening(entry: Entry, t: Bytes, rest: Bytes, exact: Bytes, d: nat, front: Byte, k: nat)
    requires Border(exact, d) && Neutral(front) && front != exact[0] && Enters(entry, exact[0])
    requires t == Opening(entry, front, |exact|) + (Overlap(exact, d) + rest) && k < |Opening(entry, front, |exact|)|
    requires !Doubles(entry) || k < |Opening(entry, front, |exact|)| - 1
    ensures !OccursAt(t, k, exact)
  {
    var opening := Opening(entry, front, |exact|);
    assert t[k] == opening[k];
    if k + d < |opening| && opening[k] != front {
      assert t[k + d] == opening[k + d];
      BorderFirst(exact, d);
      DiffersAtTwo(t, k, exact, 0, d);
    } else {
      DiffersAt(t, k, exact, 0);
    }
  }

  /** A text that repeats the last byte of the opening. */
  predicate Swallows(entry: Entry, exact: Bytes) {
    && Doubles(entry) && Constant(exact)
    && exact != [] && exact[0] == if entry.InDoubledQuote? then SINGLE_QUOTE else BACKTICK
  }

  /** Where the text repeats it, the overlap shows both markers alike. */
  lemma NotSwallowed(entry: Entry, d: nat, exact: Bytes, marker: Bytes, at: nat)
    requires Border(exact, d) && OccursAt(exact, at, marker) && HidesFirstOnly(entry, d, exact, marker, at)
    ensures !Swallows(entry, exact)
  {
    if Swallows(entry, exact) {
      ShowsAlike(entry, d, exact, marker, at);
    }
  }

  lemma ShowsAlike(entry: Entry, d: nat, exact: Bytes, marker: Bytes, at: nat)
    requires Border(exact, d) && OccursAt(exact, at, marker) && Swallows(entry, exact)
    ensures !HidesFirstOnly(entry, d, exact, marker, at)
  {
    var both := Overlap(exact, d);
    assert both == Fill(exact[0], |both|);
    if entry.InEscape? {
      EscapedShow(both);
      MarkerInBoth(exact, d, marker, at);
    } else {
      DoubledHide(entry, both, exact[0]);
      NoneShows(GlanceAt(entry, both).value.0, exact, marker, at, d);
    }
  }

  lemma EscapedShow(both: Bytes)
    requires both != [] && both == Fill(BACKTICK, |both|)
    ensures GlanceAt(InEscape, both) == Some((both, Code))
  {
    BackticksShow(|both| - 1);
    assert both[1..] == Fill(BACKTICK, |both| - 1);
    assert [BACKTICK] + Fill(BACKTICK, |both| - 1) == both;
  }

  lemma DoubledHide(entry: Entry, both: Bytes, b: Byte)
    requires entry.InDoubledQuote? || entry.InStringEscape?
    requires b == if entry.InDoubledQuote? then SINGLE_QUOTE else BACKTICK
    requires both != [] && both == Fill(b, |both|)
    ensures CanEnter(entry, both)
    ensures var r := GlanceAt(entry, both); r.Some? && r.value.0 == Fill(SPACE, |both|)
  {
    HiddenFill(After(entry), b, |both| - 1);
    assert both[1..] == Fill(b, |both| - 1);
    assert [SPACE] + Fill(SPACE, |both| - 1) == Fill(SPACE, |both|);
  }

  lemma MarkerInBoth(exact: Bytes, d: nat, marker: Bytes, at: nat)
    requires Border(exact, d) && OccursAt(exact, at, marker)
    ensures OccursAt(Overlap(exact, d), at, marker)
  {
    OverlapStarts(exact, d);
    var both := Overlap(exact, d);
    assert both[at..at + |marker|] == both[..|exact|][at..at + |marker|];
  }

  /** In code, backticks stand as they are. */
  lemma {:induction false} BackticksShow(n: nat)
    ensures Glance(Code, Fill(BACKTICK, n)) == Some((Fill(BACKTICK, n), Code))
  {
    var s := Fill(BACKTICK, n);
    if n == 1 {
      assert s[1..] == [] && s[..1] == s && s + [] == s;
    } else if n > 1 {
      BackticksShow(n - 2);
      assert s[2..] == Fill(BACKTICK, n - 2) && s[..2] + Fill(BACKTICK, n - 2) == s;
    }
  }

  /** Backticks in a string, and quotes anywhere but behind a backtick, show as blanks. */
  lemma {:induction false} HiddenFill(state: State, b: Byte, n: nat)
    requires (state.DoubleQuoted? && b == BACKTICK) || ((state.SingleQuoted? || state.Code?) && b == SINGLE_QUOTE)
    ensures var r := Glance(state, Fill(b, n)); r.Some? && r.value.0 == Fill(SPACE, n)
    decreases n
  {
    if n == 0 {
      assert Fill(b, 0) == [];
    } else if n == 1 || state.Code? {
      var next := if b == BACKTICK then DoubleQuoted else if state.Code? then SingleQuoted else Code;
      assert [SPACE] == Fill(SPACE, 1);
      HiddenFill(next, b, n - 1);
      HiddenStep(state, b, n, 1, next);
    } else {
      assert [SPACE, SPACE] == Fill(SPACE, 2);
      HiddenFill(state, b, n - 2);
      HiddenStep(state, b, n, 2, state);
    }
  }

  lemma HiddenStep(state: State, b: Byte, n: nat, m: nat, next: State)
    requires 0 < m <= n && StepOf(state, Fill(b, n)) == Emit(Fill(SPACE, m), next)
    requires var r := Glance(next, Fill(b, n - m)); r.Some? && r.value.0 == Fill(SPACE, n - m)
    ensures var r := Glance(state, Fill(b, n)); r.Some? && r.value.0 == Fill(SPACE, n)
  {
    assert Fill(b, n)[m..] == Fill(b, n - m);
    assert Fill(SPACE, m) + Fill(SPACE, n - m) == Fill(SPACE, n);
  }

  lemma NoneShows(view: Bytes, exact: Bytes, marker: Bytes, at: nat, d: nat)
    requires OccursAt(exact, at, marker) && |view| == |exact| + d && view == Fill(SPACE, |view|)
    requires Constant(exact) && exact != [] && exact[0] != SPACE
    ensures OccursAt(view, at, marker) || !OccursAt(view, d + at, marker)
  {
    if marker == [] {
      assert view[at..at] == [];
    } else {
      OccursAtIndex(exact, at, marker, 0);
      assert marker[0] != SPACE;
      DiffersAt(view, d + at, marker, 0);
    }
  }

  /** Nor does it start again behind the first copy, but inside the second one. */
  lemma NotBehind(t: Bytes, opening: Bytes, exact: Bytes, d: nat, back: Byte, end: State, k: nat)
    requires Border(exact, d) && Neutral(back) && back != exact[|exact| - 1]
    requires t == opening + (Overlap(exact, d) + (Fill(back, |exact|) + Closing(end)))
    requires k >= |opening| + |exact|
    ensures !OccursAt(t, k, exact)
  {
    var last, behind := |exact| - 1, |opening| + |Overlap(exact, d)|;
    if k + last < |t| {
      assert t[behind..] == Fill(back, |exact|) + Closing(end);
      LastDiffers(t, behind, exact, d, back, end, k + last);
      if t[k + last] == back {
        DiffersAt(t, k, exact, last);
      } else {
        BorderLast(exact, d);
        DiffersAtTwo(t, k, exact, last, last - d);
      }
    }
  }

  /** Behind the overlap every byte is the filling, or differs from all of it and of the closing in front. */
  lemma LastDiffers(t: Bytes, behind: nat, exact: Bytes, d: nat, back: Byte, end: State, e: nat)
    requires Neutral(back) && 0 < d < |exact|
    requires behind <= |t| && t[behind..] == Fill(back, |exact|) + Closing(end)
    requires behind <= e < |t|
    ensures t[e] == back || (e - d >= behind && t[e - d] != t[e])
  {
    var tail := t[behind..];
    assert t[e] == tail[e - behind];
    if e - behind >= |exact| {
      assert t[e - d] == tail[e - d - behind];
    }
  }

  // ----- a search that tries one occurrence

  lemma {:induction false} NoneLeft(normalized: Bytes, code: Bytes, exact: Bytes, marker: Bytes, at: nat, i: nat)
    requires exact != [] && NoneFrom(normalized, i, exact)
    ensures FindAccepted(normalized, code, exact, marker, at, i).None?
    decreases |normalized| + 1 - i
  {
    if i + |exact| <= |normalized| {
      NoneLeft(normalized, code, exact, marker, at, i + 1);
    }
  }

  lemma {:induction false} OnlyOneTried(normalized: Bytes, code: Bytes, exact: Bytes, marker: Bytes, at: nat, i: nat,
          first: nat)
    requires exact != [] && FirstFrom(normalized, i, first, exact) && NoneFrom(normalized, first + |exact|, exact)
    requires !OccursAt(code, first + at, marker)
    ensures FindAccepted(normalized, code, exact, marker, at, i).None?
    decreases first - i
  {
    if i < first {
      OnlyOneTried(normalized, code, exact, marker, at, i + 1, first);
    } else {
      NoneLeft(normalized, code, exact, marker, at, first + |exact|);
    }
  }

  // ----- the miss

  function Other(b: Byte): (r: Byte)
    ensures Neutral(r) && r != b
  {
    if b == 120 then 121 else 120
  }

  lemma OverlapIsSource(exact: Bytes, d: nat)
    requires Valid(exact) && RETURN !in exact && Border(exact, d)
    ensures Valid(Overlap(exact, d)) && RETURN !in Overlap(exact, d)
  {
    BorderFirst(exact, d);
    var _, _ := FirstChar(exact);
    ValidPrefix(exact, d);
    ValidConcat(exact[..d], exact);
  }

  /** The text of the script is well formed and free of carriage returns. */
  lemma ScriptIsSource(opening: Bytes, both: Bytes, behind: Bytes)
    requires Valid(both) && RETURN !in both
    requires IsPlain(opening) && IsPlain(behind)
    ensures Valid(opening + (both + behind)) && RETURN !in opening + (both + behind)
  {
    EmptyValid();
    AsciiThenValid(behind, []);
    assert behind + [] == behind;
    ValidConcat(both, behind);
    AsciiThenValid(opening, both + behind);
  }

  predicate IsPlain(s: Bytes) { forall i :: 0 <= i < |s| ==> s[i] < 0x80 && s[i] != RETURN }

  lemma AddedIsPlain(entry: Entry, b: Byte, n: nat, end: State)
    requires Neutral(b)
    ensures IsPlain(Opening(entry, b, n)) && IsPlain(Fill(b, n) + Closing(end))
  {
  }

  /** Where the text occurs in the script. */
  lemma ScriptOccurrences(entry: Entry, d: nat, exact: Bytes, end: State, front: Byte, back: Byte, t: Bytes, a: nat)
    requires Border(exact, d) && CanEnter(entry, Overlap(exact, d)) && !Swallows(entry, exact)
    requires front == Other(exact[0]) && back == Other(exact[|exact| - 1])
    requires t == Script(entry, Overlap(exact, d), end, front, back, |exact|)
    requires a == |Opening(entry, front, |exact|)|
    ensures FirstFrom(t, 0, a, exact) && OccursAt(t, a + d, exact) && NoneFrom(t, a + |exact|, exact)
  {
    var opening, rest := Opening(entry, front, |exact|), Fill(back, |exact|) + Closing(end);
    CopiesOccur(t, opening, rest, exact, d);
    EntersCopy(entry, d, exact);
    NoneBefore(entry, d, exact, front, t, rest, opening);
    NoneBehind(t, opening, exact, d, back, end);
  }

  lemma NoneBefore(entry: Entry, d: nat, exact: Bytes, front: Byte, t: Bytes, rest: Bytes, opening: Bytes)
    requires Border(exact, d) && Enters(entry, exact[0]) && !Swallows(entry, exact)
    requires front == Other(exact[0]) && opening == Opening(entry, front, |exact|)
    requires t == opening + (Overlap(exact, d) + rest)
    ensures forall k :: 0 <= k < |opening| ==> !OccursAt(t, k, exact)
  {
    forall k | 0 <= k < |opening| ensures !OccursAt(t, k, exact) {
      if Doubles(entry) && k == |opening| - 1 {
        NotOneBefore(entry, d, exact, front, t, rest, opening);
      } else {
        NotInOpening(entry, t, rest, exact, d, front, k);
      }
    }
  }

  lemma EntersCopy(entry: Entry, d: nat, exact: Bytes)
    requires Border(exact, d) && CanEnter(entry, Overlap(exact, d))
    ensures Enters(entry, exact[0])
  {
    assert Overlap(exact, d)[0] == exact[0];
  }

  lemma NoneBehind(t: Bytes, opening: Bytes, exact: Bytes, d: nat, back: Byte, end: State)
    requires Border(exact, d) && back == Other(exact[|exact| - 1])
    requires t == opening + (Overlap(exact, d) + (Fill(back, |exact|) + Closing(end)))
    ensures NoneFrom(t, |opening| + |exact|, exact)
  {
    forall k | k >= |opening| + |exact| ensures !OccursAt(t, k, exact) {
      NotBehind(t, opening, exact, d, back, end, k);
    }
  }

  lemma NotOneBefore(entry: Entry, d: nat, exact: Bytes, front: Byte, t: Bytes, rest: Bytes, opening: Bytes)
    requires Border(exact, d) && Doubles(entry) && !Swallows(entry, exact)
    requires opening == Opening(entry, front, |exact|) && t == opening + (Overlap(exact, d) + rest)
    ensures !OccursAt(t, |opening| - 1, exact)
  {
    var k := |opening| - 1;
    if OccursAt(t, k, exact) {
      OneBefore(t, opening, rest, exact, d);
      OccursAtIndex(t, k, exact, 0);
    }
  }

  /** A whole source with an executable occurrence that the search does not find. */
  lemma MissedSource(entry: Entry, d: nat, exact: Bytes, marker: Bytes) returns (normalized: Bytes, code: Bytes)
    requires Valid(exact) && Valid(marker) && RETURN !in exact && MissesAt(entry, d, exact, marker)
    ensures AreViews(normalized, code) && ExactOffset(normalized, code, exact, marker).None?
    ensures exists offset: nat :: ExecutableAt(normalized, code, exact, marker, offset)
  {
    var (view, end) := GlanceAt(entry, Overlap(exact, d)).value;
    var front, back := Other(exact[0]), Other(exact[|exact| - 1]);
    normalized, code := ScriptViews(entry, d, exact, view, end, front, back);
    MissedInScript(entry, d, exact, marker, Find(exact, marker).value, view, end, front, back, normalized, code,
                   |Opening(entry, front, |exact|)|);
  }

  lemma MissedInScript(entry: Entry, d: nat, exact: Bytes, marker: Bytes, at: nat, view: Bytes, end: State,
                       front: Byte, back: Byte, normalized: Bytes, code: Bytes, a: nat)
    requires Border(exact, d) && Valid(marker) && Find(exact, marker) == Some(at)
    requires HidesFirstOnly(entry, d, exact, marker, at) && GlanceAt(entry, Overlap(exact, d)) == Some((view, end))
    requires front == Other(exact[0]) && back == Other(exact[|exact| - 1])
    requires normalized == Script(entry, Overlap(exact, d), end, front, back, |exact|)
    requires a == |Opening(entry, front, |exact|)| && a + |view| <= |code| && code[a..a + |view|] == view
    ensures ExactOffset(normalized, code, exact, marker).None?
    ensures exists offset: nat :: ExecutableAt(normalized, code, exact, marker, offset)
  {
    NotSwallowed(entry, d, exact, marker, at);
    ScriptOccurrences(entry, d, exact, end, front, back, normalized, a);
    ViewHidesFirst(entry, d, exact, marker, at, view, end);
    OneTriedInVain(normalized, code, exact, marker, at, a, d, view);
  }

  lemma ViewHidesFirst(entry: Entry, d: nat, exact: Bytes, marker: Bytes, at: nat, view: Bytes, end: State)
    requires Border(exact, d) && HidesFirstOnly(entry, d, exact, marker, at)
    requires GlanceAt(entry, Overlap(exact, d)) == Some((view, end))
    ensures |view| == |exact| + d && !OccursAt(view, at, marker) && OccursAt(view, d + at, marker)
  {
  }

  lemma ScriptViews(entry: Entry, d: nat, exact: Bytes, view: Bytes, end: State, front: Byte, back: Byte)
    returns (normalized: Bytes, code: Bytes)
    requires Valid(exact) && RETURN !in exact && Border(exact, d) && Neutral(front) && Neutral(back)
    requires CanEnter(entry, Overlap(exact, d)) && GlanceAt(entry, Overlap(exact, d)) == Some((view, end))
    ensures normalized == Script(entry, Overlap(exact, d), end, front, back, |exact|) && AreViews(normalized, code)
    ensures var a := |Opening(entry, front, |exact|)|;
            a + |view| <= |code| && code[a..a + |view|] == view
  {
    var both, n := Overlap(exact, d), |exact|;
    normalized := Script(entry, both, end, front, back, n);
    code := ScriptScans(entry, both, view, end, front, back, n);
    OverlapIsSource(exact, d);
    AddedIsPlain(entry, front, n, end);
    AddedIsPlain(entry, back, n, end);
    ScriptIsSource(Opening(entry, front, n), both, Fill(back, n) + Closing(end));
  }

  lemma OneTriedInVain(normalized: Bytes, code: Bytes, exact: Bytes, marker: Bytes, at: nat, a: nat, d: nat,
          view: Bytes)
    requires exact != [] && Find(exact, marker) == Some(at) && Valid(marker)
    requires FirstFrom(normalized, 0, a, exact) && OccursAt(normalized, a + d, exact)
    requires NoneFrom(normalized, a + |exact|, exact)
    requires a + |view| <= |code| && code[a..a + |view|] == view && |view| == |exact| + d
    requires !OccursAt(view, at, marker) && OccursAt(view, d + at, marker)
    ensures ExactOffset(normalized, code, exact, marker).None?
    ensures exists offset: nat :: ExecutableAt(normalized, code, exact, marker, offset)
  {
    MarkersInScript(code, a, view, at, d, exact, marker, a + at, a + d + at);
    OnlyOneTried(normalized, code, exact, marker, at, 0, a);
    assert ExecutableAt(normalized, code, exact, marker, a + d);
  }

  lemma MarkersInScript(code: Bytes, a: nat, view: Bytes, at: nat, d: nat, exact: Bytes, marker: Bytes, i: nat, j: nat)
    requires a + |view| <= |code| && code[a..a + |view|] == view && |view| == |exact| + d
    requires at + |marker| <= |exact| && Valid(marker) && i == a + at && j == a + d + at
    requires !OccursAt(view, at, marker) && OccursAt(view, d + at, marker)
    ensures !OccursAt(code, i, marker) && Accepts(code, j, marker)
  {
    var n := |marker|;
    SliceOfSlice(code, a, a + |view|, at, at + n);
    SliceOfSlice(code, a, a + |view|, d + at, d + at + n);
    assert code[i..i + n] == view[at..at + n] && code[j..j + n] == view[d + at..d + at + n];
    MarkerOrEmpty(code, j, marker);
  }

  lemma MarkerOrEmpty(code: Bytes, i: nat, marker: Bytes)
    requires Valid(marker) && OccursAt(code, i, marker) && (marker == [] ==> Boundary(code, i))
    ensures Accepts(code, i, marker)
  {
    if marker != [] {
      MarkerBoundary(code, i, marker);
    }
  }

  // ----- the theorem

  /** What the condition turns away is never missed, in any slice of any source. */
  /** Where no overlap hides a marker, the search passes no executable occurrence. */
  lemma NonePassed(normalized: Bytes, code: Bytes, start: nat, end: nat, exact: Bytes, marker: Bytes, offset: nat)
    requires AreViews(normalized, code) && start <= end <= |normalized| == |code|
    requires Valid(exact) && Valid(marker) && Find(exact, marker).Some? && !Misses(exact, marker)
    requires ExecutableAt(normalized[start..end], code[start..end], exact, marker, offset)
    ensures !Passes(ExactOffset(normalized[start..end], code[start..end], exact, marker), offset)
  {
    var slice, view, at := normalized[start..end], code[start..end], Find(exact, marker).value;
    if marker == [] {
      LexMasks(Code, normalized);
      EmptyMarkerFound(slice, view, exact, offset);
    } else if Passes(ExactOffset(slice, view, exact, marker), offset) {
      var first := RefusedOverlap(slice, view, exact, marker, at, 0, offset);
      MissInSlice(normalized, code, start, end, exact, marker, at, first, offset);
    }
  }

  lemma MissInSlice(normalized: Bytes, code: Bytes, start: nat, end: nat, exact: Bytes, marker: Bytes, at: nat,
                    first: nat, offset: nat)
    requires Scans(normalized, code) && start <= end <= |normalized| == |code|
    requires Valid(marker) && marker != [] && Find(exact, marker) == Some(at)
    requires RefusedPair(normalized[start..end], code[start..end], exact, marker, at, first, offset)
    ensures Misses(exact, marker)
  {
    PairInWhole(normalized, code, start, end, normalized[start..end], code[start..end], exact, marker, at,
                first, offset);
    MissMeansMisses(normalized, code, exact, marker, at, start + first, start + offset);
  }

  lemma PairInWhole(normalized: Bytes, code: Bytes, start: nat, end: nat, slice: Bytes, view: Bytes,
                    exact: Bytes, marker: Bytes, at: nat, first: nat, offset: nat)
    requires start <= end <= |normalized| == |code|
    requires slice == normalized[start..end] && view == code[start..end]
    requires Valid(marker) && marker != [] && RefusedPair(slice, view, exact, marker, at, first, offset)
    ensures RefusedPair(normalized, code, exact, marker, at, start + first, start + offset)
  {
    var a, b := start + first, start + offset;
    CopiesInWhole(normalized, start, end, slice, exact, first, offset, a, b);
    MarkersInWhole(code, start, end, view, marker, first + at, offset + at, a + at, b + at);
  }

  lemma CopiesInWhole(s: Bytes, start: nat, end: nat, slice: Bytes, exact: Bytes, i: nat, j: nat, a: nat, b: nat)
    requires start <= end <= |s| && slice == s[start..end] && OccursAt(slice, i, exact) && OccursAt(slice, j, exact)
    requires a == start + i && b == start + j
    ensures OccursAt(s, a, exact) && OccursAt(s, b, exact)
  {
    InWhole(s, start, end, slice, i, exact, a);
    InWhole(s, start, end, slice, j, exact, b);
  }

  lemma MarkersInWhole(code: Bytes, start: nat, end: nat, view: Bytes, marker: Bytes, i: nat, j: nat, a: nat, b: nat)
    requires start <= end <= |code| && view == code[start..end] && Valid(marker) && marker != []
    requires i < j && OccursAt(view, j, marker) && !Accepts(view, i, marker) && a == start + i && b == start + j
    ensures OccursAt(code, b, marker) && !Accepts(code, a, marker)
  {
    InWhole(code, start, end, view, j, marker, b);
    StillRefused(code, start, end, i, marker);
  }

  /** A marker refused in a slice that it fits into is refused in the whole. */
  lemma StillRefused(code: Bytes, start: nat, end: nat, i: nat, marker: Bytes)
    requires start <= end <= |code| && start + i + |marker| <= end && Valid(marker) && marker != []
    requires !Accepts(code[start..end], i, marker)
    ensures !Accepts(code, start + i, marker)
  {
    if OccursAt(code, start + i, marker) {
      SliceOfSlice(code, start, end, i, i + |marker|);
      assert OccursAt(code[start..end], i, marker);
      MarkerBoundary(code[start..end], i, marker);
    }
  }

  lemma InWhole(s: Bytes, start: nat, end: nat, slice: Bytes, i: nat, pat: Bytes, a: nat)
    requires start <= end <= |s| && slice == s[start..end] && OccursAt(slice, i, pat) && a == start + i
    ensures OccursAt(s, a, pat)
  {
    SliceOfSlice(s, start, end, i, i + |pat|);
  }

  /** A mask keeps the boundary where a well-formed text stands. */
  lemma MaskedBoundary(normalized: Bytes, code: Bytes, exact: Bytes, i: nat)
    requires Masks(normalized, code) && Valid(exact) && exact != [] && OccursAt(normalized, i, exact)
    ensures Accepts(code, i, [])
  {
    var _, _ := FirstChar(exact);
    OccursAtIndex(normalized, i, exact, 0);
    assert code[i..i] == [];
  }

  lemma EmptyMarkerFound(normalized: Bytes, code: Bytes, exact: Bytes, offset: nat)
    requires Masks(normalized, code) && Valid(exact) && OccursAt(normalized, offset, exact)
    ensures !Passes(ExactOffset(normalized, code, exact, []), offset)
  {
    assert OccursAt(exact, 0, []) && OccursAt(code, 0, []);
    if exact == [] {
      assert FindAccepted(normalized, code, exact, [], 0, 0) == Some(0);
    } else if Passes(ExactOffset(normalized, code, exact, []), offset) {
      MaskedBoundary(normalized, code, exact, offset);
      var first := RefusedOverlap(normalized, code, exact, [], 0, 0, offset);
      MaskedBoundary(normalized, code, exact, first);
    }
  }

  /**
   * The search finds an executable occurrence in every slice of every scanned source
   * that has one, exactly when no entry and no shift hide the first marker only.
   * Otherwise it already misses one in a whole source.
   */
  lemma CompleteExactly(exact: Bytes, marker: Bytes)
    requires Valid(exact) && Valid(marker) && Find(exact, marker).Some?
    ensures Complete(exact, marker) <==> !Misses(exact, marker)
    ensures Misses(exact, marker) <==>
            exists normalized: Bytes, code: Bytes ::
                AreViews(normalized, code) && !FindsIfAny(normalized, code, exact, marker)
  {
    if Misses(exact, marker) {
      var entry :| entry in ENTRIES && exists d: nat :: d < |exact| && MissesAt(entry, d, exact, marker);
      var d: nat :| d < |exact| && MissesAt(entry, d, exact, marker);
      var normalized, code := MissedSource(entry, d, exact, marker);
      LexMasks(Code, normalized);
      assert normalized[0..|normalized|] == normalized && code[0..|normalized|] == code;
      assert !FindsIfAny(normalized, code, exact, marker);
    } else {
      forall normalized: Bytes, code: Bytes, start: nat, end: nat
        | AreViews(normalized, code) && start <= end <= |normalized| == |code|
        ensures FindsIfAny(normalized[start..end], code[start..end], exact, marker)
      {
        if offset: nat :| ExecutableAt(normalized[start..end], code[start..end], exact, marker, offset) {
          NonePassed(normalized, code, start, end, exact, marker, offset);
        }
      }
      forall normalized: Bytes, code: Bytes | AreViews(normalized, code)
        ensures FindsIfAny(normalized, code, exact, marker)
      {
        LexMasks(Code, normalized);
        assert normalized[0..|normalized|] == normalized && code[0..|normalized|] == code;
      }
    }
  }

  /**
   * Where the condition holds the search returns the first executable occurrence of a
   * slice, and nothing only where there is none.
   */
  lemma FindsTheFirst(normalized: Bytes, code: Bytes, start: nat, end: nat, exact: Bytes, marker: Bytes)
    requires AreViews(normalized, code) && start <= end <= |normalized| == |code|
    requires Valid(exact) && Valid(marker) && Find(exact, marker).Some? && !Misses(exact, marker)
    ensures var found := ExactOffset(normalized[start..end], code[start..end], exact, marker);
            forall offset: nat :: ExecutableAt(normalized[start..end], code[start..end], exact, marker, offset)
                                  ==> found.Some? && found.value <= offset
    ensures var found := ExactOffset(normalized[start..end], code[start..end], exact, marker);
            found.Some? ==> ExecutableAt(normalized[start..end], code[start..end], exact, marker, found.value)
  {
    forall offset: nat | ExecutableAt(normalized[start..end], code[start..end], exact, marker, offset)
      ensures !Passes(ExactOffset(normalized[start..end], code[start..end], exact, marker), offset)
    {
      NonePassed(normalized, code, start, end, exact, marker, offset);
    }
    if ExactOffset(normalized[start..end], code[start..end], exact, marker).Some? {
      AcceptedAt(normalized[start..end], code[start..end], exact, marker, Find(exact, marker).value,
                 ExactOffset(normalized[start..end], code[start..end], exact, marker).value);
    }
  }

  // ----- what the condition says of simple texts

  /** No proper suffix of `s` is also a prefix of it, so its occurrences cannot overlap. */
  predicate Unbordered(s: Bytes) { forall d :: 0 < d < |s| ==> !Border(s, d) }

  lemma {:induction false} GlanceMasks(state: State, s: Bytes)
    requires Glance(state, s).Some?
    ensures Masks(s, Glance(state, s).value.0)
    decreases |s|
  {
    if s != [] {
      var step := StepOf(state, s);
      GlanceMasks(step.next, s[|step.out|..]);
      StepMasks(state, s, step);
      MasksMore(s, step.out, Glance(step.next, s[|step.out|..]).value.0);
    }
  }

  lemma StepMasks(state: State, s: Bytes, step: Step)
    requires s != [] && step == StepOf(state, s) && step.Emit?
    ensures 0 < |step.out| <= |s| && Masks(s[..|step.out|], step.out)
  {
  }

  lemma MasksMore(s: Bytes, out: Bytes, tail: Bytes)
    requires |out| <= |s| && Masks(s[..|out|], out) && Masks(s[|out|..], tail)
    ensures Masks(s, out + tail)
  {
    forall i | 0 <= i < |s| ensures (out + tail)[i] == s[i] || (out + tail)[i] == Blank(s[i]) {
      if i < |out| {
        assert s[i] == s[..|out|][i];
      } else {
        assert s[i] == s[|out|..][i - |out|];
      }
    }
  }

  lemma BlankStays(exact: Bytes, d: nat, marker: Bytes, at: nat, view: Bytes)
    requires Border(exact, d) && Masks(Overlap(exact, d), view) && AllBlank(marker) && OccursAt(exact, at, marker)
    ensures OccursAt(view, at, marker)
  {
    MarkerInBoth(exact, d, marker, at);
    forall k | 0 <= k < |marker| ensures view[at + k] == marker[k] {
      OccursAtIndex(Overlap(exact, d), at, marker, k);
      assert marker[k] in marker;
    }
    OccursAtIntro(view, at, marker);
  }

  lemma GlanceAtMasks(entry: Entry, s: Bytes)
    requires CanEnter(entry, s) && s != [] && GlanceAt(entry, s).Some?
    ensures Masks(s, GlanceAt(entry, s).value.0)
  {
    if entry.At? {
      GlanceMasks(entry.state, s);
    } else {
      GlanceMasks(After(entry), s[1..]);
      if entry.InDoubledQuote? || entry.InBlockOpening? || entry.InBlockClosing? {
        assert Shown(entry, s[0]) == Blank(s[0]);
      }
    }
  }

  /** A text that cannot overlap itself, and a blank marker, are never missed. */
  lemma UnborderedOrBlankIsComplete(exact: Bytes, marker: Bytes)
    requires Valid(exact) && Valid(marker) && Find(exact, marker).Some?
    requires Unbordered(exact) || AllBlank(marker)
    ensures Complete(exact, marker)
  {
    if AllBlank(marker) {
      forall entry, d: nat ensures !MissesAt(entry, d, exact, marker) { BlankIsNotMissed(entry, d, exact, marker); }
    }
    CompleteExactly(exact, marker);
  }

  lemma BlankIsNotMissed(entry: Entry, d: nat, exact: Bytes, marker: Bytes)
    requires AllBlank(marker)
    ensures !MissesAt(entry, d, exact, marker)
  {
    if Border(exact, d) && CanEnter(entry, Overlap(exact, d)) && GlanceAt(entry, Overlap(exact, d)).Some?
        && Find(exact, marker).Some? {
      GlanceAtMasks(entry, Overlap(exact, d));
      BlankStays(exact, d, marker, Find(exact, marker).value, GlanceAt(entry, Overlap(exact, d)).value.0);
    }
  }

  const LETTER: Byte := 120  // "x"

  /** A script that misses one: in `'x'x'x'` the executable x stands between two quoted ones. */
  lemma OverlapIsMissed()
    ensures var script := [SingleString([LETTER]), Plain(LETTER), SingleString([LETTER])];
            var exact := [SINGLE_QUOTE, LETTER, SINGLE_QUOTE];
            && WellFormed(script, [])
            && Find(exact, [LETTER]).Some?
            && ExecutableAt(PrintAll(script), MaskAll(script), exact, [LETTER], 2)
            && ExactOffset(PrintAll(script), MaskAll(script), exact, [LETTER]).None?
  {
    OverlapScript();
    OverlapSearch(SINGLE_QUOTE, LETTER);
  }

  lemma OverlapScript()
    ensures var script := [SingleString([LETTER]), Plain(LETTER), SingleString([LETTER])];
            var q, x := SINGLE_QUOTE, LETTER;
            && WellFormed(script, [])
            && PrintAll(script) == [q, x, q, x, q, x, q]
            && MaskAll(script) == [SPACE, SPACE, SPACE, x, SPACE, SPACE, SPACE]
  {
    var quoted, plain := SingleString([LETTER]), Plain(LETTER);
    QuotedLetter();
    LastTwo(quoted, plain);
    OneMoreSegment(quoted, [plain, quoted], [LETTER, SINGLE_QUOTE, LETTER, SINGLE_QUOTE]);
    assert [quoted] + [plain, quoted] == [quoted, plain, quoted];
  }

  lemma LastTwo(quoted: Segment, plain: Segment)
    requires quoted == SingleString([LETTER]) && plain == Plain(LETTER)
    ensures WellFormed([plain, quoted], [])
    ensures PrintAll([plain, quoted]) == [LETTER, SINGLE_QUOTE, LETTER, SINGLE_QUOTE]
    ensures MaskAll([plain, quoted]) == [LETTER, SPACE, SPACE, SPACE]
  {
    QuotedLetter();
    OneMoreSegment(quoted, [], []);
    assert [quoted] + [] == [quoted];
    OneMoreSegment(plain, [quoted], [SINGLE_QUOTE, LETTER, SINGLE_QUOTE]);
    assert [plain] + [quoted] == [plain, quoted];
  }

  lemma OneMoreSegment(segment: Segment, segments: seq<Segment>, printed: Bytes)
    requires WellFormed(segments, []) && PrintAll(segments) == printed && Fits(segment, printed)
    ensures WellFormed([segment] + segments, [])
    ensures PrintAll([segment] + segments) == Print(segment) + printed
    ensures MaskAll([segment] + segments) == Mask(segment) + MaskAll(segments)
  {
    assert ([segment] + segments)[1..] == segments;
    assert printed + [] == printed;
  }

  lemma QuotedLetter()
    ensures Print(SingleString([LETTER])) == [SINGLE_QUOTE, LETTER, SINGLE_QUOTE]
    ensures Mask(SingleString([LETTER])) == [SPACE, SPACE, SPACE]
  {
    assert Doubled([LETTER]) == [LETTER];
  }

  lemma OverlapSearch(q: Byte, x: Byte)
    requires x != q && x != SPACE
    ensures var normalized: Bytes := [q, x, q, x, q, x, q];
            var code: Bytes := [SPACE, SPACE, SPACE, x, SPACE, SPACE, SPACE];
            && Find([q, x, q], [x]).Some?
            && (x < 0x80 ==> ExecutableAt(normalized, code, [q, x, q], [x], 2))
            && ExactOffset(normalized, code, [q, x, q], [x]).None?
  {
    var normalized: Bytes := [q, x, q, x, q, x, q];
    var code: Bytes := [SPACE, SPACE, SPACE, x, SPACE, SPACE, SPACE];
    var exact := [q, x, q];
    OccursAtIntro(exact, 1, [x]);
    assert exact[0..1] == [q];
    assert Find(exact, [x]) == Some(1);
    OccursAtIntro(normalized, 0, exact);
    OccursAtIntro(normalized, 2, exact);
    OccursAtIntro(normalized, 4, exact);
    OccursAtIntro(code, 3, [x]);
    assert normalized[3..6] == [x, q, x] && code[1..2] == [SPACE] == code[5..6];
    assert FindAccepted(normalized, code, exact, [x], 1, 4).None?;
    assert FindAccepted(normalized, code, exact, [x], 1, 3).None?;
  }
}
