// What the "executable exact" search misses: `match_indices` resumes behind a
// refused match, so an executable occurrence that overlaps one is not tried.
module PowerShellOverlap {
  import opened Utf8
  import opened Wrappers
  import opened Substrings
  import opened PowerShellLexer
  import opened PowerShellSearch

  // ----- completeness on scanned sources

  /** The exact text stands at `offset` with its marker in the executable view. */
  ghost predicate ExecutableAt(normalized: Bytes, code: Bytes, exact: Bytes, marker: Bytes, offset: nat)
    requires Find(exact, marker).Some?
  {
    OccursAt(normalized, offset, exact) && Accepts(code, offset + Find(exact, marker).value, marker)
  }

  /** A normalised source and the view that the scanner makes of it. */
  ghost predicate AreViews(normalized: Bytes, code: Bytes) { Valid(normalized) && Scans(normalized, code) }

  ghost predicate Scans(normalized: Bytes, code: Bytes) {
    RETURN !in normalized && Lex(Code, normalized) == Ok(code)
  }

  /** In every slice of every scanned source, an executable occurrence is found if there is one. */
  ghost predicate Complete(exact: Bytes, marker: Bytes)
    requires Find(exact, marker).Some?
  {
    forall normalized: Bytes, code: Bytes, start: nat, end: nat ::
      AreViews(normalized, code) && start <= end <= |normalized| == |code|
      ==> FindsIfAny(normalized[start..end], code[start..end], exact, marker)
  }

  ghost predicate FindsIfAny(normalized: Bytes, code: Bytes, exact: Bytes, marker: Bytes)
    requires Find(exact, marker).Some?
  {
    (exists offset: nat :: ExecutableAt(normalized, code, exact, marker, offset)) ==>
      ExactOffset(normalized, code, exact, marker).Some?
  }

  // ----- where the scanner may stand when it reaches a text

  /** Between two steps in some state, or on the second byte of a step that takes two. */
  datatype Entry =
    | At(state: State)
    | InBlockOpening | InEscape | InDoubledQuote | InStringEscape | InBlockClosing

  const ENTRIES: seq<Entry> := [
    At(Code), At(SingleQuoted), At(DoubleQuoted), At(LineComment), At(BlockComment),
    InBlockOpening, InEscape, InDoubledQuote, InStringEscape, InBlockClosing]

  lemma EntriesAreAll(entry: Entry)
    ensures entry in ENTRIES
  {
    match entry
    case At(state) =>
      match state {
        case Code => assert ENTRIES[0] == entry;
        case SingleQuoted => assert ENTRIES[1] == entry;
        case DoubleQuoted => assert ENTRIES[2] == entry;
        case LineComment => assert ENTRIES[3] == entry;
        case BlockComment => assert ENTRIES[4] == entry;
      }
    case InBlockOpening => assert ENTRIES[5] == entry;
    case InEscape => assert ENTRIES[6] == entry;
    case InDoubledQuote => assert ENTRIES[7] == entry;
    case InStringEscape => assert ENTRIES[8] == entry;
    case InBlockClosing => assert ENTRIES[9] == entry;
  }

  /** Whether a text may start with `b` there. */
  predicate Enters(entry: Entry, b: Byte) {
    match entry
    case InBlockOpening => b == HASH
    case InDoubledQuote => b == SINGLE_QUOTE
    case InBlockClosing => b == GREATER
    case _ => true
  }

  /** What the second byte of a step shows in the view. */
  function Shown(entry: Entry, b: Byte): Byte
    requires !entry.At?
  {
    match entry
    case InEscape => b
    case InStringEscape => Blank(b)
    case _ => SPACE
  }

  function After(entry: Entry): State
    requires !entry.At?
  {
    match entry
    case InBlockOpening => BlockComment
    case InEscape => Code
    case InDoubledQuote => SingleQuoted
    case InStringEscape => DoubleQuoted
    case InBlockClosing => Code
  }

  predicate CanEnter(entry: Entry, s: Bytes) { entry.At? || (s != [] && Enters(entry, s[0])) }

  /** The rest of a scan that reaches `s` at an entry. */
  function LexAt(entry: Entry, s: Bytes): Scanned
    requires CanEnter(entry, s)
  {
    if entry.At? then Lex(entry.state, s) else Prepend([Shown(entry, s[0])], Lex(After(entry), s[1..]))
  }

  // ----- the view of a text on its own

  type Glimpse = Option<(Bytes, State)>

  function Ahead(out: Bytes, glimpse: Glimpse): Glimpse {
    match glimpse
    case None => None
    case Some((view, state)) => Some((out + view, state))
  }

  /** The view of `s` and the state behind it, whatever follows. */
  function Glance(state: State, s: Bytes): (r: Glimpse)
    ensures r.Some? ==> |r.value.0| == |s|
    decreases |s|
  {
    if s == [] then Some(([], state))
    else
      match StepOf(state, s)
      case Forbidden => None
      case Emit(out, next) => Ahead(out, Glance(next, s[|out|..]))
  }

  function GlanceAt(entry: Entry, s: Bytes): (r: Glimpse)
    requires CanEnter(entry, s)
    ensures r.Some? ==> |r.value.0| == |s|
  {
    if entry.At? then Glance(entry.state, s) else Ahead([Shown(entry, s[0])], Glance(After(entry), s[1..]))
  }

  // ----- the condition

  /** Two copies of `exact`, the second `d` bytes behind the first. */
  function Overlap(exact: Bytes, d: nat): Bytes
    requires d <= |exact|
  {
    exact[..d] + exact
  }

  predicate Border(exact: Bytes, d: nat) { 0 < d < |exact| && exact[d..] == exact[..|exact| - d] }

  /** Entered there, the scanner hides the marker of the first copy and shows that of the second. */
  predicate HidesFirstOnly(entry: Entry, d: nat, exact: Bytes, marker: Bytes, at: nat)
    requires Border(exact, d)
  {
    var both := Overlap(exact, d);
    CanEnter(entry, both) && GlanceAt(entry, both).Some?
    && !OccursAt(GlanceAt(entry, both).value.0, at, marker)
    && OccursAt(GlanceAt(entry, both).value.0, d + at, marker)
  }

  predicate MissesAt(entry: Entry, d: nat, exact: Bytes, marker: Bytes) {
    Find(exact, marker).Some? && Border(exact, d) && HidesFirstOnly(entry, d, exact, marker, Find(exact, marker).value)
  }

  /** A finite check of the two texts: at most ten entries and as many shifts as the exact text is long. */
  predicate Misses(exact: Bytes, marker: Bytes) {
    RETURN !in exact && exists entry <- ENTRIES :: exists d: nat :: d < |exact| && MissesAt(entry, d, exact, marker)
  }

  // ----- a miss shows the condition

  /** How a search that does not stop at `i` goes on, as long as the exact text still fits. */
  lemma RefusedAt(normalized: Bytes, code: Bytes, exact: Bytes, marker: Bytes, at: nat, i: nat) returns (next: nat)
    requires exact != [] && i + |exact| <= |normalized|
    requires FindAccepted(normalized, code, exact, marker, at, i) != Some(i)
    ensures OccursAt(normalized, i, exact) ==> next == i + |exact| && !Accepts(code, i + at, marker)
    ensures !OccursAt(normalized, i, exact) ==> next == i + 1
    ensures FindAccepted(normalized, code, exact, marker, at, next)
            == FindAccepted(normalized, code, exact, marker, at, i)
  {
    next := if OccursAt(normalized, i, exact) then i + |exact| else i + 1;
  }

  /** The search found nothing up to `offset`. */
  predicate Passes(found: Option<nat>, offset: nat) { found.None? || offset < found.value }

  /** A search that passes an executable occurrence refused a match that overlaps it. */
  lemma {:induction false} RefusedOverlap(normalized: Bytes, code: Bytes, exact: Bytes, marker: Bytes, at: nat, i: nat,
          offset: nat)
    returns (first: nat)
    requires exact != [] && i <= offset
    requires OccursAt(normalized, offset, exact) && Accepts(code, offset + at, marker)
    requires Passes(FindAccepted(normalized, code, exact, marker, at, i), offset)
    ensures first < offset < first + |exact| && OccursAt(normalized, first, exact) && !Accepts(code, first + at, marker)
    decreases offset - i
  {
    var next := RefusedAt(normalized, code, exact, marker, at, i);
    if next <= offset {
      first := RefusedOverlap(normalized, code, exact, marker, at, next, offset);
    } else {
      first := i;
    }
  }

  /** Any position of a scan is an entry for what follows. */
  lemma {:induction false} EntryOf(state: State, s: Bytes, i: nat, code: Bytes) returns (entry: Entry)
    requires Lex(state, s) == Ok(code) && i < |s|
    ensures CanEnter(entry, s[i..]) && i <= |code| && LexAt(entry, s[i..]) == Ok(code[i..])
    decreases |s|
  {
    var step := StepOf(state, s);
    var n := |step.out|;
    FirstStep(state, s, code, step);
    if i == 0 {
      entry := At(state);
      assert s[0..] == s && code[0..] == code;
    } else if n <= i {
      entry := EntryOf(step.next, s[n..], i - n, code[n..]);
      DropTwice(s, n, i);
      DropTwice(code, n, i);
    } else {
      entry := SecondOf(state, s);
      SecondByte(entry, s, code, step);
    }
  }

  /** A scan that succeeds is one step and the scan of what follows. */
  lemma FirstStep(state: State, s: Bytes, code: Bytes, step: Step)
    requires Lex(state, s) == Ok(code) && s != [] && step == StepOf(state, s)
    ensures step.Emit? && |s| == |code| && step.out == code[..|step.out|]
    ensures Lex(step.next, s[|step.out|..]) == Ok(code[|step.out|..])
  {
    LexMasks(state, s);
    assert code == step.out + Lex(step.next, s[|step.out|..]).value;
  }

  lemma SecondByte(entry: Entry, s: Bytes, code: Bytes, step: Step)
    requires !entry.At? && step.Emit? && |step.out| == 2 <= |s| == |code| && step.out == code[..2]
    requires Lex(step.next, s[2..]) == Ok(code[2..]) && After(entry) == step.next
    requires Enters(entry, s[1]) && Shown(entry, s[1]) == step.out[1]
    ensures CanEnter(entry, s[1..]) && LexAt(entry, s[1..]) == Ok(code[1..])
  {
    DropTwice(s, 1, 2);
    assert code[1..] == [code[1]] + code[2..] && code[1] == code[..2][1];
  }

  lemma DropTwice(s: Bytes, n: nat, i: nat)
    requires n <= i <= |s|
    ensures s[n..][i - n..] == s[i..]
  {
  }

  /** The entry on the second byte of a step that takes two. */
  lemma SecondOf(state: State, s: Bytes) returns (entry: Entry)
    requires |s| > 1 && StepOf(state, s).Emit? && |StepOf(state, s).out| == 2
    ensures !entry.At? && Enters(entry, s[1])
    ensures After(entry) == StepOf(state, s).next && Shown(entry, s[1]) == StepOf(state, s).out[1]
  {
    entry := match state
      case Code => if s[0] == LESS then InBlockOpening else InEscape
      case SingleQuoted => InDoubledQuote
      case DoubleQuoted => InStringEscape
      case _ => InBlockClosing;
  }

  /** Two views of a text agree, but for a last byte that the second view blanks. */
  ghost predicate Agree(s: Bytes, view: Bytes, code: Bytes) {
    && |view| == |s| <= |code|
    && forall k :: 0 <= k < |s| ==> code[k] == view[k] || (k == |s| - 1 && code[k] != s[k])
  }

  /** What a scan shows of a text is what the text shows on its own. */
  lemma {:induction false} GlanceAgrees(state: State, s: Bytes, rest: Bytes, code: Bytes)
    requires Lex(state, s + rest) == Ok(code)
    ensures Glance(state, s).Some? && Agree(s, Glance(state, s).value.0, code)
    decreases |s|
  {
    LexMasks(state, s + rest);
    if |s| >= 2 {
      var step := StepOf(state, s);
      StepAgrees(state, s, rest, code, step);
      GlanceAgrees(step.next, s[|step.out|..], rest, code[|step.out|..]);
      AgreeMore(s, step.out, Glance(step.next, s[|step.out|..]).value.0, code);
    } else if |s| == 1 {
      LastByteAgrees(state, s, rest);
      assert code[0] == StepOf(state, s + rest).out[0];
      assert s[|StepOf(state, s).out|..] == [];
    }
  }

  /** Two bytes decide a step. */
  lemma TwoDecide(state: State, s: Bytes, rest: Bytes)
    requires |s| >= 2
    ensures StepOf(state, s + rest) == StepOf(state, s)
  {
  }

  lemma StepAgrees(state: State, s: Bytes, rest: Bytes, code: Bytes, step: Step)
    requires |s| >= 2 && Lex(state, s + rest) == Ok(code) && step == StepOf(state, s)
    ensures step.Emit? && |step.out| <= |code| && code[..|step.out|] == step.out
    ensures Lex(step.next, s[|step.out|..] + rest) == Ok(code[|step.out|..])
  {
    TwoDecide(state, s, rest);
    assert (s + rest)[|step.out|..] == s[|step.out|..] + rest;
    var tail := Lex(step.next, s[|step.out|..] + rest).value;
    assert code == step.out + tail && code[|step.out|..] == tail;
  }

  lemma AgreeMore(s: Bytes, out: Bytes, view: Bytes, code: Bytes)
    requires 0 < |out| <= |s| && |out| <= |code| && code[..|out|] == out
    requires Agree(s[|out|..], view, code[|out|..])
    ensures Agree(s, out + view, code)
  {
    forall k | 0 <= k < |s| ensures code[k] == (out + view)[k] || (k == |s| - 1 && code[k] != s[k]) {
      if k < |out| {
        assert code[k] == code[..|out|][k];
      } else {
        assert code[k] == code[|out|..][k - |out|] && s[k] == s[|out|..][k - |out|];
      }
    }
  }

  lemma LastByteAgrees(state: State, s: Bytes, rest: Bytes)
    requires |s| == 1 && StepOf(state, s + rest).Emit?
    ensures var step := StepOf(state, s);
            step.Emit? && |step.out| == 1
                && (step.out == StepOf(state, s + rest).out[..1] || StepOf(state, s + rest).out[0] != s[0])
  {
    assert (s + rest)[0] == s[0];
  }

  lemma GlanceAtAgrees(entry: Entry, s: Bytes, rest: Bytes, code: Bytes)
    requires |s| > 1 && CanEnter(entry, s) && CanEnter(entry, s + rest) && LexAt(entry, s + rest) == Ok(code)
    ensures GlanceAt(entry, s).Some? && Agree(s, GlanceAt(entry, s).value.0, code)
  {
    if entry.At? {
      GlanceAgrees(entry.state, s, rest, code);
    } else {
      assert (s + rest)[1..] == s[1..] + rest;
      GlanceAgrees(After(entry), s[1..], rest, code[1..]);
    }
  }

  /** The entry at which two overlapping occurrences are reached, and their view. */
  lemma EntryOfOverlap(normalized: Bytes, code: Bytes, both: Bytes, first: nat, rest: Bytes) returns (entry: Entry)
    requires Scans(normalized, code)
    requires first < |normalized| && normalized[first..] == both + rest && |both| > 1
    ensures CanEnter(entry, both) && GlanceAt(entry, both).Some?
    ensures first <= |code| && Agree(both, GlanceAt(entry, both).value.0, code[first..])
  {
    entry := EntryOf(Code, normalized, first, code);
    assert (both + rest)[0] == both[0];
    GlanceAtAgrees(entry, both, rest, code[first..]);
  }

  /** Two overlapping copies, the first with its marker refused and the second with its marker shown. */
  ghost predicate RefusedPair(normalized: Bytes, code: Bytes, exact: Bytes, marker: Bytes, at: nat,
                              first: nat, offset: nat) {
    && OccursAt(normalized, first, exact) && !Accepts(code, first + at, marker)
    && OccursAt(normalized, offset, exact) && OccursAt(code, offset + at, marker)
    && first < offset < first + |exact|
  }

  /** A miss comes from an entry and a shift that hide the first marker only. */
  lemma MissMeansMisses(normalized: Bytes, code: Bytes, exact: Bytes, marker: Bytes, at: nat, first: nat, offset: nat)
    requires Scans(normalized, code)
    requires Valid(marker) && marker != [] && Find(exact, marker) == Some(at)
    requires RefusedPair(normalized, code, exact, marker, at, first, offset)
    ensures Misses(exact, marker)
  {
    var d := offset - first;
    var entry := EntryOfMiss(normalized, code, exact, first, offset);
    HidesAt(entry, Overlap(exact, d), code, first, exact, marker, d, at);
    NoReturn(normalized, exact, first);
    MissesIntro(entry, d, exact, marker, at);
  }

  /** The entry at which the first of two overlapping occurrences is reached. */
  lemma EntryOfMiss(normalized: Bytes, code: Bytes, exact: Bytes, first: nat, offset: nat) returns (entry: Entry)
    requires Scans(normalized, code)
    requires OccursAt(normalized, first, exact) && OccursAt(normalized, offset, exact)
    requires first < offset < first + |exact|
    ensures Border(exact, offset - first)
    ensures var both := Overlap(exact, offset - first);
            CanEnter(entry, both) && GlanceAt(entry, both).Some? && first <= |code|
            && Agree(both, GlanceAt(entry, both).value.0, code[first..])
  {
    OverlapIsBorder(normalized, exact, first, offset);
    OverlapStands(normalized, exact, first, offset);
    entry := EntryOfOverlap(normalized, code, Overlap(exact, offset - first), first, normalized[offset + |exact|..]);
  }

  /** A scan that agrees with the entry's view of the overlap and shows the second marker only. */
  lemma HidesAt(entry: Entry, both: Bytes, code: Bytes, first: nat, exact: Bytes, marker: Bytes, d: nat, at: nat)
    requires Border(exact, d) && both == Overlap(exact, d) && OccursAt(exact, at, marker)
    requires CanEnter(entry, both) && GlanceAt(entry, both).Some? && Valid(marker) && marker != []
    requires first <= |code| && Agree(both, GlanceAt(entry, both).value.0, code[first..])
    requires !Accepts(code, first + at, marker) && OccursAt(code, first + d + at, marker)
    ensures HidesFirstOnly(entry, d, exact, marker, at)
  {
    var view := GlanceAt(entry, both).value.0;
    ShowsSecond(both, view, code[first..], exact, marker, d, at, code, first);
    HidesFirst(both, view, code, first, exact, marker, d, at);
  }

  lemma NoReturn(hay: Bytes, s: Bytes, i: nat)
    requires RETURN !in hay && OccursAt(hay, i, s)
    ensures RETURN !in s
  {
    forall k | 0 <= k < |s| ensures s[k] != RETURN { OccursAtIndex(hay, i, s, k); }
  }

  lemma MissesIntro(entry: Entry, d: nat, exact: Bytes, marker: Bytes, at: nat)
    requires RETURN !in exact && Find(exact, marker) == Some(at) && Border(exact, d)
    requires HidesFirstOnly(entry, d, exact, marker, at)
    ensures Misses(exact, marker)
  {
    EntriesAreAll(entry);
    assert MissesAt(entry, d, exact, marker);
  }

  lemma OverlapIsBorder(hay: Bytes, s: Bytes, i: nat, j: nat)
    requires OccursAt(hay, i, s) && OccursAt(hay, j, s) && i < j < i + |s|
    ensures Border(s, j - i)
  {
    assert s[j - i..] == hay[j..i + |s|] == s[..|s| - (j - i)];
  }

  lemma OverlapStands(hay: Bytes, s: Bytes, i: nat, j: nat)
    requires OccursAt(hay, i, s) && OccursAt(hay, j, s) && i < j < i + |s|
    ensures hay[i..] == Overlap(s, j - i) + hay[j + |s|..]
  {
    var tail := hay[i..];
    assert tail == hay[i..j] + hay[j..j + |s|] + hay[j + |s|..];
    assert hay[i..j] == s[..j - i];
  }

  lemma ShowsSecond(both: Bytes, view: Bytes, tail: Bytes, exact: Bytes, marker: Bytes, d: nat, at: nat, code: Bytes,
          first: nat)
    requires Border(exact, d) && both == Overlap(exact, d) && first <= |code| && tail == code[first..]
    requires Agree(both, view, tail) && OccursAt(exact, at, marker) && OccursAt(code, first + d + at, marker)
    ensures OccursAt(view, d + at, marker)
  {
    forall k | 0 <= k < |marker| ensures view[d + at + k] == marker[k] {
      OccursAtIndex(exact, at, marker, k);
      OccursAtIndex(code, first + d + at, marker, k);
      assert both[d + at + k] == exact[at + k];
      assert tail[d + at + k] == code[first + d + at + k];
    }
    OccursAtIntro(view, d + at, marker);
  }

  lemma HidesFirst(both: Bytes, view: Bytes, code: Bytes, first: nat, exact: Bytes, marker: Bytes, d: nat, at: nat)
    requires Border(exact, d) && both == Overlap(exact, d) && first + |both| <= |code|
    requires Agree(both, view, code[first..]) && OccursAt(exact, at, marker) && Valid(marker) && marker != []
    requires !Accepts(code, first + at, marker)
    ensures !OccursAt(view, at, marker)
  {
    if OccursAt(view, at, marker) {
      forall k | 0 <= k < |marker| ensures code[first + at + k] == marker[k] {
        OccursAtIndex(view, at, marker, k);
        assert code[first..][at + k] == view[at + k];
      }
      OccursAtIntro(code, first + at, marker);
      MarkerBoundary(code, first + at, marker);
    }
  }

  lemma MarkerBoundary(code: Bytes, at: nat, marker: Bytes)
    requires Valid(marker) && marker != [] && OccursAt(code, at, marker)
    ensures Boundary(code, at)
  {
    var _, _ := FirstChar(marker);
    OccursAtIndex(code, at, marker, 0);
  }
}
