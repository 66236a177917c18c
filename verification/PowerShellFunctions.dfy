// "Executable exact" in a whole script and in one function of it: the answer, in
// terms of the bytes that were scanned as code.
module PowerShellFunctions {
  import opened Utf8
  import opened Wrappers
  import opened Substrings
  import opened PowerShellLexer
  import opened PowerShellViews
  import opened PowerShellSearch
  import opened PowerShellOverlap
  import opened PowerShellCompleteness

  lemma AlignedMasks(normalized: Bytes, code: Bytes, flags: seq<bool>)
    requires Aligned(normalized, code, flags)
    ensures Masks(normalized, code)
  {
  }

  /** What is flagged as code shows, and so does a blank. */
  lemma FlaggedShows(normalized: Bytes, code: Bytes, flags: seq<bool>, i: nat, marker: Bytes)
    requires Aligned(normalized, code, flags) && OccursAt(normalized, i, marker)
    requires forall k :: 0 <= k < |marker| && !Blanked(marker[k]) ==> flags[i + k]
    ensures OccursAt(code, i, marker)
  {
    forall k | 0 <= k < |marker| ensures code[i + k] == marker[k] { OccursAtIndex(normalized, i, marker, k); }
    OccursAtIntro(code, i, marker);
  }

  lemma MarkerInside(normalized: Bytes, exact: Bytes, marker: Bytes, offset: nat, at: nat)
    requires OccursAt(normalized, offset, exact) && OccursAt(exact, at, marker)
    ensures OccursAt(normalized, offset + at, marker)
  {
    forall k | 0 <= k < |marker| ensures normalized[offset + at + k] == marker[k] {
      OccursAtIndex(normalized, offset, exact, at + k);
      OccursAtIndex(exact, at, marker, k);
    }
    OccursAtIntro(normalized, offset + at, marker);
  }

  lemma ValidStartsCharacter(code: Bytes, i: nat, marker: Bytes)
    requires Valid(marker) && marker != [] && OccursAt(code, i, marker)
    ensures Boundary(code, i)
  {
    var _, _ := FirstChar(marker);
    OccursAtIndex(code, i, marker, 0);
  }

  /** The search accepts an occurrence whose marker was scanned as code. */
  lemma FlaggedIsShown(normalized: Bytes, code: Bytes, flags: seq<bool>, exact: Bytes, marker: Bytes, offset: nat)
    requires Aligned(normalized, code, flags) && Valid(exact) && exact != [] && Valid(marker)
    requires ExecutableText(normalized, flags, exact, marker, offset)
    ensures ExecutableAt(normalized, code, exact, marker, offset)
  {
    var at := Find(exact, marker).value;
    MarkerInside(normalized, exact, marker, offset, at);
    FlaggedShows(normalized, code, flags, offset + at, marker);
    MarkerStarts(normalized, code, flags, exact, marker, offset, at);
  }

  lemma MarkerStarts(normalized: Bytes, code: Bytes, flags: seq<bool>, exact: Bytes, marker: Bytes, offset: nat,
          at: nat)
    requires Aligned(normalized, code, flags) && Valid(exact) && exact != [] && Valid(marker)
    requires OccursAt(normalized, offset, exact) && OccursAt(code, offset + at, marker) && (marker == [] ==> at == 0)
    ensures Boundary(code, offset + at)
  {
    if marker == [] {
      AlignedMasks(normalized, code, flags);
      MaskedBoundary(normalized, code, exact, offset);
    } else {
      ValidStartsCharacter(code, offset + at, marker);
    }
  }

  /** An occurrence of the whole between two offsets, as an occurrence of the slice. */
  lemma WithinSlice(normalized: Bytes, flags: seq<bool>, start: nat, end: nat, exact: Bytes, marker: Bytes, offset: nat)
    requires start <= end <= |normalized| == |flags|
    requires LiesWithin(normalized, flags, exact, marker, start, end, offset)
    ensures ExecutableText(normalized[start..end], flags[start..end], exact, marker, offset - start)
  {
    var inner, at := offset - start, Find(exact, marker).value;
    SliceOfSlice(normalized, start, end, inner, inner + |exact|);
    forall k | 0 <= k < |marker| && !Blanked(marker[k])
      ensures flags[start..end][inner + at + k]
    {
      assert flags[offset + at + k];
    }
  }

  /** `offset` is an executable occurrence between the two offsets, and none lies in front of it. */
  ghost predicate IsFirst(normalized: Bytes, flags: seq<bool>, exact: Bytes, marker: Bytes, start: nat, end: nat,
                          offset: nat) {
    && LiesWithin(normalized, flags, exact, marker, start, end, offset)
    && forall other: nat :: LiesWithin(normalized, flags, exact, marker, start, end, other) ==> offset <= other
  }

  /** The search passes no executable occurrence of the slice. */
  lemma NoneWithinPassed(normalized: Bytes, code: Bytes, flags: seq<bool>, start: nat, end: nat, exact: Bytes,
          marker: Bytes, offset: nat)
    requires AreViews(normalized, code) && Aligned(normalized, code, flags) && start <= end <= |normalized|
    requires Valid(exact) && exact != [] && Valid(marker) && Find(exact, marker).Some? && !Misses(exact, marker)
    requires LiesWithin(normalized, flags, exact, marker, start, end, offset)
    ensures !Passes(ExactOffset(normalized[start..end], code[start..end], exact, marker), offset - start)
  {
    ShownInSlice(normalized, code, flags, start, end, exact, marker, offset);
    NonePassed(normalized, code, start, end, exact, marker, offset - start);
  }

  lemma ShownInSlice(normalized: Bytes, code: Bytes, flags: seq<bool>, start: nat, end: nat, exact: Bytes,
          marker: Bytes, offset: nat)
    requires Aligned(normalized, code, flags) && start <= end <= |normalized|
    requires Valid(exact) && exact != [] && Valid(marker) && Find(exact, marker).Some?
    requires LiesWithin(normalized, flags, exact, marker, start, end, offset)
    ensures ExecutableAt(normalized[start..end], code[start..end], exact, marker, offset - start)
  {
    AlignedSlices(normalized, code, flags, start, end);
    WithinSlice(normalized, flags, start, end, exact, marker, offset);
    FlaggedIsShown(normalized[start..end], code[start..end], flags[start..end], exact, marker, offset - start);
  }

  /** And what it returns is one. */
  lemma FoundIsWithin(normalized: Bytes, code: Bytes, flags: seq<bool>, start: nat, end: nat, exact: Bytes,
          marker: Bytes, found: nat)
    requires Aligned(normalized, code, flags) && start <= end <= |normalized|
    requires ExactOffset(normalized[start..end], code[start..end], exact, marker) == Some(found)
    ensures LiesWithin(normalized, flags, exact, marker, start, end, start + found)
  {
    AlignedSlices(normalized, code, flags, start, end);
    AcceptedIsExecutable(normalized[start..end], code[start..end], flags[start..end], exact, marker);
    WithinWhole(normalized, flags, start, end, exact, marker, found);
  }

  lemma FoundIfWithin(normalized: Bytes, code: Bytes, flags: seq<bool>, start: nat, end: nat, exact: Bytes,
          marker: Bytes)
    requires AreViews(normalized, code) && Aligned(normalized, code, flags) && start <= end <= |normalized|
    requires Valid(exact) && exact != [] && Valid(marker) && Find(exact, marker).Some? && !Misses(exact, marker)
    ensures ExecutableWithin(normalized, flags, exact, marker, start, end)
            ==> ExactOffset(normalized[start..end], code[start..end], exact, marker).Some?
  {
    if offset: nat :| LiesWithin(normalized, flags, exact, marker, start, end, offset) {
      NoneWithinPassed(normalized, code, flags, start, end, exact, marker, offset);
    }
  }

  lemma FoundIsFirst(normalized: Bytes, code: Bytes, flags: seq<bool>, start: nat, end: nat, exact: Bytes,
          marker: Bytes, found: nat)
    requires AreViews(normalized, code) && Aligned(normalized, code, flags) && start <= end <= |normalized|
    requires Valid(exact) && exact != [] && Valid(marker) && Find(exact, marker).Some? && !Misses(exact, marker)
    requires ExactOffset(normalized[start..end], code[start..end], exact, marker) == Some(found)
    ensures IsFirst(normalized, flags, exact, marker, start, end, start + found)
  {
    FoundIsWithin(normalized, code, flags, start, end, exact, marker, found);
    forall other: nat | LiesWithin(normalized, flags, exact, marker, start, end, other)
      ensures start + found <= other
    {
      NoneWithinPassed(normalized, code, flags, start, end, exact, marker, other);
    }
  }

  lemma EmptyIsFound(normalized: Bytes, code: Bytes)
    ensures ExactOffset(normalized, code, [], []) == Some(0)
  {
    assert OccursAt<Byte>([], 0, []) && OccursAt(normalized, 0, []) && OccursAt(code, 0, []);
    assert FindAccepted(normalized, code, [], [], 0, 0) == Some(0);
  }

  /**
   * In a whole script: where no overlap hides a marker the search finds something
   * exactly when an executable occurrence exists, and returns the first one. A marker
   * that the exact text does not hold is never found.
   */
  lemma InScriptExactly(views: Views, flags: seq<bool>, exact: Bytes, marker: Bytes)
    requires AreViews(views.normalized, views.code) && Aligned(views.normalized, views.code, flags)
    requires Valid(exact) && exact != [] && Valid(marker)
    ensures var found := ExactOffset(views.normalized, views.code, exact, marker);
            if Find(exact, marker).None? then found.None?
            else !Misses(exact, marker) ==>
              && (found.Some? <==> ExecutableWithin(views.normalized, flags, exact, marker, 0, |views.normalized|))
              && (found.Some? ==>
                    IsFirst(views.normalized, flags, exact, marker, 0, |views.normalized|, found.value))
  {
    var n := |views.normalized|;
    assert views.normalized[0..n] == views.normalized && views.code[0..n] == views.code;
    if Find(exact, marker).Some? && !Misses(exact, marker) {
      var found := ExactOffset(views.normalized, views.code, exact, marker);
      FoundIfWithin(views.normalized, views.code, flags, 0, n, exact, marker);
      if found.Some? {
        SliceIsExecutable(views, flags, 0, n, exact, marker);
        FoundIsFirst(views.normalized, views.code, flags, 0, n, exact, marker, found.value);
      }
    }
  }

  /**
   * In one function: once the function has a range there is an answer, and where no
   * overlap hides a marker it is true exactly when an executable occurrence lies
   * inside the range. A marker that the exact text does not hold is never found.
   */
  lemma InFunctionExactly(views: Views, flags: seq<bool>, name: Bytes, exact: Bytes, marker: Bytes)
    requires AreViews(views.normalized, views.code) && Aligned(views.normalized, views.code, flags)
    requires Valid(exact) && Valid(marker) && FunctionRange(views.code, name).Ok?
    ensures var (start, end) := FunctionRange(views.code, name).value;
            var r := ExactInFunction(views, name, exact, marker);
            && r.Ok?
            && (Find(exact, marker).None? ==> !r.value)
            && (Find(exact, marker).Some? && !Misses(exact, marker) ==>
                  (r.value <==> ExecutableWithin(views.normalized, flags, exact, marker, start, end)))
  {
    var (start, end) := FunctionRange(views.code, name).value;
    RangeCutsBoth(views, flags, name);
    if exact == [] && Find(exact, marker).Some? {
      assert marker == [];
      EmptyIsFound(views.normalized[start..end], views.code[start..end]);
      SliceIsExecutable(views, flags, start, end, exact, marker);
    } else if Find(exact, marker).Some? && !Misses(exact, marker) {
      FoundIfWithin(views.normalized, views.code, flags, start, end, exact, marker);
      if ExactOffset(views.normalized[start..end], views.code[start..end], exact, marker).Some? {
        SliceIsExecutable(views, flags, start, end, exact, marker);
      }
    }
  }
}
