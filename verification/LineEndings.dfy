// `replace("\r\n", "\n").replace('\r', "\n")`, the newline normalisation that
// the PowerShell scanner and the licence inventory share. Both sources apply
// it to text, one viewed as bytes and one as characters, so the two control
// symbols are parameters.
module LineEndings {
  /** First pass: every CR LF pair becomes LF. */
  function ReplaceCrLf<T(==)>(s: seq<T>, cr: T, lf: T): seq<T> {
    if s == [] then []
    else if |s| > 1 && s[0] == cr && s[1] == lf then [lf] + ReplaceCrLf(s[2..], cr, lf)
    else [s[0]] + ReplaceCrLf(s[1..], cr, lf)
  }

  /** Second pass: every remaining CR becomes LF. */
  function ReplaceCr<T(==)>(s: seq<T>, cr: T, lf: T): (r: seq<T>)
    ensures |r| == |s|
    ensures forall i :: 0 <= i < |s| ==> r[i] == if s[i] == cr then lf else s[i]
  {
    if s == [] then [] else [if s[0] == cr then lf else s[0]] + ReplaceCr(s[1..], cr, lf)
  }

  function Normalize<T(==)>(s: seq<T>, cr: T, lf: T): seq<T> {
    ReplaceCr(ReplaceCrLf(s, cr, lf), cr, lf)
  }

  /** What the two passes mean: one scan in which LF, CR LF and CR each end a line. */
  ghost function Unified<T>(s: seq<T>, cr: T, lf: T): seq<T> {
    if s == [] then []
    else if s[0] != cr then [s[0]] + Unified(s[1..], cr, lf)
    else if |s| > 1 && s[1] == lf then [lf] + Unified(s[2..], cr, lf)
    else [lf] + Unified(s[1..], cr, lf)
  }

  lemma {:induction false} TwoPassesAreOne<T>(s: seq<T>, cr: T, lf: T)
    requires cr != lf
    ensures Normalize(s, cr, lf) == Unified(s, cr, lf)
    decreases |s|
  {
    if s != [] {
      var k := if |s| > 1 && s[0] == cr && s[1] == lf then 2 else 1;
      TwoPassesAreOne(s[k..], cr, lf);
    }
  }

  lemma {:induction false} NormalizeRemovesCr<T>(s: seq<T>, cr: T, lf: T)
    requires cr != lf
    ensures cr !in Normalize(s, cr, lf)
    ensures |Normalize(s, cr, lf)| <= |s|
    decreases |s|
  {
    if s != [] {
      NormalizeRemovesCr(if |s| > 1 && s[0] == cr && s[1] == lf then s[2..] else s[1..], cr, lf);
    }
  }

  lemma {:induction false} NormalizeKeepsCrFree<T>(s: seq<T>, cr: T, lf: T)
    requires cr !in s
    ensures Normalize(s, cr, lf) == s
  {
    if s != [] {
      NormalizeKeepsCrFree(s[1..], cr, lf);
    }
  }

  lemma NormalizeIdempotent<T>(s: seq<T>, cr: T, lf: T)
    requires cr != lf
    ensures Normalize(Normalize(s, cr, lf), cr, lf) == Normalize(s, cr, lf)
  {
    NormalizeRemovesCr(s, cr, lf);
    NormalizeKeepsCrFree(Normalize(s, cr, lf), cr, lf);
  }

  /** The text with every LF written as `ending`. */
  ghost function WithEnding<T>(s: seq<T>, lf: T, ending: seq<T>): seq<T> {
    if s == [] then []
    else (if s[0] == lf then ending else [s[0]]) + WithEnding(s[1..], lf, ending)
  }

  /** The LF, CR LF and CR versions of a text all normalise to the LF version. */
  lemma {:induction false} EndingsAgree<T>(s: seq<T>, cr: T, lf: T, ending: seq<T>)
    requires cr != lf && cr !in s
    requires ending == [lf] || ending == [cr, lf] || ending == [cr]
    ensures Normalize(WithEnding(s, lf, ending), cr, lf) == s
  {
    TwoPassesAreOne(WithEnding(s, lf, ending), cr, lf);
    UnifiedEnding(s, cr, lf, ending);
  }

  lemma {:induction false} UnifiedEnding<T>(s: seq<T>, cr: T, lf: T, ending: seq<T>)
    requires cr != lf && cr !in s
    requires ending == [lf] || ending == [cr, lf] || ending == [cr]
    ensures Unified(WithEnding(s, lf, ending), cr, lf) == s
  {
    if s != [] {
      UnifiedEnding(s[1..], cr, lf, ending);
      var tail := WithEnding(s[1..], lf, ending);
      var whole := WithEnding(s, lf, ending);
      if s[0] == lf {
        assert whole == ending + tail;
        assert whole[|ending|..] == tail;
        if ending == [cr] && tail != [] {
          EndingNeverStartsWithLf(s[1..], cr, lf);
        }
      } else {
        assert whole[1..] == tail;
      }
      assert Unified(whole, cr, lf) == [s[0]] + s[1..];
    }
  }

  lemma EndingNeverStartsWithLf<T>(s: seq<T>, cr: T, lf: T)
    requires cr != lf && WithEnding(s, lf, [cr]) != []
    ensures WithEnding(s, lf, [cr])[0] != lf
  {
  }
}
