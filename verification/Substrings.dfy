// Contiguous occurrences of one sequence in another: the vocabulary behind
// `str::find`, `slice::windows` and `str::match_indices`.
module Substrings {
  import opened Wrappers

  predicate OccursAt<T(==)>(hay: seq<T>, i: int, pat: seq<T>) {
    0 <= i && i + |pat| <= |hay| && hay[i..i + |pat|] == pat
  }

  ghost predicate Contains<T>(hay: seq<T>, pat: seq<T>) {
    exists i :: OccursAt(hay, i, pat)
  }

  /** The first occurrence at or after `i`, as `str::find` reports it. */
  function FindFrom<T(==)>(hay: seq<T>, i: nat, pat: seq<T>): (r: Option<nat>)
    ensures r.Some? ==> i <= r.value && OccursAt(hay, r.value, pat)
    ensures r.Some? ==> forall j :: i <= j < r.value ==> !OccursAt(hay, j, pat)
    ensures r.None? ==> forall j :: i <= j ==> !OccursAt(hay, j, pat)
    decreases |hay| - i
  {
    if |hay| < i + |pat| then None
    else if OccursAt(hay, i, pat) then Some(i)
    else FindFrom(hay, i + 1, pat)
  }

  function Find<T(==)>(hay: seq<T>, pat: seq<T>): (r: Option<nat>)
    ensures r.Some? <==> Contains(hay, pat)
    ensures r.Some? ==> OccursAt(hay, r.value, pat)
    ensures r.Some? ==> forall j :: 0 <= j < r.value ==> !OccursAt(hay, j, pat)
  {
    FindFrom(hay, 0, pat)
  }

  /** An occurrence read byte by byte. */
  lemma OccursAtIndex<T>(hay: seq<T>, i: int, pat: seq<T>, k: int)
    requires OccursAt(hay, i, pat)
    requires 0 <= k < |pat|
    ensures hay[i + k] == pat[k]
  {
    assert hay[i..i + |pat|][k] == pat[k];
  }

  lemma OccursAtIntro<T>(hay: seq<T>, i: int, pat: seq<T>)
    requires 0 <= i && i + |pat| <= |hay|
    requires forall k :: 0 <= k < |pat| ==> hay[i + k] == pat[k]
    ensures OccursAt(hay, i, pat)
  {
    assert hay[i..i + |pat|] == pat;
  }
}
