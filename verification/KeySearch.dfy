// The search loop of `verify_updater_embedded_key`: the desktop binary is read
// in chunks, and only the tail that could still begin an occurrence is kept.
module KeySearch {
  import opened Sequences
  import opened Wrappers
  import opened Substrings
  import opened Utf8

  type Bytes = seq<Byte>

  /** The outcome of one `read` call; an empty chunk is the end of the file. */
  datatype Read = Chunk(bytes: Bytes) | Failed

  datatype SearchError = ReadFailed | NotEmbedded

  predicate Stops(read: Read) { read.Failed? || read.bytes == [] }

  /** All bytes delivered before the end of the file or the first failure. */
  ghost function Delivered(input: seq<Read>): Bytes {
    if input == [] || Stops(input[0]) then [] else input[0].bytes + Delivered(input[1..])
  }

  ghost predicate EndsInFailure(input: seq<Read>) {
    input != [] && (if Stops(input[0]) then input[0].Failed? else EndsInFailure(input[1..]))
  }

  ghost function Reads(chunks: seq<Bytes>): seq<Read> {
    seq(|chunks|, i requires 0 <= i < |chunks| => Chunk(chunks[i]))
  }

  ghost function Joined(chunks: seq<Bytes>): Bytes { if chunks == [] then [] else chunks[0] + Joined(chunks[1..]) }

  /** A file read in any non-empty chunks, up to its end or a failure, is delivered whole; nothing behind that is. */
  lemma {:induction false} DeliveredInChunks(chunks: seq<Bytes>, end: Read, behind: seq<Read>)
    requires (forall chunk <- chunks :: chunk != []) && (end == Chunk([]) || end == Failed)
    ensures Delivered(Reads(chunks) + [end] + behind) == Joined(chunks)
    ensures EndsInFailure(Reads(chunks) + [end] + behind) <==> end == Failed
  {
    var input := Reads(chunks) + [end] + behind;
    if chunks != [] {
      assert chunks[0] in chunks && forall chunk <- chunks[1..] :: chunk in chunks;
      DeliveredInChunks(chunks[1..], end, behind);
      assert Reads(chunks) == [Chunk(chunks[0])] + Reads(chunks[1..]);
      assert input[1..] == Reads(chunks[1..]) + [end] + behind;
    }
  }

  /** `seen`'s last `n` bytes. */
  ghost function Last(seen: Bytes, n: nat): Bytes
    requires n <= |seen|
  {
    seen[|seen| - n..]
  }

  /** What the loop keeps: a tail one byte shorter than the key, or everything so far. */
  ghost predicate Retains(overlap: Bytes, seen: Bytes, key: Bytes)
    requires key != []
  {
    !Contains(seen, key) && overlap == Last(seen, Min(|key| - 1, |seen|))
  }

  /** Occurrences move with what stands in front of them. */
  lemma OccursBehind(front: Bytes, back: Bytes, i: nat, key: Bytes)
    ensures OccursAt(front + back, |front| + i, key) <==> OccursAt(back, i, key)
  {
    if i + |key| <= |back| {
      assert (front + back)[|front| + i..|front| + i + |key|] == back[i..i + |key|];
    }
  }

  lemma OccursBefore(seen: Bytes, chunk: Bytes, i: nat, key: Bytes)
    requires i + |key| <= |seen|
    ensures OccursAt(seen + chunk, i, key) <==> OccursAt(seen, i, key)
  {
    assert (seen + chunk)[i..i + |key|] == seen[i..i + |key|];
  }

  /** A key that is new in `seen + chunk` lies within the retained tail and the chunk. */
  lemma NewOccurrenceIsNear(seen: Bytes, chunk: Bytes, overlap: Bytes, key: Bytes)
    requires key != [] && Retains(overlap, seen, key)
    ensures Contains(seen + chunk, key) <==> Contains(overlap + chunk, key)
  {
    var front, near := seen[..|seen| - |overlap|], overlap + chunk;
    assert seen + chunk == front + near;
    if Contains(near, key) {
      var i :| OccursAt(near, i, key);
      OccursBehind(front, near, i, key);
      assert OccursAt(seen + chunk, |front| + i, key);
    }
    if Contains(seen + chunk, key) {
      var i :| OccursAt(seen + chunk, i, key);
      if i + |key| <= |seen| {
        OccursBefore(seen, chunk, i, key);
      }
      assert i >= |front|;
      OccursBehind(front, near, i - |front|, key);
      assert OccursAt(near, i - |front|, key);
    }
  }

  lemma TailOfTail(seen: Bytes, chunk: Bytes, overlap: Bytes, key: Bytes)
    requires key != [] && Retains(overlap, seen, key)
    ensures var n := Min(|key| - 1, |overlap + chunk|);
            n == Min(|key| - 1, |seen + chunk|) && Last(overlap + chunk, n) == Last(seen + chunk, n)
  {
    var n := Min(|key| - 1, |overlap + chunk|);
    assert seen + chunk == seen[..|seen| - |overlap|] + (overlap + chunk);
    assert n == Min(|key| - 1, |seen + chunk|);
  }

  lemma {:induction false} DeliveredContains(seen: Bytes, input: seq<Read>, key: Bytes)
    requires Contains(seen, key)
    ensures Contains(seen + Delivered(input), key)
  {
    var i :| OccursAt(seen, i, key);
    assert (seen + Delivered(input))[i..i + |key|] == seen[i..i + |key|];
    assert OccursAt(seen + Delivered(input), i, key);
  }

  /** `overlap.windows(|key|).any(|candidate| candidate == key)`. */
  method AnyWindow(overlap: Bytes, key: Bytes) returns (found: bool)
    requires key != []
    ensures found <==> Contains(overlap, key)
  {
    var i := 0;
    while i + |key| <= |overlap|
      invariant forall j :: 0 <= j < i ==> !OccursAt(overlap, j, key)
    {
      if overlap[i..i + |key|] == key {
        assert OccursAt(overlap, i, key);
        return true;
      }
      i := i + 1;
    }
    return false;
  }

  /**
   * However `read` splits the file, the search succeeds exactly when the key
   * is contiguous in what was delivered; otherwise it reports a read failure if
   * there was one before the end.
   */
  method VerifyEmbeddedKey(input: seq<Read>, key: Bytes) returns (r: Result<(), SearchError>)
    requires key != []
    ensures r.Ok? <==> Contains(Delivered(input), key)
    ensures r.Err? ==> (r.error.ReadFailed? <==> EndsInFailure(input))
  {
    var overlap: Bytes := [];
    ghost var seen: Bytes := [];
    var next := 0;
    assert input[0..] == input && [] + Delivered(input) == Delivered(input);
    while next < |input|
      invariant 0 <= next <= |input|
      invariant Retains(overlap, seen, key)
      invariant Delivered(input) == seen + Delivered(input[next..])
      invariant EndsInFailure(input) == EndsInFailure(input[next..])
    {
      var read := input[next];
      assert Stops(read) ==> Delivered(input) == seen;
      assert input[next..][1..] == input[next + 1..];
      next := next + 1;
      if read.Failed? {
        return Err(ReadFailed);
      }
      if read.bytes == [] {
        return Err(NotEmbedded);
      }
      NewOccurrenceIsNear(seen, read.bytes, overlap, key);
      TailOfTail(seen, read.bytes, overlap, key);
      assert seen + (read.bytes + Delivered(input[next..])) == seen + read.bytes + Delivered(input[next..]);
      overlap := overlap + read.bytes;
      seen := seen + read.bytes;
      var found := AnyWindow(overlap, key);
      if found {
        DeliveredContains(seen, input[next..], key);
        return Ok(());
      }
      var retained := Min(|key| - 1, |overlap|);
      overlap := overlap[|overlap| - retained..];
    }
    assert Delivered(input) == seen;
    return Err(NotEmbedded);
  }
}
