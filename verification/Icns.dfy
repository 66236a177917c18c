// `canonical_icns`: the entries of an Apple icon container, sorted.
module Icns {
  import opened Wrappers
  import opened Utf8
  import opened Sorting

  type Bytes = seq<Byte>

  datatype IcnsError =
    | InvalidContainer
    | InvalidEntry
    | ShortEntry   // fewer than eight bytes left, where `struct.unpack` raises

  type Parsed = Result<seq<Chunk>, IcnsError>

  /** An entry and its four-byte kind, the pair that is sorted. */
  datatype Chunk = Chunk(kind: Bytes, entry: Bytes)

  const MAGIC: Bytes := [105, 99, 110, 115]  // "icns"

  lemma MagicSpells()
    ensures Spells(MAGIC, "icns")
  {
  }

  /** `int.from_bytes(s, "big")`, for any number of bytes. */
  function BigEndian(s: Bytes): nat {
    if s == [] then 0 else 256 * BigEndian(s[..|s| - 1]) + s[|s| - 1]
  }

  /** Python's `s[from:to]`, which stops at the end of `s`. */
  function Slice(s: Bytes, from: nat, to: nat): Bytes {
    var end := if to < |s| then to else |s|;
    if from <= end then s[from..end] else []
  }

  predicate Header(content: Bytes) {
    Slice(content, 0, 4) == MAGIC && BigEndian(Slice(content, 4, 8)) == |content|
  }

  /** An entry states its own length, which includes the eight bytes of its header. */
  predicate WellFormed(entry: Bytes) {
    |entry| >= 8 && BigEndian(entry[4..8]) == |entry|
  }

  function ChunkOf(entry: Bytes): Chunk
    requires WellFormed(entry)
  {
    Chunk(entry[..4], entry)
  }

  predicate WellFormedChunks(chunks: seq<Chunk>) {
    forall chunk <- chunks :: WellFormed(chunk.entry) && chunk == ChunkOf(chunk.entry)
  }

  function Concat(chunks: seq<Chunk>): Bytes {
    if chunks == [] then [] else chunks[0].entry + Concat(chunks[1..])
  }

  // ----- the scan

  function Add(chunk: Chunk, rest: Parsed): Parsed {
    match rest
    case Ok(chunks) => Ok([chunk] + chunks)
    case Err(_) => rest
  }

  /** The entries of `body`, from left to right. */
  function Parse(body: Bytes): Parsed {
    if body == [] then Ok([])
    else if |body| < 8 then Err(ShortEntry)
    else
      var length := BigEndian(body[4..8]);
      if length < 8 || length > |body| then Err(InvalidEntry)
      else Add(Chunk(body[..4], body[..length]), Parse(body[length..]))
  }

  /** Python compares tuples item by item. */
  predicate ChunkLeq(a: Chunk, b: Chunk) {
    if a.kind == b.kind then LexLeq(a.entry, b.entry) else LexLeq(a.kind, b.kind)
  }

  function Canonical(content: Bytes): Result<Bytes, IcnsError> {
    if !Header(content) then Err(InvalidContainer)
    else
      match Parse(Slice(content, 8, |content|))
      case Err(e) => Err(e)
      case Ok(chunks) => Ok(Slice(content, 0, 8) + Concat(Sort(ChunkLeq, chunks)))
  }

  lemma {:induction false} AddParsed(chunks: seq<Chunk>, chunk: Chunk, rest: Parsed)
    ensures AddAll(chunks, Add(chunk, rest)) == AddAll(chunks + [chunk], rest)
  {
    if rest.Ok? {
      assert chunks + ([chunk] + rest.value) == chunks + [chunk] + rest.value;
    }
  }

  function AddAll(chunks: seq<Chunk>, rest: Parsed): Parsed {
    match rest
    case Ok(more) => Ok(chunks + more)
    case Err(_) => rest
  }

  lemma AddNothing(parsed: Parsed)
    ensures AddAll([], parsed) == parsed
  {
    if parsed.Ok? {
      assert [] + parsed.value == parsed.value;
    }
  }

  ghost function From(content: Bytes, offset: nat): Bytes { Slice(content, offset, |content|) }

  /** One step of the parser, with the length field and its value named. */
  lemma ParseStep(body: Bytes, field: Bytes, length: nat)
    requires |body| >= 8 && field == body[4..8] && length == BigEndian(field)
    ensures Parse(body) == if length < 8 || length > |body| then Err(InvalidEntry)
                           else Add(Chunk(body[..4], body[..length]), Parse(body[length..]))
  {
  }

  lemma PartsOfRest(content: Bytes, offset: nat, length: nat)
    requires offset < |content| && 8 <= length <= |content| - offset
    ensures From(content, offset)[..4] == content[offset..offset + 4]
    ensures From(content, offset)[..length] == content[offset..offset + length]
    ensures From(content, offset)[length..] == From(content, offset + length)
  {
    PartOfRest(content, offset, 0, 4);
    PartOfRest(content, offset, 0, length);
    PartOfRest(content, offset, length, |content| - offset);
  }

  lemma PartOfRest(content: Bytes, offset: nat, a: nat, b: nat)
    requires offset < |content| && a <= b <= |content| - offset
    ensures From(content, offset)[a..b] == content[offset + a..offset + b]
  {
    var part, direct := From(content, offset)[a..b], content[offset + a..offset + b];
    assert From(content, offset) == content[offset..];
    forall k | 0 <= k < b - a
      ensures part[k] == direct[k]
    {
      assert part[k] == content[offset..][a + k];
    }
    assert part == direct;
  }

  /** What the loop keeps: the chunks read so far, put in front of what is still to be parsed. */
  ghost predicate ReadSoFar(parsed: Parsed, content: Bytes, offset: nat, chunks: seq<Chunk>) {
    8 <= offset && parsed == AddAll(chunks, Parse(From(content, offset)))
  }

  lemma EntryRead(parsed: Parsed, content: Bytes, offset: nat, chunks: seq<Chunk>, field: Bytes, length: nat)
    requires ReadSoFar(parsed, content, offset, chunks) && offset + 8 <= |content|
    requires field == content[offset + 4..offset + 8] && length == BigEndian(field)
    ensures if length < 8 || offset + length > |content| then parsed == Err(InvalidEntry)
            else ReadSoFar(parsed, content, offset + length,
                           chunks + [Chunk(content[offset..offset + 4], content[offset..offset + length])])
  {
    PartOfRest(content, offset, 4, 8);
    ParseStep(From(content, offset), field, length);
    if 8 <= length <= |content| - offset {
      PartsOfRest(content, offset, length);
      AddParsed(chunks, Chunk(content[offset..offset + 4], content[offset..offset + length]),
          Parse(From(content, offset + length)));
    }
  }

  lemma ShortRead(parsed: Parsed, content: Bytes, offset: nat, chunks: seq<Chunk>)
    requires ReadSoFar(parsed, content, offset, chunks) && offset < |content| < offset + 8
    ensures parsed == Err(ShortEntry)
  {
  }

  lemma AllRead(parsed: Parsed, content: Bytes, offset: nat, chunks: seq<Chunk>)
    requires ReadSoFar(parsed, content, offset, chunks) && offset >= |content|
    ensures parsed == Ok(chunks)
  {
    assert From(content, offset) == [] && chunks + [] == chunks;
  }

  /** The function as written: an offset moved over the content, a growing list of chunks, a sort, a join. */
  method CanonicalIcns(content: Bytes) returns (r: Result<Bytes, IcnsError>)
    ensures r == Canonical(content)
  {
    if Slice(content, 0, 4) != MAGIC || BigEndian(Slice(content, 4, 8)) != |content| {
      return Err(InvalidContainer);
    }
    var parsed := Chunks(content);
    match parsed {
      case Err(e) => return Err(e);
      case Ok(entries) => return Ok(Slice(content, 0, 8) + Concat(Sort(ChunkLeq, entries)));
    }
  }

  /** The loop over the entries behind the header. */
  method Chunks(content: Bytes) returns (r: Parsed)
    ensures r == Parse(From(content, 8))
  {
    AddNothing(Parse(From(content, 8)));
    r := ReadChunks(content, Parse(From(content, 8)));
  }

  method ReadChunks(content: Bytes, ghost parsed: Parsed) returns (r: Parsed)
    requires ReadSoFar(parsed, content, 8, [])
    ensures r == parsed
  {
    var chunks: seq<Chunk> := [];
    var offset := 8;
    while offset < |content|
      invariant ReadSoFar(parsed, content, offset, chunks)
      decreases |content| - offset
    {
      var entry, next := ReadEntry(content, offset, parsed, chunks);
      if entry.Err? {
        return Err(entry.error);
      }
      chunks := chunks + [entry.value];
      offset := next;
    }
    AllRead(parsed, content, offset, chunks);
    return Ok(chunks);
  }

  /** One turn of the loop: the entry at `offset`, or what is wrong with it. */
  method ReadEntry(content: Bytes, offset: nat, ghost parsed: Parsed, ghost chunks: seq<Chunk>)
    returns (r: Result<Chunk, IcnsError>, next: nat)
    requires ReadSoFar(parsed, content, offset, chunks) && offset < |content|
    ensures r.Err? ==> parsed == Err(r.error)
    ensures r.Ok? ==> next > offset && ReadSoFar(parsed, content, next, chunks + [r.value])
  {
    if |content| - offset < 8 {
      ShortRead(parsed, content, offset, chunks);
      return Err(ShortEntry), offset;
    }
    var kind, field := content[offset..offset + 4], content[offset + 4..offset + 8];
    var length := BigEndian(field);
    EntryRead(parsed, content, offset, chunks, field, length);
    if length < 8 || offset + length > |content| {
      return Err(InvalidEntry), offset;
    }
    return Ok(Chunk(kind, content[offset..offset + length])), offset + length;
  }

  // ----- parsing inverts concatenation

  lemma EntryInFront(entry: Bytes, rest: Bytes)
    requires |entry| >= 8
    ensures var body := entry + rest;
            && body[..4] == entry[..4] && body[4..8] == entry[4..8]
            && body[..|entry|] == entry && body[|entry|..] == rest
  {
  }

  lemma {:induction false} ParseConcat(chunks: seq<Chunk>)
    requires WellFormedChunks(chunks)
    ensures Parse(Concat(chunks)) == Ok(chunks)
  {
    if chunks != [] {
      assert chunks[0] in chunks;
      ParseConcat(chunks[1..]);
      ParseEntry(chunks[0].entry, Concat(chunks[1..]));
      assert chunks == [chunks[0]] + chunks[1..];
    }
  }

  lemma ParseEntry(entry: Bytes, rest: Bytes)
    requires WellFormed(entry)
    ensures Parse(entry + rest) == Add(ChunkOf(entry), Parse(rest))
  {
    EntryInFront(entry, rest);
  }

  lemma {:induction false} ParsedIsConcat(body: Bytes)
    requires Parse(body).Ok?
    ensures WellFormedChunks(Parse(body).value) && Concat(Parse(body).value) == body
  {
    if body != [] {
      var length := BigEndian(body[4..8]);
      var entry, rest := body[..length], body[length..];
      ParsedIsConcat(rest);
      assert body == entry + rest;
      EntryInFront(entry, rest);
      var tail := Parse(rest).value;
      assert Parse(body).value == [ChunkOf(entry)] + tail;
      assert ([ChunkOf(entry)] + tail)[1..] == tail;
    }
  }

  // ----- the order

  lemma ChunkOrder()
    ensures TotalOrder(ChunkLeq)
  {
    LexTotal();
    forall a: Chunk, b: Chunk ensures ChunkLeq(a, b) || ChunkLeq(b, a) {
      LexConnected(a.kind, b.kind);
      LexConnected(a.entry, b.entry);
    }
    forall a: Chunk, b: Chunk | ChunkLeq(a, b) && ChunkLeq(b, a) ensures a == b {
      if a.kind != b.kind { LexAntiSymmetric(a.kind, b.kind); } else { LexAntiSymmetric(a.entry, b.entry); }
    }
    forall a: Chunk, b: Chunk, c: Chunk | ChunkLeq(a, b) && ChunkLeq(b, c) ensures ChunkLeq(a, c) {
      ChunkTransitive(a, b, c);
    }
  }

  lemma ChunkTransitive(a: Chunk, b: Chunk, c: Chunk)
    requires ChunkLeq(a, b) && ChunkLeq(b, c)
    ensures ChunkLeq(a, c)
  {
    if a.kind == b.kind == c.kind {
      LexTransitive(a.entry, b.entry, c.entry);
    } else if a.kind != b.kind && b.kind != c.kind {
      LexTransitive(a.kind, b.kind, c.kind);
      if a.kind == c.kind {
        LexAntiSymmetric(a.kind, b.kind);
      }
    }
  }

  lemma SortChunks(chunks: seq<Chunk>)
    requires WellFormedChunks(chunks)
    ensures var sorted := Sort(ChunkLeq, chunks);
            && WellFormedChunks(sorted) && SortedBy(ChunkLeq, sorted)
            && multiset(sorted) == multiset(chunks)
            && Sort(ChunkLeq, sorted) == sorted
  {
    var sorted := Sort(ChunkLeq, chunks);
    ChunkOrder();
    SortContents(ChunkLeq, chunks);
    SortSorted(ChunkLeq, chunks);
    SortContents(ChunkLeq, sorted);
    SortSorted(ChunkLeq, sorted);
    SortedIsUnique(ChunkLeq, Sort(ChunkLeq, sorted), sorted);
    forall chunk | chunk in sorted
      ensures chunk in chunks
    {
      assert chunk in multiset(sorted);
    }
  }

  ghost function TotalLength(contents: multiset<Chunk>): nat {
    if contents == multiset{} then 0
    else
      var chunk :| chunk in contents;
      |chunk.entry| + TotalLength(contents - multiset{chunk})
  }

  /** Removing any one chunk takes its length away, whichever chunk the definition picks. */
  lemma {:induction false} TotalLengthPicks(contents: multiset<Chunk>, chunk: Chunk)
    requires chunk in contents
    ensures TotalLength(contents) == |chunk.entry| + TotalLength(contents - multiset{chunk})
    decreases |contents|
  {
    var picked :| picked in contents
        && TotalLength(contents) == |picked.entry| + TotalLength(contents - multiset{picked});
    if picked != chunk {
      TwoRemoved(contents, picked, chunk);
      TotalLengthPicks(contents - multiset{picked}, chunk);
      TotalLengthPicks(contents - multiset{chunk}, picked);
    }
  }

  lemma TwoRemoved(contents: multiset<Chunk>, a: Chunk, b: Chunk)
    requires a in contents && b in contents && a != b
    ensures b in contents - multiset{a} && a in contents - multiset{b}
    ensures contents - multiset{a} - multiset{b} == contents - multiset{b} - multiset{a}
  {
  }

  lemma {:induction false} ConcatLength(chunks: seq<Chunk>)
    ensures |Concat(chunks)| == TotalLength(multiset(chunks))
  {
    if chunks != [] {
      ConcatLength(chunks[1..]);
      assert chunks == [chunks[0]] + chunks[1..];
      TotalLengthPicks(multiset(chunks), chunks[0]);
      assert multiset(chunks) - multiset{chunks[0]} == multiset(chunks[1..]);
    }
  }

  // ----- containers

  /** Which contents are accepted: a true header over well-formed entries, or a header cut off after its length. */
  ghost predicate Container(content: Bytes, chunks: seq<Chunk>) {
    && Header(content) && WellFormedChunks(chunks)
    && content == Slice(content, 0, 8) + Concat(chunks)
  }

  lemma AcceptsExactlyContainers(content: Bytes)
    ensures Canonical(content).Ok? <==> exists chunks :: Container(content, chunks)
    ensures forall chunks :: Container(content, chunks) ==>
              Canonical(content) == Ok(Slice(content, 0, 8) + Concat(Sort(ChunkLeq, chunks)))
  {
    var body := Slice(content, 8, |content|);
    assert content == Slice(content, 0, 8) + body;
    forall chunks | Container(content, chunks)
      ensures Canonical(content) == Ok(Slice(content, 0, 8) + Concat(Sort(ChunkLeq, chunks)))
    {
      ParseConcat(chunks);
      assert Concat(chunks) == body;
    }
    if Canonical(content).Ok? {
      ParsedIsConcat(body);
      assert Container(content, Parse(body).value);
    }
  }

  /** The output is a container of the same length, with the same header and the same entries, sorted. */
  lemma OutputIsSortedContainer(content: Bytes, chunks: seq<Chunk>)
    requires Container(content, chunks)
    ensures Canonical(content).Ok?
    ensures var output, sorted := Canonical(content).value, Sort(ChunkLeq, chunks);
            && |output| == |content| && Slice(output, 0, 8) == Slice(content, 0, 8)
            && Container(output, sorted)
            && multiset(sorted) == multiset(chunks) && SortedBy(ChunkLeq, sorted)
            && forall i, j :: 0 <= i < j < |sorted| ==>
                 sorted[i].entry == sorted[j].entry || Smaller(sorted[i].entry, sorted[j].entry)
  {
    AcceptsExactlyContainers(content);
    SortChunks(chunks);
    var output, sorted := Canonical(content).value, Sort(ChunkLeq, chunks);
    ConcatLength(chunks);
    ConcatLength(sorted);
    SameHeader(content, output);
    forall i, j | 0 <= i < j < |sorted|
      ensures sorted[i].entry == sorted[j].entry || Smaller(sorted[i].entry, sorted[j].entry)
    {
      assert sorted[i] in sorted && sorted[j] in sorted;
      EntriesDecide(sorted[i], sorted[j]);
    }
  }

  /** Kinds start the entries, so the pairs are in the order of the entries' bytes. */
  lemma EntriesDecide(a: Chunk, b: Chunk)
    requires |a.entry| >= 8 && |b.entry| >= 8 && a.kind == a.entry[..4] && b.kind == b.entry[..4]
    ensures ChunkLeq(a, b) <==> a.entry == b.entry || Smaller(a.entry, b.entry)
  {
    LexExactly(a.entry, b.entry);
    if a.kind != b.kind {
      LexExactly(a.kind, b.kind);
      if k: nat :| SmallerAt(a.kind, b.kind, k) {
        KindDiffers(a.entry, b.entry, k);
      }
      if k: nat :| SmallerAt(a.entry, b.entry, k) {
        EntryDiffers(a.entry, b.entry, k);
      }
    }
  }

  lemma KindDiffers(a: Bytes, b: Bytes, k: nat)
    requires |a| >= 8 && |b| >= 8 && SmallerAt(a[..4], b[..4], k)
    ensures SmallerAt(a, b, k)
  {
    assert a[..k] == a[..4][..k] && b[..k] == b[..4][..k];
  }

  lemma EntryDiffers(a: Bytes, b: Bytes, k: nat)
    requires |a| >= 8 && |b| >= 8 && a[..4] != b[..4] && SmallerAt(a, b, k)
    ensures SmallerAt(a[..4], b[..4], k)
  {
    if k >= 4 {
      CommonPrefix(a, b, k, 3);
    } else {
      assert a[..k] == a[..4][..k] && b[..k] == b[..4][..k];
    }
  }

  /** Four bytes, the most significant first. */
  lemma FourBytes(s: Bytes)
    requires |s| == 4
    ensures BigEndian(s) == 0x100_0000 * (s[0] as int) + 0x1_0000 * (s[1] as int) + 0x100 * (s[2] as int) + s[3] as int
  {
    assert s[..3][..2] == s[..2] && s[..2][..1] == s[..1] && s[..1][..0] == [];
    assert BigEndian(s[..1]) == s[0] as int;
    assert BigEndian(s[..2]) == 0x100 * (s[0] as int) + s[1] as int;
    assert BigEndian(s[..3]) == 0x1_0000 * (s[0] as int) + 0x100 * (s[1] as int) + s[2] as int;
  }

  lemma SameHeader(content: Bytes, output: Bytes)
    requires Header(content) && |output| == |content| && Slice(content, 0, 8) <= output
    ensures Slice(output, 0, 8) == Slice(content, 0, 8) && Header(output)
  {
    assert Slice(output, 0, 8) == Slice(content, 0, 8);
    assert Slice(output, 0, 4) == Slice(Slice(output, 0, 8), 0, 4) == Slice(content, 0, 4);
    assert Slice(output, 4, 8) == Slice(Slice(output, 0, 8), 4, 8) == Slice(content, 4, 8);
  }

  /** Canonicalising twice is canonicalising once. */
  lemma CanonicalIdempotent(content: Bytes)
    requires Canonical(content).Ok?
    ensures Canonical(Canonical(content).value) == Canonical(content)
  {
    AcceptsExactlyContainers(content);
    var chunks :| Container(content, chunks);
    OutputIsSortedContainer(content, chunks);
    SortChunks(chunks);
    AcceptsExactlyContainers(Canonical(content).value);
  }

  /** The order in which a generator emits the entries does not matter. */
  lemma PermutedEntriesAgree(a: Bytes, b: Bytes, chunksA: seq<Chunk>, chunksB: seq<Chunk>)
    requires Container(a, chunksA) && Container(b, chunksB)
    requires Slice(a, 0, 8) == Slice(b, 0, 8) && multiset(chunksA) == multiset(chunksB)
    ensures Canonical(a) == Canonical(b)
  {
    AcceptsExactlyContainers(a);
    AcceptsExactlyContainers(b);
    SortChunks(chunksA);
    SortChunks(chunksB);
    ChunkOrder();
    SortedIsUnique(ChunkLeq, Sort(ChunkLeq, chunksA), Sort(ChunkLeq, chunksB));
  }

  /** A container whose length field itself is cut off is accepted unchanged: the slice is read as a shorter number. */
  lemma CutHeaderAccepted(content: Bytes)
    requires 4 < |content| < 8
    ensures Canonical(content).Ok? <==> content == MAGIC + seq(|content| - 5, _ => 0) + [|content|]
    ensures Canonical(content).Ok? ==> Canonical(content).value == content
  {
    var field := content[4..];
    assert Slice(content, 4, 8) == field && Slice(content, 0, 4) == content[..4];
    var n := |field|;
    assert field[..n - 1] == content[4..|content| - 1];
    BigEndianSmall(field, |content|);
    if content[..4] == MAGIC && BigEndian(field) == |content| {
      assert content == content[..4] + field[..n - 1] + [field[n - 1]];
    }
    if content == MAGIC + seq(|content| - 5, _ => 0) + [|content|] {
      assert field[..n - 1] == seq(|content| - 5, _ => 0) && field[n - 1] == |content|;
    }
    assert Slice(content, 8, |content|) == [] && Slice(content, 0, 8) == content;
  }

  /** A number below 256 has zeros in front. */
  lemma {:induction false} BigEndianSmall(s: Bytes, n: nat)
    requires s != [] && n < 256
    ensures BigEndian(s) == n <==> s[..|s| - 1] == seq(|s| - 1, _ => 0) && s[|s| - 1] == n
  {
    BigEndianZero(s[..|s| - 1]);
    if BigEndian(s) == n {
      assert BigEndian(s[..|s| - 1]) == 0;
    }
  }

  lemma {:induction false} BigEndianZero(s: Bytes)
    ensures BigEndian(s) == 0 <==> s == seq(|s|, _ => 0)
  {
    if s != [] {
      BigEndianZero(s[..|s| - 1]);
      assert s == s[..|s| - 1] + [s[|s| - 1]];
    }
  }
}
