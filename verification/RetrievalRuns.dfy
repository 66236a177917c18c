// `normalize_responses`: from the answers of the nodes to the runs that are
// scored, and what a run without provenance errors has in it.
module RetrievalRuns {
  import opened Wrappers
  import opened Unicode
  import opened Saturating
  import opened Sequences
  import opened RetrievalStages
  import opened RetrievalCase
  import opened RetrievalAggregate
  import opened RetrievalRanks

  datatype Identity = Identity(
    factId: string, title: string, heading: string, source: string, node: Node,
    concept: string, collection: string, chunk: string, uri: string)

  datatype SearchHit = SearchHit(
    nodeId: string, title: string, heading: string, source: string, revision: nat, rank: nat,
    collection: string, concept: string, chunk: string, snippet: string, uri: string)

  datatype Response = Response(node: Node, hits: seq<SearchHit>, candidates: seq<SearchHit>)

  /** The character tables, the ids of the two nodes, and the facts by source digest and heading. */
  datatype Setting = Setting(t: Tables, runtimeId: Node -> string, facts: map<(string, string), Identity>)

  // ----- one hit

  function IdentityOf(s: Setting, hit: SearchHit): Option<Identity> {
    if (hit.source, hit.heading) in s.facts then Some(s.facts[(hit.source, hit.heading)]) else None
  }

  /** `hit_has_valid_provenance`. */
  predicate IsProven(s: Setting, hit: SearchHit, identity: Identity, node: Node, expectedRank: nat) {
    && identity.node == node && hit.nodeId == s.runtimeId(node)
    && hit.title == identity.title && hit.heading == identity.heading && hit.source == identity.source
    && hit.revision == 1 && hit.rank == expectedRank
    && hit.collection == identity.collection && hit.concept == identity.concept && hit.chunk == identity.chunk
    && Trim(s.t, hit.snippet) != "" && hit.uri == identity.uri
  }

  /** The hit at `index` is known, and everything it says about itself is right. */
  predicate IsClean(s: Setting, node: Node, hits: seq<SearchHit>, index: nat)
    requires index < |hits|
  {
    var identity := IdentityOf(s, hits[index]);
    identity.Some? && IsProven(s, hits[index], identity.value, node, Sat(index + 1))
  }

  // ----- the hits of one node

  /** The known hits, with the ranks they came with. */
  function Known(s: Setting, hits: seq<SearchHit>): seq<Hit> {
    if hits == [] then []
    else
      var n := |hits| - 1;
      var identity := IdentityOf(s, hits[n]);
      Known(s, hits[..n]) + if identity.Some? then [Hit(identity.value.factId, hits[n].rank)] else []
  }

  function Faults(s: Setting, node: Node, hits: seq<SearchHit>): nat {
    if hits == [] then 0
    else Faults(s, node, hits[..|hits| - 1]) + if IsClean(s, node, hits, |hits| - 1) then 0 else 1
  }

  lemma OneHitMore(s: Setting, node: Node, hits: seq<SearchHit>, i: nat)
    requires i < |hits|
    ensures var identity := IdentityOf(s, hits[i]);
            Known(s, hits[..i + 1])
            == Known(s, hits[..i]) + if identity.Some? then [Hit(identity.value.factId, hits[i].rank)] else []
    ensures Faults(s, node, hits[..i + 1])
            == Faults(s, node, hits[..i]) + if IsClean(s, node, hits, i) then 0 else 1
  {
    assert hits[..i + 1][..i] == hits[..i];
  }

  method NormalizeHits(s: Setting, node: Node, hits: seq<SearchHit>, before: nat) returns (out: seq<Hit>, errors: nat)
    requires before <= U32_MAX
    ensures out == Known(s, hits) && errors == Sat(before + Faults(s, node, hits))
  {
    out, errors := [], before;
    var i := 0;
    while i < |hits|
      invariant 0 <= i <= |hits|
      invariant out == Known(s, hits[..i]) && errors == Sat(before + Faults(s, node, hits[..i]))
    {
      var identity := IdentityOf(s, hits[i]);
      OneHitMore(s, node, hits, i);
      SatAddOfSat(before + Faults(s, node, hits[..i]), 1);
      if identity.None? {
        errors := SatAdd(errors, 1);
      } else {
        if !IsProven(s, hits[i], identity.value, node, Sat(i + 1)) {
          errors := SatAdd(errors, 1);
        }
        out := out + [Hit(identity.value.factId, hits[i].rank)];
      }
      i := i + 1;
    }
    assert hits[..i] == hits;
  }

  // ----- all nodes

  function SourceOf(s: Setting, response: Response, withCandidates: bool): Source {
    Source(response.node, Known(s, response.hits), if withCandidates then Known(s, response.candidates) else [])
  }

  function FaultsOf(s: Setting, response: Response, withCandidates: bool): nat {
    Faults(s, response.node, response.hits)
    + if withCandidates then Faults(s, response.node, response.candidates) else 0
  }

  function AllFaults(s: Setting, responses: seq<Response>, withCandidates: bool): nat {
    if responses == [] then 0
    else
      var n := |responses| - 1;
      AllFaults(s, responses[..n], withCandidates) + FaultsOf(s, responses[n], withCandidates)
  }

  ghost predicate IsRun(s: Setting, responses: seq<Response>, withCandidates: bool, run: Run) {
    && |run.sources| == |responses|
    && (forall i :: 0 <= i < |responses| ==> run.sources[i] == SourceOf(s, responses[i], withCandidates))
    && run.provenanceErrors == Sat(AllFaults(s, responses, withCandidates))
  }

  method NormalizeResponse(s: Setting, response: Response, withCandidates: bool, before: nat)
    returns (source: Source, errors: nat)
    requires before <= U32_MAX
    ensures source == SourceOf(s, response, withCandidates)
    ensures errors == Sat(before + FaultsOf(s, response, withCandidates))
  {
    var hits, candidates := [], [];
    hits, errors := NormalizeHits(s, response.node, response.hits, before);
    if withCandidates {
      candidates, errors := NormalizeHits(s, response.node, response.candidates, errors);
    }
    source := Source(response.node, hits, candidates);
  }

  lemma OneResponseMore(s: Setting, responses: seq<Response>, withCandidates: bool, i: nat, run: Run, source: Source,
          errors: nat)
    requires i < |responses| && IsRun(s, responses[..i], withCandidates, run)
    requires source == SourceOf(s, responses[i], withCandidates)
    requires errors == Sat(run.provenanceErrors + FaultsOf(s, responses[i], withCandidates))
    ensures IsRun(s, responses[..i + 1], withCandidates, Run(run.sources + [source], errors))
  {
    assert responses[..i + 1][..i] == responses[..i];
  }

  method NormalizeResponses(s: Setting, responses: seq<Response>, withCandidates: bool) returns (run: Run)
    ensures IsRun(s, responses, withCandidates, run)
  {
    var sources, errors := [], 0;
    var i := 0;
    while i < |responses|
      invariant 0 <= i <= |responses| && IsRun(s, responses[..i], withCandidates, Run(sources, errors))
    {
      ghost var before := Run(sources, errors);
      var source;
      source, errors := NormalizeResponse(s, responses[i], withCandidates, errors);
      OneResponseMore(s, responses, withCandidates, i, before, source, errors);
      sources := sources + [source];
      i := i + 1;
    }
    assert responses[..i] == responses;
    run := Run(sources, errors);
  }

  // ----- runs without errors

  lemma {:induction false} CleanHits(s: Setting, node: Node, hits: seq<SearchHit>)
    requires Faults(s, node, hits) == 0
    ensures |Known(s, hits)| == |hits|
    ensures forall i :: 0 <= i < |hits| ==> IsClean(s, node, hits, i) && Known(s, hits)[i].rank == Sat(i + 1)
  {
    if hits != [] {
      var n := |hits| - 1;
      CleanHits(s, node, hits[..n]);
      assert IsClean(s, node, hits, n);
      forall i | 0 <= i < n ensures IsClean(s, node, hits, i) {
        assert IsClean(s, node, hits[..n], i) && hits[..n][i] == hits[i];
      }
    }
  }

  lemma {:induction false} NoFaults(s: Setting, responses: seq<Response>, withCandidates: bool, i: nat)
    requires AllFaults(s, responses, withCandidates) == 0 && i < |responses|
    ensures FaultsOf(s, responses[i], withCandidates) == 0
    decreases |responses|
  {
    var n := |responses| - 1;
    if i < n {
      NoFaults(s, responses[..n], withCandidates, i);
    }
  }

  /** Without provenance errors every hit is kept, belongs to its node and has its position as rank. */
  lemma CleanRun(s: Setting, responses: seq<Response>, withCandidates: bool, run: Run, i: nat, k: nat)
    requires IsRun(s, responses, withCandidates, run) && run.provenanceErrors == 0 && i < |responses|
    ensures |run.sources[i].hits| == |responses[i].hits|
    ensures k < |responses[i].hits| ==>
              && IsClean(s, responses[i].node, responses[i].hits, k)
              && run.sources[i].hits[k].rank == Sat(k + 1)
  {
    NoFaults(s, responses, withCandidates, i);
    CleanHits(s, responses[i].node, responses[i].hits);
  }

  // ----- what a provenance error is

  /** The hit says of itself what is known of the fact, its position, and something to read. */
  ghost predicate IsGenuine(s: Setting, node: Node, hit: SearchHit, position: nat, fact: Identity) {
    && (hit.source, hit.heading) in s.facts && s.facts[(hit.source, hit.heading)] == fact && fact.node == node
    && hit == SearchHit(s.runtimeId(node), fact.title, fact.heading, fact.source, 1, Sat(position + 1),
                        fact.collection, fact.concept, fact.chunk, hit.snippet, fact.uri)
    && exists c :: c in hit.snippet && !s.t.whitespace(c)
  }

  ghost predicate GenuineAt(s: Setting, node: Node, hits: seq<SearchHit>, k: nat) {
    k < |hits| && exists fact :: IsGenuine(s, node, hits[k], k, fact)
  }

  lemma GenuineExactly(s: Setting, node: Node, hits: seq<SearchHit>, k: nat)
    requires k < |hits|
    ensures IsClean(s, node, hits, k) <==> GenuineAt(s, node, hits, k)
  {
    TrimBlank(s.t, hits[k].snippet);
    if IsClean(s, node, hits, k) {
      assert IsGenuine(s, node, hits[k], k, s.facts[(hits[k].source, hits[k].heading)]);
    }
  }

  ghost function Faulty(s: Setting, node: Node, hits: seq<SearchHit>): set<nat> {
    set k: nat | k < |hits| && !GenuineAt(s, node, hits, k)
  }

  lemma LastFaulty(s: Setting, node: Node, hits: seq<SearchHit>, n: nat)
    requires |hits| == n + 1
    ensures n !in Faulty(s, node, hits[..n])
    ensures Faulty(s, node, hits) == Faulty(s, node, hits[..n]) + if !GenuineAt(s, node, hits, n) then {n} else {}
  {
    forall k: nat | k < n ensures GenuineAt(s, node, hits, k) <==> GenuineAt(s, node, hits[..n], k) {
      assert hits[..n][k] == hits[k];
    }
  }

  /** The errors of a node are the hits that are not genuine. */
  lemma {:induction false} FaultsAreCounted(s: Setting, node: Node, hits: seq<SearchHit>)
    ensures Faults(s, node, hits) == |Faulty(s, node, hits)|
  {
    if hits == [] {
      assert Faulty(s, node, hits) == {};
    } else {
      var n := |hits| - 1;
      FaultsAreCounted(s, node, hits[..n]);
      GenuineExactly(s, node, hits, n);
      LastFaulty(s, node, hits, n);
      OneMore(Faulty(s, node, hits[..n]), n, !GenuineAt(s, node, hits, n));
    }
  }

  ghost predicate AllGenuine(s: Setting, node: Node, hits: seq<SearchHit>) {
    forall k: nat :: k < |hits| ==> GenuineAt(s, node, hits, k)
  }

  lemma NoneFaulty(s: Setting, node: Node, hits: seq<SearchHit>)
    ensures Faults(s, node, hits) == 0 <==> AllGenuine(s, node, hits)
  {
    FaultsAreCounted(s, node, hits);
    var faulty := Faulty(s, node, hits);
    if faulty == {} {
      forall k: nat | k < |hits| ensures GenuineAt(s, node, hits, k) { assert k !in faulty; }
    } else {
      var k :| k in faulty;
    }
  }

  ghost predicate IsAnswered(s: Setting, response: Response, withCandidates: bool) {
    AllGenuine(s, response.node, response.hits)
    && (withCandidates ==> AllGenuine(s, response.node, response.candidates))
  }

  lemma {:induction false} NoFaultsExactly(s: Setting, responses: seq<Response>, withCandidates: bool)
    ensures AllFaults(s, responses, withCandidates) == 0
            <==> forall i :: 0 <= i < |responses| ==> IsAnswered(s, responses[i], withCandidates)
  {
    if responses != [] {
      var n := |responses| - 1;
      NoFaultsExactly(s, responses[..n], withCandidates);
      assert forall i :: 0 <= i < n ==> responses[..n][i] == responses[i];
      NoneFaulty(s, responses[n].node, responses[n].hits);
      NoneFaulty(s, responses[n].node, responses[n].candidates);
    }
  }

  /** A run has no provenance error exactly when every hit of every node is genuine. */
  lemma CleanRunExactly(s: Setting, responses: seq<Response>, withCandidates: bool, run: Run)
    requires IsRun(s, responses, withCandidates, run)
    ensures run.provenanceErrors == 0
            <==> forall i :: 0 <= i < |responses| ==> IsAnswered(s, responses[i], withCandidates)
  {
    NoFaultsExactly(s, responses, withCandidates);
  }

  /** A hit whose source and heading are known is scored as the fact with these, at the rank it came with. */
  lemma {:induction false} KnownInOrder(s: Setting, a: seq<SearchHit>, hit: SearchHit, b: seq<SearchHit>)
    ensures Known(s, a + [hit] + b)
            == Known(s, a)
               + (if (hit.source, hit.heading) in s.facts
                  then [Hit(s.facts[(hit.source, hit.heading)].factId, hit.rank)] else [])
               + Known(s, b)
  {
    var front := a + [hit];
    if b == [] {
      assert front + b == front && front[..|a|] == a;
    } else {
      var n := |b| - 1;
      KnownInOrder(s, a, hit, b[..n]);
      assert (front + b)[..|front| + n] == front + b[..n] && (front + b)[|front| + n] == b[n];
    }
  }

  lemma {:induction false} HitsAreOfSources(sources: seq<Source>, hit: Hit)
    requires hit in HitsOf(sources)
    ensures exists i, k :: 0 <= i < |sources| && 0 <= k < |sources[i].hits| && sources[i].hits[k] == hit
  {
    var n := |sources| - 1;
    if hit in HitsOf(sources[..n]) {
      HitsAreOfSources(sources[..n], hit);
      var i, k :| 0 <= i < n && 0 <= k < |sources[..n][i].hits| && sources[..n][i].hits[k] == hit;
      assert sources[i].hits[k] == hit;
    } else {
      var k :| 0 <= k < |sources[n].hits| && sources[n].hits[k] == hit;
    }
  }

  /** A rank of zero is a provenance error. */
  lemma ZeroRankIsAnError(s: Setting, responses: seq<Response>, withCandidates: bool, c: Case, runs: Runs,
          r: CaseReport)
    requires IsRun(s, responses, withCandidates, runs.baseline) && Reports(c, runs, r) && IsZeroRanked(r)
    ensures r.provenanceErrors > 0
  {
    var hits := HitsOf(runs.baseline.sources);
    BestRankIsLeast(hits, ExpectedFacts(c.expectedGroups));
    var hit :| hit in hits && hit.rank == 0;
    HitsAreOfSources(runs.baseline.sources, hit);
    var i, k :| 0 <= i < |responses| && 0 <= k < |runs.baseline.sources[i].hits|
                && runs.baseline.sources[i].hits[k] == hit;
    if r.provenanceErrors == 0 {
      CleanRun(s, responses, withCandidates, runs.baseline, i, k);
    }
  }

  /** The report of a case whose baseline run is normalised from the answers of the nodes. */
  ghost predicate IsScored(s: Setting, r: CaseReport) {
    exists responses, withCandidates, c, runs: Runs ::
      IsRun(s, responses, withCandidates, runs.baseline) && Reports(c, runs, r)
  }

  lemma {:induction false} NoneCounted(reports: seq<Report>, i: nat)
    requires Total(reports, ProvenanceErrors) == 0 && i < |reports|
    ensures reports[i].outcome.provenanceErrors == 0
    decreases |reports|
  {
    var n := |reports| - 1;
    if i < n {
      NoneCounted(reports[..n], i);
    }
  }

  /** An evaluation without provenance errors has a finite mean rank, of at most one. */
  lemma CleanMeanIsFinite(s: Setting, reports: seq<Report>, m: Metrics)
    requires AreMetrics(m, reports) && m.provenanceErrors == 0
    requires 0 < Total(reports, Ranked) <= U32_MAX
    requires forall i :: 0 <= i < |reports| ==> IsScored(s, reports[i].outcome)
    ensures m.meanRank.Some? && m.meanRank.value.Finite? && m.meanRank.value.value <= 1.0
  {
    assert Metric(m, ProvenanceErrors) == 0;
    if HasZeroRank(reports) {
      var report :| report in reports && IsZeroRanked(report.outcome);
      var i :| 0 <= i < |reports| && reports[i] == report;
      NoneCounted(reports, i);
      var responses, withCandidates, c, runs: Runs :|
        IsRun(s, responses, withCandidates, runs.baseline) && Reports(c, runs, report.outcome);
      ZeroRankIsAnError(s, responses, withCandidates, c, runs, report.outcome);
    }
    MeanInUnit(reports, m);
  }
}
