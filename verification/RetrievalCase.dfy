// `score_case` and `run_is_prefix`: the report of one case from its four runs.
module RetrievalCase {
  import opened Wrappers
  import opened Saturating
  import opened RetrievalStages

  // ----- runs

  /** The rank is copied as the node reported it; a wrong one is only counted as an error. */
  datatype Hit = Hit(factId: string, rank: nat)

  datatype Source = Source(node: Node, hits: seq<Hit>, candidates: seq<Hit>)

  datatype Run = Run(sources: seq<Source>, provenanceErrors: nat)

  /** A case is evaluated, repeated, expanded to more results and run over documents in reverse order. */
  datatype Runs = Runs(baseline: Run, repeated: Run, expanded: Run, reversed: Run)

  predicate SourceIsPrefix(short: Source, long: Source) { short.node == long.node && short.hits <= long.hits }

  /** `run_is_prefix`; the authorised candidates are not compared. */
  predicate RunIsPrefix(short: Run, long: Run) {
    && short.provenanceErrors == long.provenanceErrors
    && |short.sources| == |long.sources|
    && forall i :: 0 <= i < |short.sources| ==> SourceIsPrefix(short.sources[i], long.sources[i])
  }

  function HitsOf(sources: seq<Source>): seq<Hit> {
    if sources == [] then [] else HitsOf(sources[..|sources| - 1]) + sources[|sources| - 1].hits
  }

  function CandidatesOf(sources: seq<Source>): seq<Hit> {
    if sources == [] then [] else CandidatesOf(sources[..|sources| - 1]) + sources[|sources| - 1].candidates
  }

  function FactIds(hits: seq<Hit>): set<string> { set hit <- hits :: hit.factId }

  function Returned(run: Run): set<string> { FactIds(HitsOf(run.sources)) }

  function Authorised(run: Run): set<string> { FactIds(CandidatesOf(run.sources)) }

  lemma {:induction false} HitOfSource(sources: seq<Source>, id: string)
    ensures id in FactIds(HitsOf(sources)) <==> exists i :: 0 <= i < |sources| && id in FactIds(sources[i].hits)
  {
    if sources != [] {
      var n := |sources| - 1;
      HitOfSource(sources[..n], id);
      assert forall i :: 0 <= i < n ==> sources[..n][i] == sources[i];
      assert FactIds(HitsOf(sources)) == FactIds(HitsOf(sources[..n])) + FactIds(sources[n].hits);
    }
  }

  /** A run that is a prefix returned no other facts, and so found no more groups. */
  lemma PrefixFindsNoMore(short: Run, long: Run, groups: seq<Group>)
    requires RunIsPrefix(short, long)
    ensures Returned(short) <= Returned(long)
    ensures HasCount(groups, Returned(short)) <= HasCount(groups, Returned(long))
  {
    forall id | id in Returned(short) ensures id in Returned(long) {
      HitOfSource(short.sources, id);
      HitOfSource(long.sources, id);
      var i :| 0 <= i < |short.sources| && id in FactIds(short.sources[i].hits);
      assert SourceIsPrefix(short.sources[i], long.sources[i]);
    }
    MoreFactsMoreGroups(groups, Returned(short), Returned(long));
  }

  // ----- ranks

  /** The least rank of a hit with an expected fact. */
  function BestRank(hits: seq<Hit>, expected: set<string>): Option<nat> {
    if hits == [] then None
    else
      var before, last := BestRank(hits[..|hits| - 1], expected), hits[|hits| - 1];
      if last.factId !in expected then before
      else if before.Some? && before.value <= last.rank then before
      else Some(last.rank)
  }

  lemma {:induction false} BestRankIsLeast(hits: seq<Hit>, expected: set<string>)
    ensures BestRank(hits, expected).Some? <==> exists hit :: hit in hits && hit.factId in expected
    ensures BestRank(hits, expected).Some? ==>
              var best := BestRank(hits, expected).value;
              && (exists hit :: hit in hits && hit.factId in expected && hit.rank == best)
              && forall hit :: hit in hits && hit.factId in expected ==> best <= hit.rank
  {
    if hits != [] {
      var n := |hits| - 1;
      BestRankIsLeast(hits[..n], expected);
      assert hits == hits[..n] + [hits[n]];
      assert hits[n] in hits;
    }
  }

  // ----- the case report

  datatype CaseReport = CaseReport(
    expected: nat, found: nat, effectiveFound: nat, missing: nat, candidateOnly: nat, bestRank: Option<nat>,
    unexpected: set<string>, forbidden: set<string>, provenanceErrors: nat, duplicates: nat,
    stage: StageAttribution, repeatStable: bool, prefixStable: bool, orderStable: bool, passed: bool,
    returnedIds: seq<string>, support: set<string>, candidates: set<string>, elapsedMs: nat)

  function IdsOf(hits: seq<Hit>): seq<string> { seq(|hits|, i requires 0 <= i < |hits| => hits[i].factId) }

  /** Members of a group that are among the facts. */
  function Hits(group: Group, facts: set<string>): (n: nat)
    ensures n <= |group|
  {
    if group == [] then 0
    else Hits(group[..|group| - 1], facts) + if group[|group| - 1] in facts then 1 else 0
  }

  predicate IsDuplicated(group: Group, facts: set<string>) { |group| > 1 && Hits(group, facts) > 1 }

  function DuplicateCount(groups: seq<Group>, facts: set<string>): nat {
    if groups == [] then 0
    else DuplicateCount(groups[..|groups| - 1], facts) + if IsDuplicated(groups[|groups| - 1], facts) then 1 else 0
  }

  predicate AuditIsValid(stage: StageAttribution) {
    stage.mappingErrors == 0 && stage.auditComplete && stage.auditStable
  }

  lemma {:induction false} HitsWhenHas(group: Group, facts: set<string>)
    ensures Has(group, facts) <==> Hits(group, facts) > 0
  {
    if group != [] {
      var n := |group| - 1;
      HitsWhenHas(group[..n], facts);
      assert group == group[..n] + [group[n]];
    }
  }

  lemma {:induction false} NothingMissing(groups: seq<Group>, facts: set<string>)
    ensures HasCount(groups, facts) == |groups| <==> forall i :: 0 <= i < |groups| ==> Hits(groups[i], facts) > 0
  {
    if groups != [] {
      var n := |groups| - 1;
      NothingMissing(groups[..n], facts);
      HitsWhenHas(groups[n], facts);
      assert forall i :: 0 <= i < n ==> groups[..n][i] == groups[i];
    }
  }

  lemma {:induction false} NothingDuplicated(groups: seq<Group>, facts: set<string>)
    ensures DuplicateCount(groups, facts) == 0 <==> forall i :: 0 <= i < |groups| ==> Hits(groups[i], facts) <= 1
  {
    if groups != [] {
      var n := |groups| - 1;
      NothingDuplicated(groups[..n], facts);
      assert IsDuplicated(groups[n], facts) <==> Hits(groups[n], facts) > 1;
      assert forall i :: 0 <= i < n ==> groups[..n][i] == groups[i];
    }
  }

  /** Every expected group is answered by exactly one of its facts. */
  predicate AnsweredOnce(c: Case, returned: set<string>) {
    forall i :: 0 <= i < |c.expectedGroups| ==> Hits(c.expectedGroups[i], returned) == 1
  }

  lemma AnsweredOnceExactly(c: Case, returned: set<string>)
    ensures HasCount(c.expectedGroups, returned) == |c.expectedGroups|
            && DuplicateCount(c.expectedGroups, returned) == 0
            <==> AnsweredOnce(c, returned)
  {
    NothingMissing(c.expectedGroups, returned);
    NothingDuplicated(c.expectedGroups, returned);
  }

  /** What a case must return to pass. */
  predicate Passes(c: Case, runs: Runs, stage: StageAttribution) {
    && AnsweredOnce(c, Returned(runs.baseline))
    && (forall id :: id in Returned(runs.baseline) ==> id in c.relevant + c.allowedSupport && id !in c.forbidden)
    && runs.baseline.provenanceErrors == 0
    && AuditIsValid(stage)
    && runs.baseline == runs.repeated && RunIsPrefix(runs.baseline, runs.expanded) && runs.baseline == runs.reversed
  }

  /** No violation of any kind is recorded against the case. */
  predicate IsClean(r: CaseReport) {
    && r.unexpected == {} && r.forbidden == {} && r.provenanceErrors == 0 && r.duplicates == 0
    && AuditIsValid(r.stage) && r.repeatStable && r.prefixStable && r.orderStable
  }

  /**
   * The counts of a report add up: what was returned and what was missed are what
   * was expected, what either channel found is what was returned or was only a
   * candidate, and the missing groups are the sum of the four stage losses.
   */
  predicate AddsUp(r: CaseReport) {
    && r.expected == SatAdd(r.found, r.missing)
    && r.effectiveFound == SatAdd(r.found, r.candidateOnly)
    && r.found <= r.effectiveFound <= r.expected
    && r.missing == Losses(r.stage)
    && r.stage.maskSurviving <= r.stage.sourceCandidate <= r.expected
    && (r.passed <==> r.missing == 0 && IsClean(r))
  }

  /** The facts of a report, from the runs and the case. */
  predicate Reports(c: Case, runs: Runs, r: CaseReport) {
    var groups, returned := c.expectedGroups, Returned(runs.baseline);
    && r.expected == Sat(|groups|) && r.found == Sat(HasCount(groups, returned))
    && r.candidateOnly == Sat(CandidateOnlyCount(groups, returned, Authorised(runs.baseline)))
    && r.bestRank == BestRank(HitsOf(runs.baseline.sources), ExpectedFacts(groups))
    && r.unexpected == returned - c.relevant - c.allowedSupport && r.forbidden == returned * c.forbidden
    && r.returnedIds == IdsOf(HitsOf(runs.baseline.sources))
    && r.support == returned * c.allowedSupport && r.candidates == Authorised(runs.baseline)
    && r.duplicates == Sat(DuplicateCount(groups, returned))
    && r.provenanceErrors == runs.baseline.provenanceErrors
    && (r.repeatStable <==> runs.baseline == runs.repeated)
    && (r.prefixStable <==> RunIsPrefix(runs.baseline, runs.expanded))
    && (r.orderStable <==> runs.baseline == runs.reversed)
  }

  /** The report of one case, from its runs and the attribution of what it missed. */
  method Assess(c: Case, runs: Runs, stage: StageAttribution, elapsedMs: nat) returns (r: CaseReport)
    requires Losses(stage) == Sat(|c.expectedGroups| - HasCount(c.expectedGroups, Returned(runs.baseline)))
    requires stage.maskSurviving <= stage.sourceCandidate <= Sat(|c.expectedGroups|)
    ensures AddsUp(r) && Reports(c, runs, r) && r.stage == stage && r.elapsedMs == elapsedMs
    ensures r.passed <==> Passes(c, runs, stage)
  {
    var returned, candidates := Returned(runs.baseline), Authorised(runs.baseline);
    var repeatStable, orderStable := runs.baseline == runs.repeated, runs.baseline == runs.reversed;
    var prefixStable := RunIsPrefix(runs.baseline, runs.expanded);
    var missing, duplicates :=
        |c.expectedGroups| - HasCount(c.expectedGroups, returned), DuplicateCount(c.expectedGroups, returned);
    var unexpected, forbidden := returned - c.relevant - c.allowedSupport, returned * c.forbidden;
    var passed :=
        missing == 0 && unexpected == {} && forbidden == {} && runs.baseline.provenanceErrors == 0 && duplicates == 0
        && AuditIsValid(stage) && repeatStable && prefixStable && orderStable;
    PassedExactly(c, runs, stage);
    r := CaseReport(Sat(|c.expectedGroups|), Sat(HasCount(c.expectedGroups, returned)),
                    Sat(HasCount(c.expectedGroups, returned + candidates)), Sat(missing),
                    Sat(CandidateOnlyCount(c.expectedGroups, returned, candidates)),
                    BestRank(HitsOf(runs.baseline.sources), ExpectedFacts(c.expectedGroups)),
                    unexpected, forbidden, runs.baseline.provenanceErrors, Sat(duplicates),
                    stage, repeatStable, prefixStable, orderStable, passed,
                    IdsOf(HitsOf(runs.baseline.sources)), returned * c.allowedSupport, candidates, elapsedMs);
    CountsAddUp(c.expectedGroups, returned, candidates, missing, duplicates, r);
  }

  /**
   * The report of one case adds up, and the case passes exactly when every group is
   * answered once, nothing else was returned and every audit and repetition agreed.
   */
  method ScoreCase(c: Case, runs: Runs, calls: seq<Call>, expectedNodes: set<Node>, auditStable: bool, elapsedMs: nat)
    returns (r: CaseReport, facts: Facts)
    ensures AddsUp(r) && Reports(c, runs, r) && r.elapsedMs == elapsedMs
    ensures r.passed <==> Passes(c, runs, r.stage)
    ensures facts.returned == Returned(runs.baseline) && Stages(calls, facts) && Attributed(c, facts, r.stage)
    ensures r.stage.mappingErrors == Sat(Unmapped(calls)) && r.stage.auditStable == auditStable
    ensures r.stage.auditComplete <==> NodesOf(calls) == expectedNodes && |NodesOf(calls)| == |calls|
  {
    var stage: StageAttribution;
    stage, facts := Attribute(c, Returned(runs.baseline), calls, expectedNodes, auditStable);
    LossesAreTheMissing(c, facts, stage);
    SurvivorsWereRetrieved(c, calls, facts, stage);
    r := Assess(c, runs, stage, elapsedMs);
  }

  lemma CountsAddUp(groups: seq<Group>, returned: set<string>, candidates: set<string>, missing: nat, duplicates: nat,
          r: CaseReport)
    requires r.expected == Sat(|groups|) && r.found == Sat(HasCount(groups, returned))
    requires r.effectiveFound == Sat(HasCount(groups, returned + candidates))
    requires r.candidateOnly == Sat(CandidateOnlyCount(groups, returned, candidates))
    requires missing == |groups| - HasCount(groups, returned) && r.missing == Sat(missing) == Losses(r.stage)
    requires r.duplicates == Sat(duplicates) && r.stage.maskSurviving <= r.stage.sourceCandidate <= r.expected
    requires r.passed
             <==> missing == 0 && r.unexpected == {} && r.forbidden == {} && r.provenanceErrors == 0
                  && duplicates == 0 && AuditIsValid(r.stage) && r.repeatStable && r.prefixStable && r.orderStable
    ensures AddsUp(r)
  {
    ReportCountsAgree(groups, returned, candidates);
  }

  lemma PassedExactly(c: Case, runs: Runs, stage: StageAttribution)
    ensures var returned := Returned(runs.baseline);
            Passes(c, runs, stage) <==>
            && HasCount(c.expectedGroups, returned) == |c.expectedGroups|
            && DuplicateCount(c.expectedGroups, returned) == 0
            && returned - c.relevant - c.allowedSupport == {} && returned * c.forbidden == {}
            && runs.baseline.provenanceErrors == 0 && AuditIsValid(stage)
            && runs.baseline == runs.repeated && RunIsPrefix(runs.baseline, runs.expanded)
            && runs.baseline == runs.reversed
  {
    var returned := Returned(runs.baseline);
    AnsweredOnceExactly(c, returned);
    assert forall id :: id in returned - c.relevant - c.allowedSupport
                        <==> id in returned && id !in c.relevant + c.allowedSupport;
    assert forall id :: id in returned * c.forbidden <==> id in returned && id in c.forbidden;
    assert returned - c.relevant - c.allowedSupport == {}
           <==> forall id :: id in returned ==> id in c.relevant + c.allowedSupport;
    assert returned * c.forbidden == {} <==> forall id :: id in returned ==> id !in c.forbidden;
  }
}
