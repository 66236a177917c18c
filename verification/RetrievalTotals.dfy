// The fields of the aggregates, each as the clamped sum of what it is named after.
module RetrievalTotals {
  import opened Saturating
  import opened RetrievalCase
  import opened RetrievalAggregate

  ghost function Sum(reports: seq<Report>, f: CaseReport -> nat): nat {
    if reports == [] then 0 else f(reports[0].outcome) + Sum(reports[1..], f)
  }

  /** A counter whose values are those of `f` is the sum of `f`. */
  lemma {:induction false} TotalIsSum(reports: seq<Report>, counter: Counter, f: CaseReport -> nat)
    requires forall r :: Value(r, counter) == f(r)
    ensures Total(reports, counter) == Sum(reports, f)
  {
    if reports != [] {
      TotalIsSum(reports[1..], counter, f);
      assert reports == [reports[0]] + reports[1..];
      TotalConcat([reports[0]], reports[1..], counter);
      TotalOfOne(reports[0], counter);
    }
  }

  lemma TotalOfOne(report: Report, counter: Counter)
    ensures Total([report], counter) == Value(report.outcome, counter)
  {
    assert [report][..0] == [];
    assert Total([], counter) == 0;
  }

  ghost function One(b: bool): nat { if b then 1 else 0 }

  ghost predicate IsSumOf(n: nat, reports: seq<Report>, f: CaseReport -> nat) { n == Sat(Sum(reports, f)) }

  lemma MetricIsSum(reports: seq<Report>, m: Metrics, counter: Counter, f: CaseReport -> nat)
    requires AreCounted(m, reports) && InMetrics(counter) && forall r :: Value(r, counter) == f(r)
    ensures IsSumOf(Metric(m, counter), reports, f)
  {
    TotalIsSum(reports, counter, f);
  }

  /** The cases and the groups of the metrics are summed over the reports. */
  lemma GroupsAreSums(reports: seq<Report>, m: Metrics)
    requires AreCounted(m, reports)
    ensures IsSumOf(m.cases, reports, (r: CaseReport) => 1)
    ensures IsSumOf(m.expected, reports, (r: CaseReport) => r.expected)
    ensures IsSumOf(m.found, reports, (r: CaseReport) => r.found)
    ensures IsSumOf(m.effectiveFound, reports, (r: CaseReport) => r.effectiveFound)
    ensures IsSumOf(m.candidateOnly, reports, (r: CaseReport) => r.candidateOnly)
  {
    MetricIsSum(reports, m, Cases, (r: CaseReport) => 1);
    MetricIsSum(reports, m, Expected, (r: CaseReport) => r.expected);
    MetricIsSum(reports, m, Found, (r: CaseReport) => r.found);
    MetricIsSum(reports, m, EffectiveFound, (r: CaseReport) => r.effectiveFound);
    MetricIsSum(reports, m, CandidateOnly, (r: CaseReport) => r.candidateOnly);
  }

  /** So are the violations; unstable cases and failed audits are counted once each. */
  lemma ViolationsAreSums(reports: seq<Report>, m: Metrics)
    requires AreCounted(m, reports)
    ensures IsSumOf(m.falseEvidence, reports, (r: CaseReport) => Sat(|r.unexpected|))
    ensures IsSumOf(m.forbiddenEvidence, reports, (r: CaseReport) => Sat(|r.forbidden|))
    ensures IsSumOf(m.provenanceErrors, reports, (r: CaseReport) => r.provenanceErrors)
    ensures IsSumOf(m.duplicates, reports, (r: CaseReport) => r.duplicates)
    ensures IsSumOf(m.unstable, reports, (r: CaseReport) => One(!(r.repeatStable && r.prefixStable && r.orderStable)))
    ensures IsSumOf(m.auditErrors, reports,
            (r: CaseReport) => One(r.stage.mappingErrors > 0 || !r.stage.auditComplete || !r.stage.auditStable))
  {
    MetricIsSum(reports, m, FalseEvidence, (r: CaseReport) => Sat(|r.unexpected|));
    MetricIsSum(reports, m, ForbiddenEvidence, (r: CaseReport) => Sat(|r.forbidden|));
    MetricIsSum(reports, m, ProvenanceErrors, (r: CaseReport) => r.provenanceErrors);
    MetricIsSum(reports, m, Duplicates, (r: CaseReport) => r.duplicates);
    MetricIsSum(reports, m, Unstable, (r: CaseReport) => One(!(r.repeatStable && r.prefixStable && r.orderStable)));
    MetricIsSum(reports, m, AuditErrors,
            (r: CaseReport) => One(r.stage.mappingErrors > 0 || !r.stage.auditComplete || !r.stage.auditStable));
  }

  lemma SummaryCounterIsSum(reports: seq<Report>, s: StageSummary, counter: Counter, f: CaseReport -> nat)
    requires AreSummarized(s, reports) && InSummary(counter) && forall r :: Value(r, counter) == f(r)
    ensures IsSumOf(Summarized(s, counter), reports, f)
  {
    TotalIsSum(reports, counter, f);
  }

  /** The groups that the summary has at each stage are summed over the reports. */
  lemma StagesAreSums(reports: seq<Report>, s: StageSummary)
    requires AreSummarized(s, reports)
    ensures IsSumOf(s.expected, reports, (r: CaseReport) => r.expected)
    ensures IsSumOf(s.sourceCandidate, reports, (r: CaseReport) => r.stage.sourceCandidate)
    ensures IsSumOf(s.maskSurviving, reports, (r: CaseReport) => r.stage.maskSurviving)
    ensures IsSumOf(s.notRetrieved, reports, (r: CaseReport) => r.stage.notRetrieved)
    ensures IsSumOf(s.rejectedByMask, reports, (r: CaseReport) => r.stage.rejectedByMask)
    ensures IsSumOf(s.outsideTopK, reports, (r: CaseReport) => r.stage.outsideTopK)
    ensures IsSumOf(s.revalidationLoss, reports, (r: CaseReport) => r.stage.revalidationLoss)
  {
    SummaryCounterIsSum(reports, s, Expected, (r: CaseReport) => r.expected);
    SummaryCounterIsSum(reports, s, SourceCandidate, (r: CaseReport) => r.stage.sourceCandidate);
    SummaryCounterIsSum(reports, s, MaskSurviving, (r: CaseReport) => r.stage.maskSurviving);
    SummaryCounterIsSum(reports, s, NotRetrievedGroups, (r: CaseReport) => r.stage.notRetrieved);
    SummaryCounterIsSum(reports, s, RejectedGroups, (r: CaseReport) => r.stage.rejectedByMask);
    SummaryCounterIsSum(reports, s, OutsideGroups, (r: CaseReport) => r.stage.outsideTopK);
    SummaryCounterIsSum(reports, s, RevalidationGroups, (r: CaseReport) => r.stage.revalidationLoss);
  }

  /** So are the facts that should not have got so far, and the faults of the audit. */
  lemma AuditsAreSums(reports: seq<Report>, s: StageSummary)
    requires AreSummarized(s, reports)
    ensures IsSumOf(s.unexpectedSurvivor, reports, (r: CaseReport) => r.stage.unexpectedSurvivor)
    ensures IsSumOf(s.hardNegativeCandidate, reports, (r: CaseReport) => r.stage.hardNegativeCandidate)
    ensures IsSumOf(s.mappingErrors, reports, (r: CaseReport) => r.stage.mappingErrors)
    ensures IsSumOf(s.auditErrors, reports,
            (r: CaseReport) => One(r.stage.mappingErrors > 0 || !r.stage.auditComplete || !r.stage.auditStable))
  {
    SummaryCounterIsSum(reports, s, UnexpectedSurvivor, (r: CaseReport) => r.stage.unexpectedSurvivor);
    SummaryCounterIsSum(reports, s, HardNegativeCandidate, (r: CaseReport) => r.stage.hardNegativeCandidate);
    SummaryCounterIsSum(reports, s, MappingErrors, (r: CaseReport) => r.stage.mappingErrors);
    SummaryCounterIsSum(reports, s, AuditErrors,
            (r: CaseReport) => One(r.stage.mappingErrors > 0 || !r.stage.auditComplete || !r.stage.auditStable));
  }

  // ----- the reports of a split

  lemma {:induction false} OfSplitConcat(a: seq<Report>, b: seq<Report>, split: Split)
    ensures OfSplit(a + b, split) == OfSplit(a, split) + OfSplit(b, split)
  {
    if b == [] {
      assert a + b == a && OfSplit(a, split) + [] == OfSplit(a, split);
    } else {
      var n := |b| - 1;
      OfSplitConcat(a, b[..n], split);
      assert (a + b)[..|a| + n] == a + b[..n] && (a + b)[|a| + n] == b[n];
    }
  }

  /** A split has its own reports, each as often as it is given, and in the order given. */
  lemma OfSplitExactly(a: seq<Report>, report: Report, b: seq<Report>, split: Split)
    ensures OfSplit(a + [report] + b, split)
            == OfSplit(a, split) + (if report.split == split then [report] else []) + OfSplit(b, split)
  {
    OfSplitConcat(a + [report], b, split);
    OfSplitConcat(a, [report], split);
    assert [report][..0] == [] && OfSplit([], split) == [];
  }
}
