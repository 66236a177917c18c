// `aggregate_metrics`, `aggregate_stage_attribution` and the verdict of the whole
// evaluation.
module RetrievalAggregate {
  import opened Wrappers
  import opened Saturating
  import opened Doubles
  import opened RetrievalStages
  import opened RetrievalCase

  datatype Split = Regression | Calibration | Holdout

  datatype Report = Report(split: Split, outcome: CaseReport)

  /**
   * The quantities that the two aggregations add up over the reports, the missing
   * groups and the cases that are ranked.
   */
  datatype Counter =
    | Cases | Expected | Found | Missing | EffectiveFound | CandidateOnly | Ranked
    | FalseEvidence | ForbiddenEvidence | ProvenanceErrors | Duplicates | Unstable | AuditErrors
    | SourceCandidate | MaskSurviving | NotRetrievedGroups | RejectedGroups | OutsideGroups | RevalidationGroups
    | UnexpectedSurvivor | HardNegativeCandidate | MappingErrors

  predicate IsStable(r: CaseReport) { r.repeatStable && r.prefixStable && r.orderStable }

  /** What one report contributes to a counter. */
  function Value(r: CaseReport, counter: Counter): nat {
    match counter
    case Cases => 1
    case Expected => r.expected
    case Found => r.found
    case Missing => r.missing
    case EffectiveFound => r.effectiveFound
    case CandidateOnly => r.candidateOnly
    case Ranked => if r.expected > 0 then 1 else 0
    case FalseEvidence => Sat(|r.unexpected|)
    case ForbiddenEvidence => Sat(|r.forbidden|)
    case ProvenanceErrors => r.provenanceErrors
    case Duplicates => r.duplicates
    case Unstable => if IsStable(r) then 0 else 1
    case AuditErrors => if AuditIsValid(r.stage) then 0 else 1
    case SourceCandidate => r.stage.sourceCandidate
    case MaskSurviving => r.stage.maskSurviving
    case NotRetrievedGroups => r.stage.notRetrieved
    case RejectedGroups => r.stage.rejectedByMask
    case OutsideGroups => r.stage.outsideTopK
    case RevalidationGroups => r.stage.revalidationLoss
    case UnexpectedSurvivor => r.stage.unexpectedSurvivor
    case HardNegativeCandidate => r.stage.hardNegativeCandidate
    case MappingErrors => r.stage.mappingErrors
  }

  /** The true total of a counter, however large. */
  function Total(reports: seq<Report>, counter: Counter): nat {
    if reports == [] then 0
    else Total(reports[..|reports| - 1], counter) + Value(reports[|reports| - 1].outcome, counter)
  }

  // ----- ratios

  /** A share of a total that is not zero, rounded. */
  function Ratio(part: nat, whole: nat): Option<Magnitude> {
    if whole > 0 then Some(Double(Share(part, whole))) else None
  }

  /** The reciprocal rank of a report, or zero where no expected fact was returned. */
  function RankOf(r: CaseReport): Float { if r.bestRank.Some? then Inverse(r.bestRank.value) else Finite(0.0) }

  /** The sum of the reciprocal ranks, rounded at each step. */
  function RankSum(reports: seq<Report>): Float {
    if reports == [] then Finite(0.0)
    else
      var before, last := RankSum(reports[..|reports| - 1]), reports[|reports| - 1].outcome;
      if last.expected > 0 then Plus(before, RankOf(last)) else before
  }

  function MeanRank(sum: Float, count: nat): Option<Float> { if count > 0 then Some(Over(sum, count)) else None }

  /** Comparing a rounded ratio with nine tenths is comparing products. */
  lemma RatioIsEnough(found: nat, expected: nat)
    requires expected <= U32_MAX
    ensures (Ratio(found, expected).Some? && Ratio(found, expected).value >= Double(0.9))
            <==> RecallIsEnough(found, expected)
  {
    if expected > 0 {
      ShareIsEnough(found, expected);
    }
  }

  /** A larger share has no smaller ratio, and no share is more than the whole. */
  lemma RatiosAreOrdered(a: nat, b: nat, whole: nat)
    requires a <= b <= whole && whole > 0
    ensures Ratio(a, whole).value <= Ratio(b, whole).value <= 1.0
  {
    ShareOrder(a as real, b as real, whole as real);
    DoubleMonotone(Share(a, whole), Share(b, whole));
    ShareInUnit(b, whole);
    AboveOne(Share(b, whole));
  }

  // ----- the two aggregations

  datatype Metrics = Metrics(
    cases: nat, expected: nat, found: nat, effectiveFound: nat, candidateOnly: nat,
    falseEvidence: nat, forbiddenEvidence: nat, provenanceErrors: nat, duplicates: nat,
    unstable: nat, auditErrors: nat,
    recall: Option<Magnitude>, effectiveRecall: Option<Magnitude>, meanRank: Option<Float>)

  const NO_METRICS := Metrics(0, 0, 0, 0, 0, 0, 0, 0, 0, 0, 0, None, None, None)

  predicate InMetrics(counter: Counter) {
    || counter.Cases? || counter.Expected? || counter.Found? || counter.EffectiveFound?
    || counter.CandidateOnly? || counter.FalseEvidence? || counter.ForbiddenEvidence?
    || counter.ProvenanceErrors? || counter.Duplicates? || counter.Unstable? || counter.AuditErrors?
  }

  function Metric(m: Metrics, counter: Counter): nat
    requires InMetrics(counter)
  {
    match counter
    case Cases => m.cases
    case Expected => m.expected
    case Found => m.found
    case EffectiveFound => m.effectiveFound
    case CandidateOnly => m.candidateOnly
    case FalseEvidence => m.falseEvidence
    case ForbiddenEvidence => m.forbiddenEvidence
    case ProvenanceErrors => m.provenanceErrors
    case Duplicates => m.duplicates
    case Unstable => m.unstable
    case AuditErrors => m.auditErrors
  }

  /** Every counter is the clamped total of its values. */
  ghost predicate AreCounted(m: Metrics, reports: seq<Report>) {
    forall counter :: InMetrics(counter) ==> Metric(m, counter) == Sat(Total(reports, counter))
  }

  /** The ratios are those of the clamped counters, and of the sum of the reciprocal ranks. */
  ghost predicate AreMetrics(m: Metrics, reports: seq<Report>) {
    && AreCounted(m, reports)
    && m.recall == Ratio(m.found, m.expected) && m.effectiveRecall == Ratio(m.effectiveFound, m.expected)
    && m.meanRank == MeanRank(RankSum(reports), Sat(Total(reports, Ranked)))
  }

  /** One report adds its value to every clamped total. */
  lemma AddOne(reports: seq<Report>, report: Report, counter: Counter)
    ensures Sat(Total(reports + [report], counter))
            == SatAdd(Sat(Total(reports, counter)), Value(report.outcome, counter))
  {
    assert (reports + [report])[..|reports|] == reports;
    SatAddOfSat(Total(reports, counter), Value(report.outcome, counter));
  }

  ghost predicate MetricsTookIn(r: CaseReport, was: Metrics, m: Metrics) {
    forall counter :: InMetrics(counter) ==> Metric(m, counter) == SatAdd(Metric(was, counter), Value(r, counter))
  }

  lemma MetricsMore(reports: seq<Report>, report: Report, was: Metrics, m: Metrics)
    requires AreCounted(was, reports) && MetricsTookIn(report.outcome, was, m)
    ensures AreCounted(m, reports + [report])
  {
    forall counter | InMetrics(counter) ensures Metric(m, counter) == Sat(Total(reports + [report], counter)) {
      AddOne(reports, report, counter);
    }
  }

  /** One turn of the loop: the metrics with one more report. */
  function WithReport(m: Metrics, r: CaseReport): Metrics {
    m.(cases := SatAdd(m.cases, 1),
       expected := SatAdd(m.expected, r.expected),
       found := SatAdd(m.found, r.found),
       effectiveFound := SatAdd(m.effectiveFound, r.effectiveFound),
       candidateOnly := SatAdd(m.candidateOnly, r.candidateOnly),
       falseEvidence := SatAdd(m.falseEvidence, Sat(|r.unexpected|)),
       forbiddenEvidence := SatAdd(m.forbiddenEvidence, Sat(|r.forbidden|)),
       provenanceErrors := SatAdd(m.provenanceErrors, r.provenanceErrors),
       duplicates := SatAdd(m.duplicates, r.duplicates),
       unstable := if !r.repeatStable || !r.prefixStable || !r.orderStable then SatAdd(m.unstable, 1) else m.unstable,
       auditErrors := if !AuditIsValid(r.stage) then SatAdd(m.auditErrors, 1) else m.auditErrors)
  }

  lemma ReportTakenIn(m: Metrics, r: CaseReport)
    requires m.unstable <= U32_MAX && m.auditErrors <= U32_MAX
    ensures MetricsTookIn(r, m, WithReport(m, r))
  {
  }

  /** The sum of reciprocal ranks and the number of cases that have one, as the loop keeps them. */
  ghost predicate AreRanked(sum: Float, count: nat, reports: seq<Report>) {
    sum == RankSum(reports) && count == Sat(Total(reports, Ranked))
  }

  lemma RankedMore(reports: seq<Report>, report: Report, sum: Float, count: nat)
    requires AreRanked(sum, count, reports)
    ensures if report.outcome.expected > 0
            then AreRanked(Plus(sum, RankOf(report.outcome)), SatAdd(count, 1), reports + [report])
            else AreRanked(sum, count, reports + [report])
  {
    assert (reports + [report])[..|reports|] == reports;
    AddOne(reports, report, Ranked);
  }

  /** What one turn of the loop keeps. */
  lemma OneReportMore(reports: seq<Report>, i: nat, m: Metrics, sum: Float, count: nat)
    requires i < |reports| && AreCounted(m, reports[..i]) && AreRanked(sum, count, reports[..i])
    ensures AreCounted(WithReport(m, reports[i].outcome), reports[..i + 1])
    ensures if reports[i].outcome.expected > 0
            then AreRanked(Plus(sum, RankOf(reports[i].outcome)), SatAdd(count, 1), reports[..i + 1])
            else AreRanked(sum, count, reports[..i + 1])
  {
    var r := reports[i].outcome;
    assert m.unstable == Metric(m, Unstable) && m.auditErrors == Metric(m, AuditErrors);
    ReportTakenIn(m, r);
    MetricsMore(reports[..i], reports[i], m, WithReport(m, r));
    RankedMore(reports[..i], reports[i], sum, count);
    assert reports[..i + 1] == reports[..i] + [reports[i]];
  }

  method AggregateMetrics(reports: seq<Report>) returns (m: Metrics)
    ensures AreMetrics(m, reports)
  {
    m := NO_METRICS;
    var sum, count := Finite(0.0), 0;
    var i := 0;
    while i < |reports|
      invariant 0 <= i <= |reports| && AreCounted(m, reports[..i]) && AreRanked(sum, count, reports[..i])
    {
      var r := reports[i].outcome;
      OneReportMore(reports, i, m, sum, count);
      m := WithReport(m, r);
      if r.expected > 0 {
        sum := Plus(sum, RankOf(r));
        count := SatAdd(count, 1);
      }
      i := i + 1;
    }
    assert reports[..i] == reports;
    RatiosKeepCounters(m, reports, Ratio(m.found, m.expected), Ratio(m.effectiveFound, m.expected),
                       MeanRank(sum, count));
    m := m.(recall := Ratio(m.found, m.expected), effectiveRecall := Ratio(m.effectiveFound, m.expected),
            meanRank := MeanRank(sum, count));
  }

  lemma RatiosKeepCounters(m: Metrics, reports: seq<Report>, recall: Option<Magnitude>, effective: Option<Magnitude>,
          rank: Option<Float>)
    requires AreCounted(m, reports)
    ensures AreCounted(m.(recall := recall, effectiveRecall := effective, meanRank := rank), reports)
  {
    var after := m.(recall := recall, effectiveRecall := effective, meanRank := rank);
    forall counter | InMetrics(counter) ensures Metric(after, counter) == Metric(m, counter) { }
  }

  datatype StageSummary = StageSummary(
    expected: nat, sourceCandidate: nat, maskSurviving: nat,
    notRetrieved: nat, rejectedByMask: nat, outsideTopK: nat, revalidationLoss: nat,
    unexpectedSurvivor: nat, hardNegativeCandidate: nat, mappingErrors: nat, auditErrors: nat,
    sourceRecall: Option<Magnitude>, maskRecall: Option<Magnitude>)

  const NO_SUMMARY := StageSummary(0, 0, 0, 0, 0, 0, 0, 0, 0, 0, 0, None, None)

  predicate InSummary(counter: Counter) {
    || counter.Expected? || counter.SourceCandidate? || counter.MaskSurviving?
    || counter.NotRetrievedGroups? || counter.RejectedGroups? || counter.OutsideGroups?
    || counter.RevalidationGroups? || counter.UnexpectedSurvivor? || counter.HardNegativeCandidate?
    || counter.MappingErrors? || counter.AuditErrors?
  }

  function Summarized(s: StageSummary, counter: Counter): nat
    requires InSummary(counter)
  {
    match counter
    case Expected => s.expected
    case SourceCandidate => s.sourceCandidate
    case MaskSurviving => s.maskSurviving
    case NotRetrievedGroups => s.notRetrieved
    case RejectedGroups => s.rejectedByMask
    case OutsideGroups => s.outsideTopK
    case RevalidationGroups => s.revalidationLoss
    case UnexpectedSurvivor => s.unexpectedSurvivor
    case HardNegativeCandidate => s.hardNegativeCandidate
    case MappingErrors => s.mappingErrors
    case AuditErrors => s.auditErrors
  }

  ghost predicate AreSummarized(s: StageSummary, reports: seq<Report>) {
    forall counter :: InSummary(counter) ==> Summarized(s, counter) == Sat(Total(reports, counter))
  }

  ghost predicate IsSummary(s: StageSummary, reports: seq<Report>) {
    && AreSummarized(s, reports)
    && s.sourceRecall == Ratio(s.sourceCandidate, s.expected) && s.maskRecall == Ratio(s.maskSurviving, s.expected)
  }

  ghost predicate SummaryTookIn(r: CaseReport, was: StageSummary, s: StageSummary) {
    forall counter ::
        InSummary(counter) ==> Summarized(s, counter) == SatAdd(Summarized(was, counter), Value(r, counter))
  }

  lemma SummaryMore(reports: seq<Report>, report: Report, was: StageSummary, s: StageSummary)
    requires AreSummarized(was, reports) && SummaryTookIn(report.outcome, was, s)
    ensures AreSummarized(s, reports + [report])
  {
    forall counter | InSummary(counter) ensures Summarized(s, counter) == Sat(Total(reports + [report], counter)) {
      AddOne(reports, report, counter);
    }
  }

  function WithStages(s: StageSummary, r: CaseReport): StageSummary {
    s.(expected := SatAdd(s.expected, r.expected),
       sourceCandidate := SatAdd(s.sourceCandidate, r.stage.sourceCandidate),
       maskSurviving := SatAdd(s.maskSurviving, r.stage.maskSurviving),
       notRetrieved := SatAdd(s.notRetrieved, r.stage.notRetrieved),
       rejectedByMask := SatAdd(s.rejectedByMask, r.stage.rejectedByMask),
       outsideTopK := SatAdd(s.outsideTopK, r.stage.outsideTopK),
       revalidationLoss := SatAdd(s.revalidationLoss, r.stage.revalidationLoss),
       unexpectedSurvivor := SatAdd(s.unexpectedSurvivor, r.stage.unexpectedSurvivor),
       hardNegativeCandidate := SatAdd(s.hardNegativeCandidate, r.stage.hardNegativeCandidate),
       mappingErrors := SatAdd(s.mappingErrors, r.stage.mappingErrors),
       auditErrors := if !AuditIsValid(r.stage) then SatAdd(s.auditErrors, 1) else s.auditErrors)
  }

  lemma StagesTakenIn(s: StageSummary, r: CaseReport)
    requires s.auditErrors <= U32_MAX
    ensures SummaryTookIn(r, s, WithStages(s, r))
  {
  }

  method AggregateStages(reports: seq<Report>) returns (s: StageSummary)
    ensures IsSummary(s, reports)
  {
    s := NO_SUMMARY;
    var i := 0;
    while i < |reports|
      invariant 0 <= i <= |reports| && AreSummarized(s, reports[..i])
    {
      assert s.auditErrors == Summarized(s, AuditErrors);
      StagesTakenIn(s, reports[i].outcome);
      SummaryMore(reports[..i], reports[i], s, WithStages(s, reports[i].outcome));
      assert reports[..i + 1] == reports[..i] + [reports[i]];
      s := WithStages(s, reports[i].outcome);
      i := i + 1;
    }
    assert reports[..i] == reports;
    ghost var summarized := s;
    s := s.(sourceRecall := Ratio(s.sourceCandidate, s.expected), maskRecall := Ratio(s.maskSurviving, s.expected));
    forall counter | InSummary(counter) ensures Summarized(s, counter) == Summarized(summarized, counter) { }
  }

  // ----- order does not matter

  lemma {:induction false} TotalConcat(a: seq<Report>, b: seq<Report>, counter: Counter)
    ensures Total(a + b, counter) == Total(a, counter) + Total(b, counter)
  {
    if b == [] {
      assert a + b == a;
    } else {
      var n := |b| - 1;
      TotalConcat(a, b[..n], counter);
      assert (a + b)[..|a| + n] == a + b[..n];
    }
  }

  /** Removing a report takes its value off the total. */
  lemma TotalWithout(reports: seq<Report>, k: nat, counter: Counter)
    requires k < |reports|
    ensures Total(reports, counter)
            == Total(reports[..k] + reports[k + 1..], counter) + Value(reports[k].outcome, counter)
  {
    assert reports == reports[..k + 1] + reports[k + 1..];
    TotalConcat(reports[..k + 1], reports[k + 1..], counter);
    TotalConcat(reports[..k], reports[k + 1..], counter);
    assert reports[..k + 1][..k] == reports[..k];
  }

  lemma WithoutContents(reports: seq<Report>, k: nat)
    requires k < |reports|
    ensures multiset(reports[..k] + reports[k + 1..]) == multiset(reports) - multiset{reports[k]}
  {
    assert reports == reports[..k] + [reports[k]] + reports[k + 1..];
  }

  /** The same reports in any order have the same totals. */
  lemma {:induction false} OrderIsIrrelevant(a: seq<Report>, b: seq<Report>, counter: Counter)
    requires multiset(a) == multiset(b)
    ensures Total(a, counter) == Total(b, counter)
    decreases |a|
  {
    assert |a| == |multiset(a)| == |multiset(b)| == |b|;
    if a != [] {
      var n := |a| - 1;
      assert a[n] in multiset(b);
      var k :| 0 <= k < |b| && b[k] == a[n];
      WithoutContents(a, n);
      WithoutContents(b, k);
      OrderIsIrrelevant(a[..n] + a[n + 1..], b[..k] + b[k + 1..], counter);
      TotalWithout(a, n, counter);
      TotalWithout(b, k, counter);
    }
  }

  /** So nothing but the mean rank depends on the order of the reports. */
  lemma AggregationIgnoresOrder(a: seq<Report>, b: seq<Report>, m: Metrics, n: Metrics, s: StageSummary)
    requires multiset(a) == multiset(b) && AreMetrics(m, a) && AreMetrics(n, b)
    ensures m.(meanRank := None) == n.(meanRank := None) && (m.meanRank.Some? <==> n.meanRank.Some?)
    ensures IsSummary(s, a) <==> IsSummary(s, b)
  {
    forall counter ensures Total(a, counter) == Total(b, counter) { OrderIsIrrelevant(a, b, counter); }
    forall counter | InMetrics(counter) ensures Metric(m, counter) == Metric(n, counter) { }
    SameCounters(m, n);
  }

  lemma SameCounters(m: Metrics, n: Metrics)
    requires forall counter :: InMetrics(counter) ==> Metric(m, counter) == Metric(n, counter)
    ensures m.cases == n.cases && m.expected == n.expected && m.found == n.found
    ensures m.effectiveFound == n.effectiveFound && m.candidateOnly == n.candidateOnly
    ensures m.falseEvidence == n.falseEvidence && m.forbiddenEvidence == n.forbiddenEvidence
    ensures m.provenanceErrors == n.provenanceErrors && m.duplicates == n.duplicates
    ensures m.unstable == n.unstable && m.auditErrors == n.auditErrors
  {
    assert m.cases == Metric(m, Cases) && m.expected == Metric(m, Expected) && m.found == Metric(m, Found);
    assert m.effectiveFound == Metric(m, EffectiveFound) && m.candidateOnly == Metric(m, CandidateOnly);
    assert m.falseEvidence == Metric(m, FalseEvidence) && m.forbiddenEvidence == Metric(m, ForbiddenEvidence);
    assert m.provenanceErrors == Metric(m, ProvenanceErrors) && m.duplicates == Metric(m, Duplicates);
    assert m.unstable == Metric(m, Unstable) && m.auditErrors == Metric(m, AuditErrors);
  }

  // ----- the three splits are the whole

  function OfSplit(reports: seq<Report>, split: Split): seq<Report> {
    if reports == [] then []
    else
      var last := reports[|reports| - 1];
      OfSplit(reports[..|reports| - 1], split) + if last.split == split then [last] else []
  }

  lemma TotalOfSplitStep(reports: seq<Report>, split: Split, counter: Counter)
    requires reports != []
    ensures Total(OfSplit(reports, split), counter) == Total(OfSplit(reports[..|reports| - 1], split), counter)
              + if reports[|reports| - 1].split == split then Value(reports[|reports| - 1].outcome, counter) else 0
  {
    var last := reports[|reports| - 1];
    var rest := OfSplit(reports[..|reports| - 1], split);
    assert rest + [] == rest;
    assert (rest + [last])[..|rest|] == rest;
  }

  lemma {:induction false} TotalOfSplits(reports: seq<Report>, counter: Counter)
    ensures Total(reports, counter)
         == Total(OfSplit(reports, Regression), counter) + Total(OfSplit(reports, Calibration), counter)
          + Total(OfSplit(reports, Holdout), counter)
  {
    if reports != [] {
      TotalOfSplits(reports[..|reports| - 1], counter);
      TotalOfSplitStep(reports, Regression, counter);
      TotalOfSplitStep(reports, Calibration, counter);
      TotalOfSplitStep(reports, Holdout, counter);
    }
  }

  lemma ClampedTotalOfSplits(reports: seq<Report>, counter: Counter)
    ensures Sat(Total(reports, counter))
         == SatAdd(SatAdd(Sat(Total(OfSplit(reports, Regression), counter)),
                          Sat(Total(OfSplit(reports, Calibration), counter))),
                   Sat(Total(OfSplit(reports, Holdout), counter)))
  {
    TotalOfSplits(reports, counter);
    SatAddOfFour(Total(OfSplit(reports, Regression), counter), Total(OfSplit(reports, Calibration), counter),
                 Total(OfSplit(reports, Holdout), counter), 0);
  }

  ghost predicate AddUpTo(regression: Metrics, calibration: Metrics, holdout: Metrics, total: Metrics) {
    forall counter :: InMetrics(counter) ==>
      Metric(total, counter)
          == SatAdd(SatAdd(Metric(regression, counter), Metric(calibration, counter)), Metric(holdout, counter))
  }

  /** Each counter of the total is the saturating sum of the three split counters. */
  lemma SplitsAddUp(reports: seq<Report>, regression: Metrics, calibration: Metrics, holdout: Metrics, total: Metrics)
    requires AreMetrics(regression, OfSplit(reports, Regression))
    requires AreMetrics(calibration, OfSplit(reports, Calibration))
    requires AreMetrics(holdout, OfSplit(reports, Holdout))
    requires AreMetrics(total, reports)
    ensures AddUpTo(regression, calibration, holdout, total)
  {
    forall counter | InMetrics(counter)
      ensures Metric(total, counter)
              == SatAdd(SatAdd(Metric(regression, counter), Metric(calibration, counter)), Metric(holdout, counter))
    {
      ClampedTotalOfSplits(reports, counter);
    }
  }

  // ----- conservation over the whole evaluation

  predicate AllAddUp(reports: seq<Report>) { forall i :: 0 <= i < |reports| ==> AddsUp(reports[i].outcome) }

  predicate IsSum(r: CaseReport, whole: Counter, a: Counter, b: Counter) {
    Value(r, whole) == SatAdd(Value(r, a), Value(r, b))
  }

  predicate AllSums(reports: seq<Report>, whole: Counter, a: Counter, b: Counter) {
    forall i :: 0 <= i < |reports| ==> IsSum(reports[i].outcome, whole, a, b)
  }

  lemma {:induction false} ClampedTotalIsSum(reports: seq<Report>, whole: Counter, a: Counter, b: Counter)
    requires AllSums(reports, whole, a, b)
    ensures Sat(Total(reports, whole)) == SatAdd(Sat(Total(reports, a)), Sat(Total(reports, b)))
  {
    if reports != [] {
      var n := |reports| - 1;
      assert forall i :: 0 <= i < n ==> reports[..n][i] == reports[i];
      ClampedTotalIsSum(reports[..n], whole, a, b);
      OneSumMore(reports, reports[..n], reports[n].outcome, whole, a, b);
    }
  }

  lemma OneSumMore(reports: seq<Report>, front: seq<Report>, last: CaseReport, whole: Counter, a: Counter, b: Counter)
    requires reports != [] && front == reports[..|reports| - 1] && last == reports[|reports| - 1].outcome
    requires IsSum(last, whole, a, b)
    requires Sat(Total(front, whole)) == SatAdd(Sat(Total(front, a)), Sat(Total(front, b)))
    ensures Sat(Total(reports, whole)) == SatAdd(Sat(Total(reports, a)), Sat(Total(reports, b)))
  {
    var x, y, z := Value(last, whole), Value(last, a), Value(last, b);
    LastCounted(reports, front, last, whole, x);
    LastCounted(reports, front, last, a, y);
    LastCounted(reports, front, last, b, z);
    Interchange(Total(front, whole), Total(front, a), Total(front, b), x, y, z,
                Total(reports, whole), Total(reports, a), Total(reports, b));
  }

  lemma LastCounted(reports: seq<Report>, front: seq<Report>, last: CaseReport, counter: Counter, value: nat)
    requires reports != [] && front == reports[..|reports| - 1] && last == reports[|reports| - 1].outcome
    requires value == Value(last, counter)
    ensures Total(reports, counter) == Total(front, counter) + value
  {
  }

  lemma Interchange(t: nat, a: nat, b: nat, x: nat, y: nat, z: nat, t': nat, a': nat, b': nat)
    requires Sat(t) == SatAdd(Sat(a), Sat(b)) && x == SatAdd(y, z)
    requires t' == t + x && a' == a + y && b' == b + z
    ensures Sat(t') == SatAdd(Sat(a'), Sat(b'))
  {
  }

  function AllLosses(s: StageAttribution): nat {
    s.notRetrieved + s.rejectedByMask + s.outsideTopK + s.revalidationLoss
  }

  lemma ClampedLosses(s: StageAttribution)
    ensures Losses(s) == Sat(AllLosses(s))
  {
    SatAddOfSat(s.notRetrieved, s.rejectedByMask);
    SatAddOfSat(s.notRetrieved + s.rejectedByMask, s.outsideTopK);
    SatAddOfSat(s.notRetrieved + s.rejectedByMask + s.outsideTopK, s.revalidationLoss);
  }

  function TotalLosses(reports: seq<Report>): nat {
    Total(reports, NotRetrievedGroups) + Total(reports, RejectedGroups) + Total(reports, OutsideGroups)
        + Total(reports, RevalidationGroups)
  }

  predicate IsLost(r: CaseReport) { r.missing == Sat(AllLosses(r.stage)) }

  predicate AllLost(reports: seq<Report>) { forall i :: 0 <= i < |reports| ==> IsLost(reports[i].outcome) }

  lemma {:induction false} MissingAreLost(reports: seq<Report>)
    requires AllLost(reports)
    ensures Sat(Total(reports, Missing)) == Sat(TotalLosses(reports))
  {
    if reports != [] {
      var front, last := reports[..|reports| - 1], reports[|reports| - 1].outcome;
      assert IsLost(last);
      FrontLost(reports, front);
      MissingAreLost(front);
      BothClamped(Total(front, Missing), TotalLosses(front), last.missing, AllLosses(last.stage));
      LossesStep(reports);
      LastCounted(reports, front, last, Missing, last.missing);
    }
  }

  lemma FrontLost(reports: seq<Report>, front: seq<Report>)
    requires AllLost(reports) && reports != [] && front == reports[..|reports| - 1]
    ensures AllLost(front)
  {
  }

  lemma LossesStep(reports: seq<Report>)
    requires reports != []
    ensures TotalLosses(reports)
            == TotalLosses(reports[..|reports| - 1]) + AllLosses(reports[|reports| - 1].outcome.stage)
  {
  }

  lemma BothClamped(t: nat, lost: nat, x: nat, more: nat)
    requires Sat(t) == Sat(lost) && x == Sat(more)
    ensures Sat(t + x) == Sat(lost + more)
  {
  }

  /** Groups returned and groups lost, over all stages and reports, are the groups expected. */
  lemma {:induction false} LossesAddUp(reports: seq<Report>)
    requires AllAddUp(reports)
    ensures Sat(Total(reports, Expected))
         == SatAdd(Sat(Total(reports, Found)),
                   SatAdd(SatAdd(SatAdd(Sat(Total(reports, NotRetrievedGroups)), Sat(Total(reports, RejectedGroups))),
                                 Sat(Total(reports, OutsideGroups))), Sat(Total(reports, RevalidationGroups))))
  {
    forall i | 0 <= i < |reports|
      ensures IsSum(reports[i].outcome, Expected, Found, Missing) && IsLost(reports[i].outcome)
    {
      assert AddsUp(reports[i].outcome);
      ClampedLosses(reports[i].outcome.stage);
    }
    ClampedTotalIsSum(reports, Expected, Found, Missing);
    MissingAreLost(reports);
    SatAddOfFour(Total(reports, NotRetrievedGroups), Total(reports, RejectedGroups),
                 Total(reports, OutsideGroups), Total(reports, RevalidationGroups));
  }

  /**
   * The stage summary accounts for every expected group of the evaluation: found
   * in `total`, or lost at exactly one stage; and effective found is found and
   * candidate-only together.
   */
  lemma EvaluationAddsUp(reports: seq<Report>, total: Metrics, stages: StageSummary)
    requires AllAddUp(reports) && AreMetrics(total, reports) && IsSummary(stages, reports)
    ensures stages.expected == total.expected
    ensures total.expected
         == SatAdd(total.found, SatAdd(SatAdd(SatAdd(stages.notRetrieved, stages.rejectedByMask), stages.outsideTopK),
                                       stages.revalidationLoss))
    ensures total.effectiveFound == SatAdd(total.found, total.candidateOnly)
  {
    LossesAddUp(reports);
    EffectiveAddsUp(reports);
    CountersOf(total, stages, reports);
  }

  lemma EffectiveAddsUp(reports: seq<Report>)
    requires AllAddUp(reports)
    ensures Sat(Total(reports, EffectiveFound))
            == SatAdd(Sat(Total(reports, Found)), Sat(Total(reports, CandidateOnly)))
  {
    forall i | 0 <= i < |reports|
      ensures IsSum(reports[i].outcome, EffectiveFound, Found, CandidateOnly)
    {
      assert AddsUp(reports[i].outcome);
    }
    ClampedTotalIsSum(reports, EffectiveFound, Found, CandidateOnly);
  }

  /** The counters that the accounting is about. */
  lemma CountersOf(m: Metrics, s: StageSummary, reports: seq<Report>)
    requires AreMetrics(m, reports) && IsSummary(s, reports)
    ensures m.expected == Sat(Total(reports, Expected)) == s.expected && m.found == Sat(Total(reports, Found))
    ensures m.effectiveFound == Sat(Total(reports, EffectiveFound))
    ensures m.candidateOnly == Sat(Total(reports, CandidateOnly))
    ensures s.notRetrieved == Sat(Total(reports, NotRetrievedGroups))
    ensures s.rejectedByMask == Sat(Total(reports, RejectedGroups))
    ensures s.outsideTopK == Sat(Total(reports, OutsideGroups))
    ensures s.revalidationLoss == Sat(Total(reports, RevalidationGroups))
  {
    assert m.expected == Metric(m, Expected) && m.found == Metric(m, Found);
    assert m.effectiveFound == Metric(m, EffectiveFound) && m.candidateOnly == Metric(m, CandidateOnly);
    assert s.expected == Summarized(s, Expected) && s.notRetrieved == Summarized(s, NotRetrievedGroups);
    assert s.rejectedByMask == Summarized(s, RejectedGroups) && s.outsideTopK == Summarized(s, OutsideGroups);
    assert s.revalidationLoss == Summarized(s, RevalidationGroups);
  }

  // ----- the verdict

  /** Recall of at least nine tenths, without rounding. */
  predicate RecallIsEnough(found: nat, expected: nat) { expected > 0 && 10 * found >= 9 * expected }

  predicate SplitPasses(m: Metrics) {
    && m.recall.Some? && m.recall.value >= Double(0.9)
    && m.falseEvidence == 0 && m.forbiddenEvidence == 0 && m.provenanceErrors == 0
    && m.duplicates == 0 && m.unstable == 0 && m.auditErrors == 0
  }

  predicate AllClean(reports: seq<Report>) { forall i :: 0 <= i < |reports| ==> IsClean(reports[i].outcome) }

  /** A counter is zero exactly when no report contributes to it, clamped or not. */
  lemma {:induction false} ZeroExactly(reports: seq<Report>, counter: Counter)
    ensures Sat(Total(reports, counter)) == 0
            <==> forall i :: 0 <= i < |reports| ==> Value(reports[i].outcome, counter) == 0
  {
    if reports != [] {
      var n := |reports| - 1;
      ZeroExactly(reports[..n], counter);
      assert forall i :: 0 <= i < n ==> reports[..n][i] == reports[i];
    }
  }

  predicate NoViolation(r: CaseReport) {
    && Value(r, FalseEvidence) == 0 && Value(r, ForbiddenEvidence) == 0 && Value(r, ProvenanceErrors) == 0
    && Value(r, Duplicates) == 0 && Value(r, Unstable) == 0 && Value(r, AuditErrors) == 0
  }

  lemma CleanExactly(r: CaseReport)
    ensures IsClean(r) <==> NoViolation(r)
  {
    assert |r.unexpected| == 0 <==> r.unexpected == {};
    assert |r.forbidden| == 0 <==> r.forbidden == {};
  }

  /** A split passes exactly when its recall is enough and each of its reports is clean. */
  lemma SplitPassesExactly(reports: seq<Report>, m: Metrics)
    requires AreMetrics(m, reports)
    ensures SplitPasses(m) <==> RecallIsEnough(m.found, m.expected) && AllClean(reports)
  {
    assert m.expected == Metric(m, Expected);
    RatioIsEnough(m.found, m.expected);
    NoneCountedExactly(reports, m);
    forall i | 0 <= i < |reports| ensures IsClean(reports[i].outcome) <==> NoViolation(reports[i].outcome) {
      CleanExactly(reports[i].outcome);
    }
  }

  /** No violation is counted exactly when no report has one. */
  lemma NoneCountedExactly(reports: seq<Report>, m: Metrics)
    requires AreCounted(m, reports)
    ensures m.falseEvidence == 0 && m.forbiddenEvidence == 0 && m.provenanceErrors == 0
            && m.duplicates == 0 && m.unstable == 0 && m.auditErrors == 0
            <==> forall i :: 0 <= i < |reports| ==> NoViolation(reports[i].outcome)
  {
    ZeroMetric(reports, m, FalseEvidence);
    ZeroMetric(reports, m, ForbiddenEvidence);
    ZeroMetric(reports, m, ProvenanceErrors);
    ZeroMetric(reports, m, Duplicates);
    ZeroMetric(reports, m, Unstable);
    ZeroMetric(reports, m, AuditErrors);
  }

  lemma ZeroMetric(reports: seq<Report>, m: Metrics, counter: Counter)
    requires AreCounted(m, reports) && InMetrics(counter)
    ensures Metric(m, counter) == 0 <==> forall i :: 0 <= i < |reports| ==> Value(reports[i].outcome, counter) == 0
  {
    ZeroExactly(reports, counter);
  }

  predicate AllPassed(reports: seq<Report>) { forall i :: 0 <= i < |reports| ==> reports[i].outcome.passed }

  /** Where every report passed, every expected group was found. */
  lemma {:induction false} PassedFindAll(reports: seq<Report>)
    requires AllAddUp(reports) && AllPassed(reports)
    ensures Total(reports, Found) == Total(reports, Expected) && AllClean(reports)
  {
    if reports != [] {
      var n := |reports| - 1;
      assert forall i :: 0 <= i < n ==> reports[..n][i] == reports[i];
      PassedFindAll(reports[..n]);
      assert AddsUp(reports[n].outcome);
      forall i | 0 <= i < |reports| ensures IsClean(reports[i].outcome) { assert AddsUp(reports[i].outcome); }
    }
  }

  /**
   * A regression split whose reports all passed needs only one expected group to
   * pass as a split: for it the aggregate checks add nothing else.
   */
  lemma RegressionSplitExactly(reports: seq<Report>, m: Metrics)
    requires AllAddUp(reports) && AllPassed(reports) && AreMetrics(m, reports)
    ensures SplitPasses(m) <==> Total(reports, Expected) > 0
  {
    PassedFindAll(reports);
    SplitPassesExactly(reports, m);
  }

  /** Recall and effective recall lie between zero and one; recall is not the larger one. */
  lemma RatiosInUnit(reports: seq<Report>, m: Metrics)
    requires AllAddUp(reports) && AreMetrics(m, reports) && Total(reports, Expected) > 0
    ensures m.recall.Some? && m.effectiveRecall.Some? && m.recall.value <= m.effectiveRecall.value <= 1.0
  {
    EffectiveWithinExpected(reports);
    assert m.expected == Metric(m, Expected) && m.found == Metric(m, Found)
           && m.effectiveFound == Metric(m, EffectiveFound);
    SatMonotone(Total(reports, Found), Total(reports, EffectiveFound));
    SatMonotone(Total(reports, EffectiveFound), Total(reports, Expected));
    RatiosAreOrdered(m.found, m.effectiveFound, m.expected);
  }

  lemma {:induction false} EffectiveWithinExpected(reports: seq<Report>)
    requires AllAddUp(reports)
    ensures Total(reports, Found) <= Total(reports, EffectiveFound) <= Total(reports, Expected)
  {
    if reports != [] {
      var n := |reports| - 1;
      assert forall i :: 0 <= i < n ==> reports[..n][i] == reports[i];
      EffectiveWithinExpected(reports[..n]);
      assert AddsUp(reports[n].outcome);
    }
  }

  method Partition(reports: seq<Report>, split: Split) returns (part: seq<Report>)
    ensures part == OfSplit(reports, split)
  {
    part := [];
    var i := 0;
    while i < |reports|
      invariant 0 <= i <= |reports| && part == OfSplit(reports[..i], split)
    {
      assert reports[..i + 1][..i] == reports[..i];
      if reports[i].split == split {
        part := part + [reports[i]];
      } else {
        assert part + [] == part;
      }
      i := i + 1;
    }
    assert reports[..i] == reports;
  }

  lemma {:induction false} CleanInEverySplit(reports: seq<Report>)
    ensures AllClean(reports) <==> AllClean(OfSplit(reports, Regression)) && AllClean(OfSplit(reports, Calibration))
                                   && AllClean(OfSplit(reports, Holdout))
  {
    if reports != [] {
      var n := |reports| - 1;
      CleanInEverySplit(reports[..n]);
      CleanMore(reports[..n], reports[n]);
      assert reports == reports[..n] + [reports[n]];
      CleanMore(OfSplit(reports[..n], Regression), reports[n]);
      CleanMore(OfSplit(reports[..n], Calibration), reports[n]);
      CleanMore(OfSplit(reports[..n], Holdout), reports[n]);
      assert OfSplit(reports[..n], Regression) + [] == OfSplit(reports[..n], Regression);
      assert OfSplit(reports[..n], Calibration) + [] == OfSplit(reports[..n], Calibration);
      assert OfSplit(reports[..n], Holdout) + [] == OfSplit(reports[..n], Holdout);
    }
  }

  lemma CleanMore(reports: seq<Report>, report: Report)
    ensures AllClean(reports + [report]) <==> AllClean(reports) && IsClean(report.outcome)
  {
    assert forall i :: 0 <= i < |reports| ==> (reports + [report])[i] == reports[i];
    assert (reports + [report])[|reports|] == report;
  }

  predicate EnoughIn(reports: seq<Report>, split: Split) {
    RecallIsEnough(Sat(Total(OfSplit(reports, split), Found)), Sat(Total(OfSplit(reports, split), Expected)))
  }

  /**
   * The evaluation of all cases. It passes exactly when every regression case
   * passed, no case of any split has a violation, and every split found enough.
   */
  method Evaluate(reports: seq<Report>)
    returns (regression: Metrics, calibration: Metrics, holdout: Metrics, total: Metrics,
             stages: StageSummary, passed: bool)
    ensures AreMetrics(regression, OfSplit(reports, Regression))
            && AreMetrics(calibration, OfSplit(reports, Calibration))
    ensures AreMetrics(holdout, OfSplit(reports, Holdout)) && AreMetrics(total, reports) && IsSummary(stages, reports)
    ensures AddUpTo(regression, calibration, holdout, total)
    ensures passed <==> && AllPassed(OfSplit(reports, Regression)) && AllClean(reports)
                        && EnoughIn(reports, Regression) && EnoughIn(reports, Calibration) && EnoughIn(reports, Holdout)
  {
    var regressionReports := Partition(reports, Regression);
    var calibrationReports := Partition(reports, Calibration);
    var holdoutReports := Partition(reports, Holdout);
    regression := AggregateMetrics(regressionReports);
    calibration := AggregateMetrics(calibrationReports);
    holdout := AggregateMetrics(holdoutReports);
    total := AggregateMetrics(reports);
    stages := AggregateStages(reports);
    passed := AllPassed(regressionReports) && SplitPasses(regression) && SplitPasses(calibration)
        && SplitPasses(holdout);
    SplitsAddUp(reports, regression, calibration, holdout, total);
    SplitPassesExactly(regressionReports, regression);
    SplitPassesExactly(calibrationReports, calibration);
    SplitPassesExactly(holdoutReports, holdout);
    CleanInEverySplit(reports);
  }
}
