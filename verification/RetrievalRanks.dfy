// The mean reciprocal rank in 64-bit floating-point arithmetic: when it is finite,
// how near to the exact mean it is, and that it depends on the order of the reports.
module RetrievalRanks {
  import opened Wrappers
  import opened Saturating
  import opened Doubles
  import opened RetrievalCase
  import opened RetrievalAggregate

  // ----- exact sums

  /** What a report adds to the sum of reciprocal ranks, without rounding; rank zero adds nothing here. */
  function ExactRank(r: CaseReport): Magnitude {
    if r.expected > 0 && r.bestRank.Some? && r.bestRank.value > 0 then Share(1, r.bestRank.value) else 0.0
  }

  function ExactSum(reports: seq<Report>): Magnitude {
    if reports == [] then 0.0
    else ExactSum(reports[..|reports| - 1]) + ExactRank(reports[|reports| - 1].outcome)
  }

  lemma {:induction false} ExactConcat(a: seq<Report>, b: seq<Report>)
    ensures ExactSum(a + b) == ExactSum(a) + ExactSum(b)
  {
    if b == [] {
      assert a + b == a;
    } else {
      var n := |b| - 1;
      ExactConcat(a, b[..n]);
      assert (a + b)[..|a| + n] == a + b[..n];
    }
  }

  lemma ExactWithout(reports: seq<Report>, k: nat)
    requires k < |reports|
    ensures ExactSum(reports) == ExactSum(reports[..k] + reports[k + 1..]) + ExactRank(reports[k].outcome)
  {
    var front, back := reports[..k], reports[k + 1..];
    AroundOne(reports, k, front, back);
    ExactBetween(front, reports[k], back);
  }

  lemma AroundOne(reports: seq<Report>, k: nat, front: seq<Report>, back: seq<Report>)
    requires k < |reports| && front == reports[..k] && back == reports[k + 1..]
    ensures reports == front + [reports[k]] + back
  {
  }

  lemma ExactBetween(front: seq<Report>, report: Report, back: seq<Report>)
    ensures ExactSum(front + [report] + back) == ExactSum(front + back) + ExactRank(report.outcome)
  {
    ExactConcat(front + [report], back);
    ExactConcat(front, back);
    assert (front + [report])[..|front|] == front;
  }

  lemma {:induction false} ExactOrderIsIrrelevant(a: seq<Report>, b: seq<Report>)
    requires multiset(a) == multiset(b)
    ensures ExactSum(a) == ExactSum(b)
    decreases |a|
  {
    assert |a| == |multiset(a)| == |multiset(b)| == |b|;
    if a != [] {
      var n := |a| - 1;
      assert a[n] in multiset(b);
      var k :| 0 <= k < |b| && b[k] == a[n];
      WithoutContents(a, n);
      WithoutContents(b, k);
      ExactOrderIsIrrelevant(a[..n] + a[n + 1..], b[..k] + b[k + 1..]);
      ExactWithout(a, n);
      ExactWithout(b, k);
    }
  }

  // ----- rank zero

  predicate IsZeroRanked(r: CaseReport) { r.expected > 0 && r.bestRank == Some(0) }

  ghost predicate HasZeroRank(reports: seq<Report>) {
    exists report :: report in reports && IsZeroRanked(report.outcome)
  }

  lemma ZeroRankSplits(reports: seq<Report>, report: Report)
    ensures HasZeroRank(reports + [report]) <==> HasZeroRank(reports) || IsZeroRanked(report.outcome)
  {
    assert report in reports + [report];
    if HasZeroRank(reports) {
      var other :| other in reports && IsZeroRanked(other.outcome);
      assert other in reports + [report];
    }
  }

  /** The sum is infinite exactly when some best rank is zero. */
  lemma {:induction false} FiniteExactly(reports: seq<Report>)
    ensures RankSum(reports).Finite? <==> !HasZeroRank(reports)
  {
    if reports != [] {
      var n := |reports| - 1;
      FiniteExactly(reports[..n]);
      ZeroRankSplits(reports[..n], reports[n]);
      assert reports == reports[..n] + [reports[n]];
    }
  }

  // ----- rounding

  predicate Within(x: real, y: real, error: real) { -error <= x - y <= error }

  /** The bound on the error of a sum of `k` reciprocal ranks. */
  function SumError(k: nat): real {
    if k == 0 then 0.0 else SumError(k - 1) + (k + 1) as real * HALF_ULP
  }

  /** A sum of `k` rounded terms and one more. */
  lemma OneMoreTerm(sum: Magnitude, exact: real, k: nat, term: Magnitude, share: real)
    requires sum <= k as real && term <= 1.0 && k < 0x1_0000_0000
    requires Within(sum, exact, SumError(k)) && Within(term, share, HALF_ULP)
    ensures Double(sum + term) <= (k + 1) as real
    ensures Within(Double(sum + term), exact + share, SumError(k + 1))
  {
    PlusBounded(sum, k, term, 1);
    DoubleNear(sum + term);
  }

  /** The rounded sum is within the number of ranked reports, and near the exact sum. */
  lemma {:induction false} SumIsNear(reports: seq<Report>)
    requires !HasZeroRank(reports) && Total(reports, Ranked) <= U32_MAX
    ensures var k, sum := Total(reports, Ranked), RankSum(reports);
            && sum.Finite? && sum.value <= k as real
            && Within(sum.value, ExactSum(reports), SumError(k))
  {
    FiniteExactly(reports);
    if reports != [] {
      var n := |reports| - 1;
      var r := reports[n].outcome;
      ZeroRankSplits(reports[..n], reports[n]);
      assert reports == reports[..n] + [reports[n]];
      SumIsNear(reports[..n]);
      if r.expected > 0 {
        if r.bestRank.Some? {
          InverseInUnit(r.bestRank.value);
        }
        OneMoreTerm(RankSum(reports[..n]).value, ExactSum(reports[..n]), Total(reports[..n], Ranked),
                    RankOf(r).value, ExactRank(r));
      }
    }
  }

  // ----- the mean

  /**
   * The mean reciprocal rank is infinite exactly when some ranked case was answered
   * at rank zero, and lies between zero and one otherwise.
   */
  lemma MeanInUnit(reports: seq<Report>, m: Metrics)
    requires AreMetrics(m, reports) && 0 < Total(reports, Ranked) <= U32_MAX
    ensures m.meanRank.Some? && (m.meanRank.value.Infinite? <==> HasZeroRank(reports))
    ensures m.meanRank.value.Finite? ==> m.meanRank.value.value <= 1.0
  {
    MeanOf(reports, m);
    FiniteExactly(reports);
    if !HasZeroRank(reports) {
      var k, sum := Total(reports, Ranked), RankSum(reports).value;
      SumIsNear(reports);
      OverInUnit(sum, k);
    }
  }

  /** `x` added up `k` times. */
  function Times(x: real, k: nat): real { if k == 0 then 0.0 else x + Times(x, k - 1) }

  lemma {:induction false} TimesIsProduct(x: real, k: nat)
    ensures Times(x, k) == x * k as real
  {
    if k > 0 {
      TimesIsProduct(x, k - 1);
      OneTimeMore(x, (k - 1) as real);
    }
  }

  lemma OneTimeMore(x: real, y: real)
    ensures x + x * y == x * (y + 1.0)
  {
  }

  lemma {:induction false} TimesSplits(x: real, y: real, k: nat)
    ensures Times(x + y, k) == Times(x, k) + Times(y, k)
  {
    if k > 0 {
      TimesSplits(x, y, k - 1);
    }
  }

  lemma {:induction false} TimesOrder(x: real, y: real, k: nat)
    requires x < y && k > 0
    ensures Times(x, k) < Times(y, k)
  {
    if k > 1 {
      TimesOrder(x, y, k - 1);
    }
  }

  /** How far the mean of `k` reciprocal ranks may be from the exact mean. */
  function MeanError(k: nat): real { (k + 5) as real * HALF_ULP }

  lemma {:induction false} UlpsAddUp(k: nat)
    ensures Times(HALF_ULP, k) == k as real * HALF_ULP
  {
    if k > 0 {
      UlpsAddUp(k - 1);
    }
  }

  lemma {:induction false} SumErrorBound(k: nat)
    ensures SumError(k) <= Times((k + 4) as real * HALF_ULP, k)
  {
    if k > 0 {
      SumErrorBound(k - 1);
      UlpsAddUp(k - 1);
      TimesSplits((k + 3) as real * HALF_ULP, HALF_ULP, k - 1);
      assert (k + 3) as real * HALF_ULP + HALF_ULP == (k + 4) as real * HALF_ULP;
    }
  }

  /** Near sums of `k` terms have near means. */
  lemma NearMeans(q: real, e: real, k: nat, bound: real)
    requires k > 0 && Within(Times(q, k), Times(e, k), Times(bound, k))
    ensures Within(q, e, bound)
  {
    if q > e + bound {
      TimesSplits(e, bound, k);
      TimesOrder(e + bound, q, k);
    }
    if e > q + bound {
      TimesSplits(q, bound, k);
      TimesOrder(q + bound, e, k);
    }
  }

  lemma {:induction false} OnesAddUp(k: nat)
    ensures Times(1.0, k) == k as real
  {
    if k > 0 {
      OnesAddUp(k - 1);
    }
  }

  lemma RoundedMean(sum: real, exact: real, k: nat, q: Magnitude, e: real)
    requires k > 0 && Times(q, k) == sum && Times(e, k) == exact
    requires sum <= k as real && Within(sum, exact, SumError(k))
    ensures Within(Double(q), e, MeanError(k))
  {
    SumErrorBound(k);
    NearMeans(q, e, k, (k + 4) as real * HALF_ULP);
    OnesAddUp(k);
    if q > 1.0 {
      TimesOrder(1.0, q, k);
    }
    DoubleNear(q);
  }

  /** The quotient behind a mean. */
  lemma QuotientOf(a: Magnitude, k: nat) returns (q: Magnitude)
    requires k > 0
    ensures Times(q, k) == a && Over(Finite(a), k) == Finite(Double(q))
  {
    ShareOrder(0.0, a, k as real);
    q := a / k as real;
    TimesIsProduct(q, k);
  }

  lemma MeanOf(reports: seq<Report>, m: Metrics)
    requires AreMetrics(m, reports) && 0 < Total(reports, Ranked) <= U32_MAX
    ensures m.meanRank == Some(Over(RankSum(reports), Total(reports, Ranked)))
  {
  }

  /** `e` is the mean without rounding. */
  lemma MeanIsNear(reports: seq<Report>, m: Metrics, k: nat, e: real)
    requires AreMetrics(m, reports) && 0 < k == Total(reports, Ranked) <= U32_MAX && !HasZeroRank(reports)
    requires Times(e, k) == ExactSum(reports)
    ensures m.meanRank.Some? && m.meanRank.value.Finite? && Within(m.meanRank.value.value, e, MeanError(k))
  {
    MeanOf(reports, m);
    SumIsNear(reports);
    var q := QuotientOf(RankSum(reports).value, k);
    RoundedMean(RankSum(reports).value, ExactSum(reports), k, q, e);
  }

  lemma BothNear(x: real, y: real, middle: real, error: real)
    requires Within(x, middle, error) && Within(y, middle, error)
    ensures Within(x, y, 2.0 * error)
  {
  }

  /** In two orders the mean is finite or infinite alike, and differs by two rounding errors at most. */
  lemma MeansAreNear(a: seq<Report>, b: seq<Report>, m: Metrics, n: Metrics, k: nat)
    requires multiset(a) == multiset(b) && AreMetrics(m, a) && AreMetrics(n, b)
    requires 0 < k == Total(a, Ranked) <= U32_MAX
    ensures m.meanRank.Some? && n.meanRank.Some? && (m.meanRank.value.Finite? <==> n.meanRank.value.Finite?)
    ensures m.meanRank.value.Finite? ==>
              Within(m.meanRank.value.value, n.meanRank.value.value, 2.0 * MeanError(k))
  {
    OrderIsIrrelevant(a, b, Ranked);
    ZeroRankInAnyOrder(a, b);
    MeanInUnit(a, m);
    MeanInUnit(b, n);
    if !HasZeroRank(a) {
      ExactOrderIsIrrelevant(a, b);
      var e := QuotientOf(ExactSum(a), k);
      MeanIsNear(a, m, k, e);
      MeanIsNear(b, n, k, e);
      BothNear(m.meanRank.value.value, n.meanRank.value.value, e, MeanError(k));
    }
  }

  lemma ZeroRankInAnyOrder(a: seq<Report>, b: seq<Report>)
    requires multiset(a) == multiset(b)
    ensures HasZeroRank(a) <==> HasZeroRank(b)
  {
    assert forall report :: report in a <==> report in multiset(a);
    assert forall report :: report in b <==> report in multiset(b);
  }

  // ----- ranks whose reciprocals are exact

  /** Answered at rank one, two or four, or not at all. */
  predicate HasExactRank(r: CaseReport) {
    r.expected > 0 && r.bestRank.Some? ==> r.bestRank.value == 1 || r.bestRank.value == 2 || r.bestRank.value == 4
  }

  function Quarter(n: nat): Magnitude { n as real / 4.0 }

  /** Quarters of whole numbers are not rounded. */
  lemma QuarterIsExact(n: nat)
    requires n <= 0x4_0000_0000
    ensures Double(Quarter(n)) == Quarter(n)
  {
    if n >= 4 {
      assert Halved(n, 1) == n as real / 2.0 && Halved(n, 2) == Quarter(n);
      WholeIsExact(n, 2);
    } else if n > 0 {
      NaturalIsExact(n);
      HalfIsExact(n as real);
      HalfIsExact(n as real / 2.0);
    }
  }

  lemma HalfIsExact(x: Magnitude)
    requires 0.0 < x < 4.0 && Double(x) == x
    ensures Double(x / 2.0) == x / 2.0
  {
    if x < 2.0 {
      assert Double(x / 2.0) == Double(2.0 * (x / 2.0)) / 2.0;
    } else {
      assert Double(x) == 2.0 * Double(x / 2.0);
    }
  }

  /** What a report with an exact rank adds, in quarters. */
  function Quarters(r: CaseReport): nat
    requires HasExactRank(r)
  {
    if r.expected > 0 && r.bestRank.Some? then 4 / r.bestRank.value else 0
  }

  lemma ExactRankIs(r: CaseReport)
    requires HasExactRank(r) && r.expected > 0
    ensures RankOf(r) == Finite(Quarter(Quarters(r))) && ExactRank(r) == Quarter(Quarters(r))
  {
    if r.bestRank.Some? {
      var rank := r.bestRank.value;
      assert Share(1, rank) == Quarter(4 / rank);
      QuarterIsExact(4 / rank);
    }
  }

  lemma PlusQuarters(a: nat, b: nat)
    requires a + b <= 0x4_0000_0000
    ensures Plus(Finite(Quarter(a)), Finite(Quarter(b))) == Finite(Quarter(a + b))
    ensures Quarter(a) + Quarter(b) == Quarter(a + b)
  {
    QuarterIsExact(a + b);
  }

  predicate AllExact(reports: seq<Report>) { forall report <- reports :: HasExactRank(report.outcome) }

  ghost predicate IsQuarters(reports: seq<Report>, n: nat) {
    && n <= 4 * Total(reports, Ranked)
    && RankSum(reports) == Finite(Quarter(n)) && ExactSum(reports) == Quarter(n)
  }

  lemma ExactMore(front: seq<Report>, last: Report)
    requires last.outcome.expected > 0
    ensures ExactSum(front + [last]) == ExactSum(front) + ExactRank(last.outcome)
  {
    assert (front + [last])[..|front|] == front;
  }

  lemma UnrankedMore(front: seq<Report>, last: Report)
    requires last.outcome.expected == 0
    ensures RankSum(front + [last]) == RankSum(front) && ExactSum(front + [last]) == ExactSum(front)
    ensures Total(front + [last], Ranked) == Total(front, Ranked)
  {
    assert (front + [last])[..|front|] == front;
  }

  lemma QuartersMore(front: seq<Report>, last: Report, n: nat, q: nat)
    requires IsQuarters(front, n) && last.outcome.expected > 0 && q <= 4 && Total(front, Ranked) < U32_MAX
    requires RankOf(last.outcome) == Finite(Quarter(q)) && ExactRank(last.outcome) == Quarter(q)
    ensures IsQuarters(front + [last], n + q)
  {
    SumMore(front, last);
    ExactMore(front, last);
    PlusQuarters(n, q);
  }

  /** The sum of such ranks is not rounded at all. */
  lemma {:induction false} SumIsExact(reports: seq<Report>) returns (n: nat)
    requires AllExact(reports) && Total(reports, Ranked) <= U32_MAX
    ensures IsQuarters(reports, n)
  {
    if reports == [] {
      n := 0;
    } else {
      var front, last := reports[..|reports| - 1], reports[|reports| - 1];
      assert reports == front + [last];
      FrontExact(front, last);
      n := SumIsExact(front);
      n := OneMoreExact(front, last, n);
    }
  }

  lemma FrontExact(front: seq<Report>, last: Report)
    requires AllExact(front + [last])
    ensures AllExact(front) && HasExactRank(last.outcome)
    ensures Total(front + [last], Ranked) == Total(front, Ranked) + if last.outcome.expected > 0 then 1 else 0
  {
    assert last in front + [last] && forall report <- front :: report in front + [last];
    assert (front + [last])[..|front|] == front;
  }

  lemma OneMoreExact(front: seq<Report>, last: Report, n: nat) returns (more: nat)
    requires IsQuarters(front, n) && HasExactRank(last.outcome)
    requires last.outcome.expected > 0 ==> Total(front, Ranked) < U32_MAX
    ensures IsQuarters(front + [last], more)
  {
    if last.outcome.expected > 0 {
      ExactRankIs(last.outcome);
      QuartersMore(front, last, n, Quarters(last.outcome));
      more := n + Quarters(last.outcome);
    } else {
      UnrankedMore(front, last);
      more := n;
    }
  }

  /** Where every best rank is one, two or four, the mean is the same in any order. */
  lemma ExactRanksIgnoreOrder(a: seq<Report>, b: seq<Report>, m: Metrics, n: Metrics)
    requires multiset(a) == multiset(b) && AreMetrics(m, a) && AreMetrics(n, b)
    requires AllExact(a) && Total(a, Ranked) <= U32_MAX
    ensures m.meanRank == n.meanRank
  {
    OrderIsIrrelevant(a, b, Ranked);
    assert AllExact(b) by {
      assert forall report :: report in b <==> report in multiset(b);
      assert forall report :: report in a <==> report in multiset(a);
    }
    var x := SumIsExact(a);
    var y := SumIsExact(b);
    ExactOrderIsIrrelevant(a, b);
    assert RankSum(a) == RankSum(b);
  }

  // ----- order matters

  const THIRD: Magnitude := 6004799503160661.0 / 18014398509481984.0

  const SUM_THIRD_LAST: Magnitude := 5254199565265579.0 / 2251799813685248.0

  const SUM_THIRD_FIRST: Magnitude := 5254199565265578.0 / 2251799813685248.0

  lemma ThirdIs()
    ensures Double(Share(1, 3)) == THIRD
  {
    assert Share(1, 3) == 1.0 / 3.0;
    assert Nearest(4.0 / 3.0 * ULPS) == 6004799503160661;
    assert Double(4.0 / 3.0) == 6004799503160661.0 / ULPS;
    assert Double(2.0 / 3.0) == Double(4.0 / 3.0) / 2.0;
    assert Double(1.0 / 3.0) == Double(2.0 / 3.0) / 2.0;
  }

  /** Two, and a third rounded, added in the order one, one, third. */
  lemma SumThirdLast()
    ensures Plus(Plus(Plus(Finite(0.0), Finite(1.0)), Finite(1.0)), Finite(THIRD)) == Finite(SUM_THIRD_LAST)
  {
    NaturalIsExact(1);
    NaturalIsExact(2);
    var x := 2.0 + THIRD;
    assert Nearest(x / 2.0 * ULPS) == 5254199565265579;
    assert Double(x) == 2.0 * Double(x / 2.0);
  }

  /** And in the order third, one, one: the last digit is another one. */
  lemma SumThirdFirst()
    ensures Plus(Plus(Plus(Finite(0.0), Finite(THIRD)), Finite(1.0)), Finite(1.0)) == Finite(SUM_THIRD_FIRST)
  {
    assert Nearest(4.0 * THIRD * ULPS) == 6004799503160661;
    assert Double(4.0 * THIRD) == 4.0 * THIRD;
    assert Double(2.0 * THIRD) == Double(4.0 * THIRD) / 2.0;
    assert Double(THIRD) == Double(2.0 * THIRD) / 2.0;
    var x := THIRD + 1.0;
    assert Nearest(x * ULPS) == 6004799503160661;
    var y := Double(x) + 1.0;
    assert Nearest(y / 2.0 * ULPS) == 5254199565265578;
    assert Double(y) == 2.0 * Double(y / 2.0);
  }

  /** A third of each sum, rounded. */
  lemma ThirdsDiffer()
    ensures Over(Finite(SUM_THIRD_LAST), 3) == Finite(7005599420354105.0 / 9007199254740992.0)
    ensures Over(Finite(SUM_THIRD_FIRST), 3) == Finite(7005599420354104.0 / 9007199254740992.0)
  {
    var x: Magnitude := 5254199565265579.0 / 6755399441055744.0;
    assert Nearest(2.0 * x * ULPS) == 7005599420354105;
    assert Double(x) == Double(2.0 * x) / 2.0;
    var y: Magnitude := 5254199565265578.0 / 6755399441055744.0;
    assert Nearest(2.0 * y * ULPS) == 7005599420354104;
    assert Double(y) == Double(2.0 * y) / 2.0;
  }

  lemma SumMore(reports: seq<Report>, report: Report)
    requires report.outcome.expected > 0
    ensures RankSum(reports + [report]) == Plus(RankSum(reports), RankOf(report.outcome))
    ensures Total(reports + [report], Ranked) == Total(reports, Ranked) + 1
  {
    assert (reports + [report])[..|reports|] == reports;
  }

  lemma SumOfThree(a: Report, b: Report, c: Report)
    requires a.outcome.expected > 0 && b.outcome.expected > 0 && c.outcome.expected > 0
    ensures RankSum([a, b, c])
            == Plus(Plus(Plus(Finite(0.0), RankOf(a.outcome)), RankOf(b.outcome)), RankOf(c.outcome))
    ensures Total([a, b, c], Ranked) == 3
  {
    SumMore([], a);
    SumMore([a], b);
    SumMore([a, b], c);
    assert [] + [a] == [a] && [a] + [b] == [a, b] && [a, b] + [c] == [a, b, c];
  }

  lemma MeanOfThree(a: Report, b: Report, c: Report, m: Metrics, sum: Float)
    requires a.outcome.expected > 0 && b.outcome.expected > 0 && c.outcome.expected > 0
    requires AreMetrics(m, [a, b, c])
    requires Plus(Plus(Plus(Finite(0.0), RankOf(a.outcome)), RankOf(b.outcome)), RankOf(c.outcome)) == sum
    ensures m.meanRank == Some(Over(sum, 3))
  {
    SumOfThree(a, b, c);
    MeanOf([a, b, c], m);
  }

  lemma RanksOneAndThree(one: CaseReport, three: CaseReport)
    requires one.bestRank == Some(1) && three.bestRank == Some(3)
    ensures RankOf(one) == Finite(1.0) && RankOf(three) == Finite(THIRD)
  {
    ThirdIs();
    NaturalIsExact(1);
    assert Share(1, 1) == 1.0;
  }

  lemma MeanThirdLast(one: Report, three: Report, m: Metrics)
    requires one.outcome.expected > 0 && RankOf(one.outcome) == Finite(1.0)
    requires three.outcome.expected > 0 && RankOf(three.outcome) == Finite(THIRD)
    requires AreMetrics(m, [one, one, three])
    ensures m.meanRank == Some(Finite(7005599420354105.0 / 9007199254740992.0))
  {
    SumThirdLast();
    MeanOfThree(one, one, three, m, Finite(SUM_THIRD_LAST));
    ThirdsDiffer();
  }

  lemma MeanThirdFirst(one: Report, three: Report, n: Metrics)
    requires one.outcome.expected > 0 && RankOf(one.outcome) == Finite(1.0)
    requires three.outcome.expected > 0 && RankOf(three.outcome) == Finite(THIRD)
    requires AreMetrics(n, [three, one, one])
    ensures n.meanRank == Some(Finite(7005599420354104.0 / 9007199254740992.0))
  {
    SumThirdFirst();
    MeanOfThree(three, one, one, n, Finite(SUM_THIRD_FIRST));
    ThirdsDiffer();
  }

  /** Three reports, answered at ranks one, one and three, have another mean rank in another order. */
  lemma OrderMatters(one: Report, three: Report, m: Metrics, n: Metrics)
    requires one.outcome.expected > 0 && one.outcome.bestRank == Some(1)
    requires three.outcome.expected > 0 && three.outcome.bestRank == Some(3)
    requires AreMetrics(m, [one, one, three]) && AreMetrics(n, [three, one, one])
    ensures m.meanRank == Some(Finite(7005599420354105.0 / 9007199254740992.0))
    ensures n.meanRank == Some(Finite(7005599420354104.0 / 9007199254740992.0))
  {
    RanksOneAndThree(one.outcome, three.outcome);
    MeanThirdLast(one, three, m);
    MeanThirdFirst(one, three, n);
  }
}
