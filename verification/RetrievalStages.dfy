// `attribute_retrieval_stages` and the group counts of `score_case`: where each
// expected group of facts was lost.
module RetrievalStages {
  import opened Wrappers
  import opened Saturating

  const TOP_K := 5

  datatype Node = Origin | Peer

  /** One audited candidate; its fact is missing where the locator maps to none. */
  datatype Candidate = Candidate(factId: Option<string>, relevant: bool)

  datatype Call = Call(node: Node, candidates: seq<Candidate>)

  type Group = seq<string>

  datatype Case = Case(expectedGroups: seq<Group>, relevant: set<string>, allowedSupport: set<string>,
          forbidden: set<string>)

  datatype StageAttribution = StageAttribution(
    sourceCandidate: nat, maskSurviving: nat,
    notRetrieved: nat, rejectedByMask: nat, outsideTopK: nat, revalidationLoss: nat,
    unexpectedSurvivor: nat, hardNegativeCandidate: nat, mappingErrors: nat,
    auditComplete: bool, auditStable: bool)

  // ----- the three sets of facts

  /** Relevant candidates in front of position `i`. */
  function RelevantBefore(candidates: seq<Candidate>, i: nat): (n: nat)
    requires i <= |candidates|
    ensures n <= i
  {
    if i == 0 then 0 else RelevantBefore(candidates, i - 1) + if candidates[i - 1].relevant then 1 else 0
  }

  predicate IsFact(candidate: Candidate, id: string) { candidate.factId == Some(id) }

  ghost predicate IsCandidate(calls: seq<Call>, id: string) {
    exists c, i :: 0 <= c < |calls| && 0 <= i < |calls[c].candidates| && IsFact(calls[c].candidates[i], id)
  }

  ghost predicate Survives(calls: seq<Call>, id: string) {
    exists c, i :: 0 <= c < |calls| && 0 <= i < |calls[c].candidates| && IsFact(calls[c].candidates[i], id)
                   && calls[c].candidates[i].relevant
  }

  /** Among the first `TOP_K` relevant candidates of some call. */
  ghost predicate IsEmitted(calls: seq<Call>, id: string) {
    exists c, i :: 0 <= c < |calls| && 0 <= i < |calls[c].candidates| && EmittedAt(calls[c].candidates, i, id)
  }

  predicate EmittedAt(candidates: seq<Candidate>, i: nat, id: string)
    requires i < |candidates|
  {
    IsFact(candidates[i], id) && candidates[i].relevant && RelevantBefore(candidates, i) < TOP_K
  }

  /** Emitted facts survived the mask, and those were candidates. */
  lemma StagesAreNested(calls: seq<Call>, id: string)
    ensures IsEmitted(calls, id) ==> Survives(calls, id)
    ensures Survives(calls, id) ==> IsCandidate(calls, id)
  {
    if IsEmitted(calls, id) {
      var c, i :| 0 <= c < |calls| && 0 <= i < |calls[c].candidates| && EmittedAt(calls[c].candidates, i, id);
      assert IsFact(calls[c].candidates[i], id);
    }
  }

  ghost function EmittedPositions(candidates: seq<Candidate>): set<nat> {
    set i: nat | i < |candidates| && candidates[i].relevant && RelevantBefore(candidates, i) < TOP_K
  }

  ghost function EarlyRelevant(candidates: seq<Candidate>, n: nat): set<nat>
    requires n <= |candidates|
  {
    set i: nat | i < n && candidates[i].relevant && RelevantBefore(candidates, i) < TOP_K
  }

  /** A call emits its first `TOP_K` relevant candidates, or all if it has fewer. */
  lemma CallEmitsAtMostTopK(candidates: seq<Candidate>)
    ensures |EmittedPositions(candidates)| == if RelevantBefore(candidates, |candidates|) < TOP_K
                                              then RelevantBefore(candidates, |candidates|) else TOP_K
  {
    EarlyRelevantSize(candidates, |candidates|);
    assert EarlyRelevant(candidates, |candidates|) == EmittedPositions(candidates);
  }

  lemma {:induction false} EarlyRelevantSize(candidates: seq<Candidate>, n: nat)
    requires n <= |candidates|
    ensures |EarlyRelevant(candidates, n)|
            == if RelevantBefore(candidates, n) < TOP_K then RelevantBefore(candidates, n) else TOP_K
  {
    if n == 0 {
      assert EarlyRelevant(candidates, 0) == {};
    } else {
      EarlyRelevantSize(candidates, n - 1);
      var before := EarlyRelevant(candidates, n - 1);
      assert n - 1 !in before;
      if candidates[n - 1].relevant && RelevantBefore(candidates, n - 1) < TOP_K {
        assert EarlyRelevant(candidates, n) == before + {n - 1};
      } else {
        assert EarlyRelevant(candidates, n) == before;
      }
    }
  }

  // ----- the fate of a group

  predicate Has(group: Group, facts: set<string>) { exists id <- group :: id in facts }

  datatype Fate = Returned | NotRetrieved | RejectedByMask | OutsideTopK | LostAtRevalidation

  /** The facts known at each stage. */
  datatype Facts = Facts(returned: set<string>, candidates: set<string>, surviving: set<string>, emitted: set<string>)

  function FateOf(group: Group, facts: Facts): Fate {
    if Has(group, facts.returned) then Returned
    else if !Has(group, facts.candidates) then NotRetrieved
    else if !Has(group, facts.surviving) then RejectedByMask
    else if !Has(group, facts.emitted) then OutsideTopK
    else LostAtRevalidation
  }

  function FateCount(groups: seq<Group>, facts: Facts, fate: Fate): nat {
    if groups == [] then 0
    else FateCount(groups[..|groups| - 1], facts, fate) + if FateOf(groups[|groups| - 1], facts) == fate then 1 else 0
  }

  function HasCount(groups: seq<Group>, facts: set<string>): (n: nat)
    ensures n <= |groups|
  {
    if groups == [] then 0
    else HasCount(groups[..|groups| - 1], facts) + if Has(groups[|groups| - 1], facts) then 1 else 0
  }

  /** Every expected group is returned or lost at exactly one stage. */
  lemma {:induction false} FatesPartition(groups: seq<Group>, facts: Facts)
    ensures FateCount(groups, facts, Returned) == HasCount(groups, facts.returned)
    ensures FateCount(groups, facts, NotRetrieved) + FateCount(groups, facts, RejectedByMask)
          + FateCount(groups, facts, OutsideTopK) + FateCount(groups, facts, LostAtRevalidation)
         == |groups| - HasCount(groups, facts.returned)
  {
    if groups != [] {
      FatesPartition(groups[..|groups| - 1], facts);
    }
  }

  lemma {:induction false} MoreFactsMoreGroups(groups: seq<Group>, a: set<string>, b: set<string>)
    requires a <= b
    ensures HasCount(groups, a) <= HasCount(groups, b)
  {
    if groups != [] {
      MoreFactsMoreGroups(groups[..|groups| - 1], a, b);
    }
  }

  // ----- the method

  /** The sets are exactly the stages of the log. */
  ghost predicate Stages(calls: seq<Call>, facts: Facts) {
    && (forall id :: id in facts.candidates <==> IsCandidate(calls, id))
    && (forall id :: id in facts.surviving <==> Survives(calls, id))
    && (forall id :: id in facts.emitted <==> IsEmitted(calls, id))
  }

  ghost function Unmapped(calls: seq<Call>): nat {
    if calls == [] then 0 else Unmapped(calls[..|calls| - 1]) + UnmappedIn(calls[|calls| - 1].candidates)
  }

  ghost function UnmappedIn(candidates: seq<Candidate>): nat {
    if candidates == [] then 0
    else UnmappedIn(candidates[..|candidates| - 1]) + if candidates[|candidates| - 1].factId.None? then 1 else 0
  }

  /** `set` holds what was there before and what the first `i` candidates of a call add. */
  ghost predicate Grown(before: set<string>, now: set<string>, candidates: seq<Candidate>, i: nat,
          adds: (seq<Candidate>, nat, string) -> bool)
    requires i <= |candidates|
  {
    forall id :: id in now <==> id in before || exists k :: 0 <= k < i && adds(candidates, k, id)
  }

  predicate AddsCandidate(candidates: seq<Candidate>, k: nat, id: string) {
    k < |candidates| && IsFact(candidates[k], id)
  }

  predicate AddsSurvivor(candidates: seq<Candidate>, k: nat, id: string) {
    k < |candidates| && IsFact(candidates[k], id) && candidates[k].relevant
  }

  predicate AddsEmitted(candidates: seq<Candidate>, k: nat, id: string) {
    k < |candidates| && EmittedAt(candidates, k, id)
  }

  lemma Grow(before: set<string>, now: set<string>, candidates: seq<Candidate>, i: nat,
          adds: (seq<Candidate>, nat, string) -> bool, id: string, after: set<string>)
    requires i < |candidates| && Grown(before, now, candidates, i, adds)
    requires forall other :: adds(candidates, i, other) ==> other == id
    requires after == if adds(candidates, i, id) then now + {id} else now
    ensures Grown(before, after, candidates, i + 1, adds)
  {
  }

  lemma StagesMore(calls: seq<Call>, call: Call, before: Facts, after: Facts)
    requires Stages(calls, before)
    requires Grown(before.candidates, after.candidates, call.candidates, |call.candidates|, AddsCandidate)
    requires Grown(before.surviving, after.surviving, call.candidates, |call.candidates|, AddsSurvivor)
    requires Grown(before.emitted, after.emitted, call.candidates, |call.candidates|, AddsEmitted)
    ensures Stages(calls + [call], after)
  {
    var more, n := calls + [call], |calls|;
    assert forall c :: 0 <= c < n ==> more[c] == calls[c];
    assert more[n] == call;
    forall id ensures id in after.candidates <==> IsCandidate(more, id) {
      if IsCandidate(more, id) {
        var c, i :| 0 <= c < |more| && 0 <= i < |more[c].candidates| && IsFact(more[c].candidates[i], id);
        if c < n { assert IsCandidate(calls, id); } else { assert AddsCandidate(call.candidates, i, id); }
      }
      if exists k :: 0 <= k < |call.candidates| && AddsCandidate(call.candidates, k, id) {
        var k :| 0 <= k < |call.candidates| && AddsCandidate(call.candidates, k, id);
        assert IsFact(more[n].candidates[k], id);
      }
    }
    forall id ensures id in after.surviving <==> Survives(more, id) {
      if Survives(more, id) {
        var c, i :| 0 <= c < |more| && 0 <= i < |more[c].candidates| && IsFact(more[c].candidates[i], id)
            && more[c].candidates[i].relevant;
        if c < n { assert Survives(calls, id); } else { assert AddsSurvivor(call.candidates, i, id); }
      }
      if exists k :: 0 <= k < |call.candidates| && AddsSurvivor(call.candidates, k, id) {
        var k :| 0 <= k < |call.candidates| && AddsSurvivor(call.candidates, k, id);
        assert IsFact(more[n].candidates[k], id);
      }
    }
    forall id ensures id in after.emitted <==> IsEmitted(more, id) {
      if IsEmitted(more, id) {
        var c, i :| 0 <= c < |more| && 0 <= i < |more[c].candidates| && EmittedAt(more[c].candidates, i, id);
        if c < n { assert IsEmitted(calls, id); } else { assert AddsEmitted(call.candidates, i, id); }
      }
      if exists k :: 0 <= k < |call.candidates| && AddsEmitted(call.candidates, k, id) {
        var k :| 0 <= k < |call.candidates| && AddsEmitted(call.candidates, k, id);
        assert EmittedAt(more[n].candidates, k, id);
      }
    }
  }

  /** The loop over one call's candidates. */
  method ReadCall(candidates: seq<Candidate>, facts: Facts, errors: nat) returns (after: Facts, errors': nat)
    ensures after.returned == facts.returned
    ensures Grown(facts.candidates, after.candidates, candidates, |candidates|, AddsCandidate)
    ensures Grown(facts.surviving, after.surviving, candidates, |candidates|, AddsSurvivor)
    ensures Grown(facts.emitted, after.emitted, candidates, |candidates|, AddsEmitted)
    ensures errors <= U32_MAX ==> errors' == Sat(errors + UnmappedIn(candidates))
  {
    var acceptedInCall := 0;
    after, errors' := facts, errors;
    var i := 0;
    while i < |candidates|
      invariant 0 <= i <= |candidates| && after.returned == facts.returned
      invariant acceptedInCall == RelevantBefore(candidates, i)
      invariant Grown(facts.candidates, after.candidates, candidates, i, AddsCandidate)
      invariant Grown(facts.surviving, after.surviving, candidates, i, AddsSurvivor)
      invariant Grown(facts.emitted, after.emitted, candidates, i, AddsEmitted)
      invariant errors <= U32_MAX ==> errors' == Sat(errors + UnmappedIn(candidates[..i]))
    {
      var candidate := candidates[i];
      assert candidates[..i + 1][..i] == candidates[..i];
      ghost var now := after;
      var emitted := candidate.relevant && acceptedInCall < TOP_K;
      if candidate.relevant {
        acceptedInCall := acceptedInCall + 1;
      }
      if candidate.factId.None? {
        errors' := SatAdd(errors', 1);
      } else {
        var id := candidate.factId.value;
        after := after.(candidates := after.candidates + {id});
        if candidate.relevant {
          after := after.(surviving := after.surviving + {id});
          if emitted {
            after := after.(emitted := after.emitted + {id});
          }
        }
      }
      ghost var fact := if candidate.factId.Some? then candidate.factId.value else "";
      Grow(facts.candidates, now.candidates, candidates, i, AddsCandidate, fact, after.candidates);
      Grow(facts.surviving, now.surviving, candidates, i, AddsSurvivor, fact, after.surviving);
      Grow(facts.emitted, now.emitted, candidates, i, AddsEmitted, fact, after.emitted);
      i := i + 1;
    }
    assert candidates[..i] == candidates;
  }

  /** The facts of every stage of the log. */
  method ReadCalls(calls: seq<Call>, returned: set<string>) returns (facts: Facts, errors: nat)
    ensures facts.returned == returned && Stages(calls, facts) && errors == Sat(Unmapped(calls))
  {
    facts, errors := Facts(returned, {}, {}, {}), 0;
    var c := 0;
    while c < |calls|
      invariant 0 <= c <= |calls|
      invariant facts.returned == returned && Stages(calls[..c], facts) && errors == Sat(Unmapped(calls[..c]))
    {
      assert calls[..c + 1] == calls[..c] + [calls[c]] && calls[..c + 1][..c] == calls[..c];
      ghost var before := facts;
      facts, errors := ReadCall(calls[c].candidates, facts, errors);
      StagesMore(calls[..c], calls[c], before, facts);
      c := c + 1;
    }
    assert calls[..c] == calls;
  }

  /** The loop over the unreturned groups: each adds to exactly one counter. */
  method CountFates(groups: seq<Group>, facts: Facts)
    returns (notRetrieved: nat, rejected: nat, outside: nat, lost: nat)
    ensures notRetrieved == FateCount(groups, facts, NotRetrieved)
            && rejected == FateCount(groups, facts, RejectedByMask)
    ensures outside == FateCount(groups, facts, OutsideTopK) && lost == FateCount(groups, facts, LostAtRevalidation)
  {
    notRetrieved, rejected, outside, lost := 0, 0, 0, 0;
    var i := 0;
    while i < |groups|
      invariant 0 <= i <= |groups|
      invariant notRetrieved == FateCount(groups[..i], facts, NotRetrieved)
                && rejected == FateCount(groups[..i], facts, RejectedByMask)
      invariant outside == FateCount(groups[..i], facts, OutsideTopK)
                && lost == FateCount(groups[..i], facts, LostAtRevalidation)
    {
      var group := groups[i];
      assert groups[..i + 1][..i] == groups[..i];
      if !Has(group, facts.returned) {
        if !Has(group, facts.candidates) {
          notRetrieved := notRetrieved + 1;
        } else if !Has(group, facts.surviving) {
          rejected := rejected + 1;
        } else if !Has(group, facts.emitted) {
          outside := outside + 1;
        } else {
          lost := lost + 1;
        }
      }
      i := i + 1;
    }
    assert groups[..i] == groups;
  }

  function ExpectedFacts(groups: seq<Group>): set<string> { set g, id | g in groups && id in g :: id }

  function AllowedFacts(c: Case): set<string> {
    ExpectedFacts(c.expectedGroups) + c.allowedSupport
  }

  function NodesOf(calls: seq<Call>): set<Node> { set call | call in calls :: call.node }

  /** The counters of an attribution, for the facts of every stage. */
  ghost predicate Attributed(c: Case, facts: Facts, s: StageAttribution) {
    && s.sourceCandidate == Sat(HasCount(c.expectedGroups, facts.candidates))
    && s.maskSurviving == Sat(HasCount(c.expectedGroups, facts.surviving))
    && s.notRetrieved == Sat(FateCount(c.expectedGroups, facts, NotRetrieved))
    && s.rejectedByMask == Sat(FateCount(c.expectedGroups, facts, RejectedByMask))
    && s.outsideTopK == Sat(FateCount(c.expectedGroups, facts, OutsideTopK))
    && s.revalidationLoss == Sat(FateCount(c.expectedGroups, facts, LostAtRevalidation))
    && s.unexpectedSurvivor == Sat(|facts.surviving - AllowedFacts(c)|)
    && s.hardNegativeCandidate == Sat(|facts.candidates * c.forbidden|)
  }

  function Losses(s: StageAttribution): nat {
    SatAdd(SatAdd(SatAdd(s.notRetrieved, s.rejectedByMask), s.outsideTopK), s.revalidationLoss)
  }

  /** The four losses are the expected groups that were not returned. */
  lemma LossesAreTheMissing(c: Case, facts: Facts, s: StageAttribution)
    requires Attributed(c, facts, s)
    ensures Losses(s) == Sat(|c.expectedGroups| - HasCount(c.expectedGroups, facts.returned))
  {
    var groups := c.expectedGroups;
    FatesPartition(groups, facts);
    SatAddOfFour(FateCount(groups, facts, NotRetrieved), FateCount(groups, facts, RejectedByMask),
                 FateCount(groups, facts, OutsideTopK), FateCount(groups, facts, LostAtRevalidation));
  }

  /** No more groups survive the mask than were retrieved. */
  lemma SurvivorsWereRetrieved(c: Case, calls: seq<Call>, facts: Facts, s: StageAttribution)
    requires Attributed(c, facts, s) && Stages(calls, facts)
    ensures s.maskSurviving <= s.sourceCandidate <= Sat(|c.expectedGroups|)
  {
    forall id | id in facts.surviving ensures id in facts.candidates { StagesAreNested(calls, id); }
    MoreFactsMoreGroups(c.expectedGroups, facts.surviving, facts.candidates);
    SatMonotone(HasCount(c.expectedGroups, facts.surviving), HasCount(c.expectedGroups, facts.candidates));
    SatMonotone(HasCount(c.expectedGroups, facts.candidates), |c.expectedGroups|);
  }

  /**
   * Every expected group that was not returned is counted at the first stage that
   * lost it. `facts` are the facts of every stage; the original keeps them local.
   */
  method Attribute(c: Case, returned: set<string>, calls: seq<Call>, expectedNodes: set<Node>, auditStable: bool)
    returns (s: StageAttribution, facts: Facts)
    ensures facts.returned == returned && Stages(calls, facts) && Attributed(c, facts, s)
    ensures s.mappingErrors == Sat(Unmapped(calls))
    ensures s.auditComplete <==> NodesOf(calls) == expectedNodes && |NodesOf(calls)| == |calls|
    ensures s.auditStable == auditStable
  {
    var errors, notRetrieved, rejected, outside, lost;
    facts, errors := ReadCalls(calls, returned);
    notRetrieved, rejected, outside, lost := CountFates(c.expectedGroups, facts);
    s := StageAttribution(
      Sat(HasCount(c.expectedGroups, facts.candidates)), Sat(HasCount(c.expectedGroups, facts.surviving)),
      Sat(notRetrieved), Sat(rejected), Sat(outside), Sat(lost),
      Sat(|facts.surviving - AllowedFacts(c)|), Sat(|facts.candidates * c.forbidden|), errors,
      NodesOf(calls) == expectedNodes && |NodesOf(calls)| == |calls|, auditStable);
  }

  // ----- the counts of a case report

  /** `found`, `effective found` and `candidate only`, before they are clamped. */
  function CandidateOnlyCount(groups: seq<Group>, returned: set<string>, candidates: set<string>): nat {
    if groups == [] then 0
    else
      var last := groups[|groups| - 1];
      CandidateOnlyCount(groups[..|groups| - 1], returned, candidates)
        + if Has(last, candidates) && !Has(last, returned) then 1 else 0
  }

  /** Groups found through either channel are those returned and those seen as candidates only. */
  lemma {:induction false} EffectiveFound(groups: seq<Group>, returned: set<string>, candidates: set<string>)
    ensures HasCount(groups, returned + candidates)
            == HasCount(groups, returned) + CandidateOnlyCount(groups, returned, candidates)
    ensures HasCount(groups, returned) <= HasCount(groups, returned + candidates) <= |groups|
  {
    if groups != [] {
      var last := groups[|groups| - 1];
      EffectiveFound(groups[..|groups| - 1], returned, candidates);
      assert Has(last, returned + candidates) <==> Has(last, returned) || Has(last, candidates);
    }
  }

  /** The same for the clamped fields of the report. */
  lemma {:induction false} ReportCountsAgree(groups: seq<Group>, returned: set<string>, candidates: set<string>)
    ensures Sat(HasCount(groups, returned + candidates))
         == SatAdd(Sat(HasCount(groups, returned)), Sat(CandidateOnlyCount(groups, returned, candidates)))
    ensures Sat(HasCount(groups, returned)) <= Sat(HasCount(groups, returned + candidates)) <= Sat(|groups|)
    ensures Sat(|groups|) == SatAdd(Sat(HasCount(groups, returned)), Sat(|groups| - HasCount(groups, returned)))
  {
    EffectiveFound(groups, returned, candidates);
    SatAddOfSat(HasCount(groups, returned), CandidateOnlyCount(groups, returned, candidates));
    SatAddOfSat(HasCount(groups, returned), |groups| - HasCount(groups, returned));
    SatMonotone(HasCount(groups, returned), HasCount(groups, returned + candidates));
    SatMonotone(HasCount(groups, returned + candidates), |groups|);
  }
}
