// What a case report says, on the log of candidates and on the runs themselves.
module RetrievalVerdict {
  import opened Saturating
  import opened Sequences
  import opened RetrievalStages
  import opened RetrievalCase
  import opened MaskAudit

  // ----- where a group was lost

  ghost predicate SomeOf(group: Group, stage: string -> bool) { exists id :: id in group && stage(id) }

  ghost function AsCandidate(calls: seq<Call>): string -> bool { id => IsCandidate(calls, id) }

  ghost function AsSurvivor(calls: seq<Call>): string -> bool { id => Survives(calls, id) }

  ghost function AsEmitted(calls: seq<Call>): string -> bool { id => IsEmitted(calls, id) }

  ghost function AsReturned(returned: set<string>): string -> bool { id => id in returned }

  /**
   * A group that was not returned is lost at the first stage that none of its facts
   * passed, on the log: retrieval, the mask, the first `TOP_K` of a call, the check
   * after the mask.
   */
  lemma FateIsFirstLoss(group: Group, calls: seq<Call>, facts: Facts)
    requires Stages(calls, facts)
    ensures var fate := FateOf(group, facts);
            var retrieved, kept := SomeOf(group, AsCandidate(calls)), SomeOf(group, AsSurvivor(calls));
            var emitted, returned := SomeOf(group, AsEmitted(calls)), SomeOf(group, AsReturned(facts.returned));
            && (fate == Fate.Returned <==> returned)
            && (fate == NotRetrieved <==> !returned && !retrieved)
            && (fate == RejectedByMask <==> !returned && retrieved && !kept)
            && (fate == OutsideTopK <==> !returned && kept && !emitted)
            && (fate == LostAtRevalidation <==> !returned && emitted)
  {
    HasExactly(group, facts.returned, AsReturned(facts.returned));
    HasExactly(group, facts.candidates, AsCandidate(calls));
    HasExactly(group, facts.surviving, AsSurvivor(calls));
    HasExactly(group, facts.emitted, AsEmitted(calls));
    forall id ensures IsEmitted(calls, id) ==> Survives(calls, id)
              ensures Survives(calls, id) ==> IsCandidate(calls, id)
    {
      StagesAreNested(calls, id);
    }
    LaterImpliesEarlier(group, AsEmitted(calls), AsSurvivor(calls));
    LaterImpliesEarlier(group, AsSurvivor(calls), AsCandidate(calls));
  }

  lemma HasExactly(group: Group, facts: set<string>, stage: string -> bool)
    requires forall id :: id in facts <==> stage(id)
    ensures Has(group, facts) <==> SomeOf(group, stage)
  {
  }

  lemma LaterImpliesEarlier(group: Group, later: string -> bool, earlier: string -> bool)
    requires forall id :: later(id) ==> earlier(id)
    ensures SomeOf(group, later) ==> SomeOf(group, earlier)
  {
  }

  ghost function WithFate(groups: seq<Group>, facts: Facts, fate: Fate): set<nat> {
    set i: nat | i < |groups| && FateOf(groups[i], facts) == fate
  }

  /** Each counter of the attribution counts the groups of one fate. */
  lemma {:induction false} FateCountExactly(groups: seq<Group>, facts: Facts, fate: Fate)
    ensures FateCount(groups, facts, fate) == |WithFate(groups, facts, fate)|
  {
    if groups == [] {
      assert WithFate(groups, facts, fate) == {};
    } else {
      var n := |groups| - 1;
      FateCountExactly(groups[..n], facts, fate);
      LastFate(groups, facts, fate, n);
      OneMore(WithFate(groups[..n], facts, fate), n, FateOf(groups[n], facts) == fate);
    }
  }

  lemma LastFate(groups: seq<Group>, facts: Facts, fate: Fate, n: nat)
    requires |groups| == n + 1
    ensures WithFate(groups, facts, fate)
            == WithFate(groups[..n], facts, fate) + if FateOf(groups[n], facts) == fate then {n} else {}
    ensures n !in WithFate(groups[..n], facts, fate)
  {
  }

  // ----- groups returned, and returned more than once

  ghost predicate IsPair(group: Group, facts: set<string>, i: nat, j: nat) {
    i < j < |group| && group[i] in facts && group[j] in facts
  }

  ghost predicate HasPair(group: Group, facts: set<string>) { exists i: nat, j: nat :: IsPair(group, facts, i, j) }

  lemma {:induction false} TwoHitsExactly(group: Group, facts: set<string>)
    ensures Hits(group, facts) > 1 <==> HasPair(group, facts)
  {
    if group != [] {
      var n := |group| - 1;
      var front := group[..n];
      TwoHitsExactly(front, facts);
      HitsWhenHas(front, facts);
      if HasPair(front, facts) {
        var i: nat, j: nat :| IsPair(front, facts, i, j);
        assert IsPair(group, facts, i, j);
      } else if group[n] in facts && Has(front, facts) {
        var i :| 0 <= i < n && front[i] in facts;
        assert IsPair(group, facts, i, n);
      } else if i: nat, j: nat :| IsPair(group, facts, i, j) {
        assert front[i] == group[i];
        if j < n {
          assert IsPair(front, facts, i, j);
        }
      }
    }
  }

  ghost function WithPair(groups: seq<Group>, facts: set<string>): set<nat> {
    set i: nat | i < |groups| && HasPair(groups[i], facts)
  }

  /** A duplicate is a group with two returned members. */
  lemma {:induction false} DuplicatesExactly(groups: seq<Group>, facts: set<string>)
    ensures DuplicateCount(groups, facts) == |WithPair(groups, facts)|
  {
    if groups == [] {
      assert WithPair(groups, facts) == {};
    } else {
      var n := |groups| - 1;
      DuplicatesExactly(groups[..n], facts);
      TwoHitsExactly(groups[n], facts);
      LastPair(groups, facts, n);
      OneMore(WithPair(groups[..n], facts), n, HasPair(groups[n], facts));
    }
  }

  lemma LastPair(groups: seq<Group>, facts: set<string>, n: nat)
    requires |groups| == n + 1
    ensures WithPair(groups, facts) == WithPair(groups[..n], facts) + if HasPair(groups[n], facts) then {n} else {}
    ensures n !in WithPair(groups[..n], facts)
  {
  }

  /** The hits are listed node by node, in the order of each. */
  lemma {:induction false} HitsInOrder(a: seq<Source>, b: seq<Source>)
    ensures HitsOf(a + b) == HitsOf(a) + HitsOf(b)
  {
    if b == [] {
      assert a + b == a;
    } else {
      var n := |b| - 1;
      HitsInOrder(a, b[..n]);
      assert (a + b)[..|a| + n] == a + b[..n];
      Regroup(HitsOf(a), HitsOf(b[..n]), b[n].hits);
    }
  }

  // ----- when a case passes

  ghost predicate OneAnswers(group: Group, returned: set<string>) {
    exists k :: 0 <= k < |group| && group[k] in returned
                && forall i :: 0 <= i < |group| && group[i] in returned ==> i == k
  }

  lemma OneHitExactly(group: Group, returned: set<string>)
    ensures Hits(group, returned) == 1 <==> OneAnswers(group, returned)
  {
    HitsWhenHas(group, returned);
    TwoHitsExactly(group, returned);
    if Hits(group, returned) == 1 {
      var k :| 0 <= k < |group| && group[k] in returned;
      forall i | 0 <= i < |group| && group[i] in returned ensures i == k {
        OneOrPair(group, returned, i, k);
      }
    }
  }

  lemma OneOrPair(group: Group, facts: set<string>, i: nat, k: nat)
    requires i < |group| && k < |group| && group[i] in facts && group[k] in facts
    ensures i == k || HasPair(group, facts)
  {
    if i < k {
      assert IsPair(group, facts, i, k);
    } else if k < i {
      assert IsPair(group, facts, k, i);
    }
  }

  ghost predicate AllMapped(calls: seq<Call>) {
    forall c, i :: 0 <= c < |calls| && 0 <= i < |calls[c].candidates| ==> calls[c].candidates[i].factId.Some?
  }

  lemma {:induction false} MappedIn(candidates: seq<Candidate>)
    ensures UnmappedIn(candidates) == 0 <==> forall i :: 0 <= i < |candidates| ==> candidates[i].factId.Some?
  {
    if candidates != [] {
      var n := |candidates| - 1;
      MappedIn(candidates[..n]);
      assert forall i :: 0 <= i < n ==> candidates[..n][i] == candidates[i];
    }
  }

  lemma {:induction false} MappedExactly(calls: seq<Call>)
    ensures Unmapped(calls) == 0 <==> AllMapped(calls)
  {
    if calls != [] {
      var n := |calls| - 1;
      MappedExactly(calls[..n]);
      MappedIn(calls[n].candidates);
      assert forall c :: 0 <= c < n ==> calls[..n][c] == calls[c];
    }
  }

  /** The longer run answers as the shorter one does, and then goes on. */
  ghost predicate Continues(long: Run, short: Run) {
    && |long.sources| == |short.sources| && long.provenanceErrors == short.provenanceErrors
    && forall i :: 0 <= i < |short.sources| ==> GoesOn(long.sources[i], short.sources[i])
  }

  ghost predicate GoesOn(long: Source, short: Source) {
    long.node == short.node && exists more :: long.hits == short.hits + more
  }

  lemma GoesOnExactly(long: Source, short: Source)
    ensures SourceIsPrefix(short, long) <==> GoesOn(long, short)
  {
    if short.hits <= long.hits {
      assert long.hits == short.hits + long.hits[|short.hits|..];
    }
  }

  lemma PrefixExactly(short: Run, long: Run)
    ensures RunIsPrefix(short, long) <==> Continues(long, short)
  {
    if |long.sources| == |short.sources| {
      forall i | 0 <= i < |short.sources|
        ensures SourceIsPrefix(short.sources[i], long.sources[i]) <==> GoesOn(long.sources[i], short.sources[i])
      {
        GoesOnExactly(long.sources[i], short.sources[i]);
      }
    }
  }

  /** Every expected node made one call, and no other node any. */
  ghost predicate AllCalledOnce(calls: seq<Call>, expected: set<Node>) {
    forall node :: |OfNode(calls, node)| == if node in expected then 1 else 0
  }

  lemma CalledOnceExactly(calls: seq<Call>, expected: set<Node>)
    ensures NodesOf(calls) == expected && |NodesOf(calls)| == |calls| <==> AllCalledOnce(calls, expected)
  {
    CompleteExactly(calls, expected);
    if |OfNode(calls, Origin)| == CountOf(expected, Origin) && |OfNode(calls, Peer)| == CountOf(expected, Peer) {
      forall node ensures |OfNode(calls, node)| == if node in expected then 1 else 0 {
        assert node == Origin || node == Peer;
      }
    }
  }

  ghost predicate AuditIsSound(calls: seq<Call>, expectedNodes: set<Node>, auditStable: bool) {
    AllMapped(calls) && AllCalledOnce(calls, expectedNodes) && auditStable
  }

  /** Nothing was returned but the answers and what is allowed beside them. */
  ghost predicate ReturnsOnly(c: Case, returned: set<string>) {
    && (forall i :: 0 <= i < |c.expectedGroups| ==> OneAnswers(c.expectedGroups[i], returned))
    && forall id :: id in returned ==> (id in c.relevant || id in c.allowedSupport) && id !in c.forbidden
  }

  lemma AuditExactly(calls: seq<Call>, expectedNodes: set<Node>, stage: StageAttribution)
    requires stage.mappingErrors == Sat(Unmapped(calls))
    requires stage.auditComplete <==> NodesOf(calls) == expectedNodes && |NodesOf(calls)| == |calls|
    ensures AuditIsValid(stage) <==> AuditIsSound(calls, expectedNodes, stage.auditStable)
  {
    MappedExactly(calls);
    CalledOnceExactly(calls, expectedNodes);
  }

  /**
   * A case passes exactly when one fact of every expected group is returned and
   * nothing else but what is relevant or allowed, no forbidden fact is, provenance
   * and audit are faultless, and the three other runs agree with the first.
   */
  lemma PassesExactly(c: Case, runs: Runs, calls: seq<Call>, expectedNodes: set<Node>, stage: StageAttribution)
    requires stage.mappingErrors == Sat(Unmapped(calls))
    requires stage.auditComplete <==> NodesOf(calls) == expectedNodes && |NodesOf(calls)| == |calls|
    ensures Passes(c, runs, stage)
            <==> && ReturnsOnly(c, RetrievalCase.Returned(runs.baseline)) && runs.baseline.provenanceErrors == 0
                 && AuditIsSound(calls, expectedNodes, stage.auditStable)
                 && runs.repeated == runs.baseline == runs.reversed && Continues(runs.expanded, runs.baseline)
  {
    var returned := RetrievalCase.Returned(runs.baseline);
    forall i | 0 <= i < |c.expectedGroups|
      ensures Hits(c.expectedGroups[i], returned) == 1 <==> OneAnswers(c.expectedGroups[i], returned)
    {
      OneHitExactly(c.expectedGroups[i], returned);
    }
    AuditExactly(calls, expectedNodes, stage);
    PrefixExactly(runs.baseline, runs.expanded);
  }
}
