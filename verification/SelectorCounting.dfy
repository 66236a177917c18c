// What acceptance by the corpus validator forces, for any requirements.
module SelectorCounting {
  import opened Sequences
  import opened SelectorText
  import opened SelectorCorpus
  import opened SelectorValidator

  // ----- the pools contain every judgment once

  ghost predicate QueryIdsDistinct(queries: seq<Query>) {
    forall i, j :: 0 <= i < j < |queries| ==> queries[i].id != queries[j].id
  }

  ghost predicate HasQuery(queries: seq<Query>, id: string) { exists q :: q in queries && q.id == id }

  lemma HasQueryLast(queries: seq<Query>, id: string)
    requires queries != []
    ensures var k := |queries| - 1; HasQuery(queries, id) <==> HasQuery(queries[..k], id) || queries[k].id == id
  {
    var k := |queries| - 1;
    assert queries == queries[..k] + [queries[k]];
    assert queries[k] in queries;
  }

  lemma LastIdIsNew(queries: seq<Query>)
    requires QueryIdsDistinct(queries) && queries != []
    ensures var k := |queries| - 1; QueryIdsDistinct(queries[..k]) && !HasQuery(queries[..k], queries[k].id)
  {
    if HasQuery(queries[..|queries| - 1], queries[|queries| - 1].id) {
      LastIdRepeats(queries);
    }
  }

  lemma LastIdRepeats(queries: seq<Query>)
    requires queries != [] && HasQuery(queries[..|queries| - 1], queries[|queries| - 1].id)
    ensures !QueryIdsDistinct(queries)
  {
    var k := |queries| - 1;
    var q :| q in queries[..k] && q.id == queries[k].id;
    var i :| 0 <= i < k && queries[..k][i] == q;
    assert queries[i].id == queries[k].id;
  }

  lemma PoolsLast(queries: seq<Query>, judgments: seq<Judgment>)
    requires queries != []
    ensures var k := |queries| - 1;
            AllReferences(Pools(queries, judgments))
            == AllReferences(Pools(queries[..k], judgments)) + References(Pool(judgments, queries[k].id))
  {
    var k := |queries| - 1;
    assert Pools(queries, judgments)[..k] == Pools(queries[..k], judgments);
  }

  /** One more judgment adds its passage to the pools if its query is among them. */
  lemma {:induction false} OneMoreJudgment(queries: seq<Query>, judgments: seq<Judgment>)
    requires QueryIdsDistinct(queries) && judgments != []
    ensures var n := |judgments| - 1;
            AllReferences(Pools(queries, judgments)) == AllReferences(Pools(queries, judgments[..n]))
              + if HasQuery(queries, judgments[n].queryId) then multiset{judgments[n].passageId} else multiset{}
    decreases |queries|
  {
    if queries != [] {
      var k, n := |queries| - 1, |judgments| - 1;
      LastIdIsNew(queries);
      OneMoreJudgment(queries[..k], judgments);
      PoolsLast(queries, judgments);
      PoolsLast(queries, judgments[..n]);
      PoolGrows(judgments, queries[k].id);
      HasQueryLast(queries, judgments[n].queryId);
    }
  }

  lemma PoolGrows(judgments: seq<Judgment>, id: string)
    requires judgments != []
    ensures var n := |judgments| - 1;
            References(Pool(judgments, id)) == References(Pool(judgments[..n], id))
              + if judgments[n].queryId == id then multiset{judgments[n].passageId} else multiset{}
  {
    var n := |judgments| - 1;
    if judgments[n].queryId == id {
      assert Pool(judgments, id)[..|Pool(judgments, id)| - 1] == Pool(judgments[..n], id);
    } else {
      assert Pool(judgments, id) == Pool(judgments[..n], id);
    }
  }

  lemma {:induction false} PoolsHoldAll(queries: seq<Query>, judgments: seq<Judgment>)
    requires QueryIdsDistinct(queries) && forall j <- judgments :: HasQuery(queries, j.queryId)
    ensures AllReferences(Pools(queries, judgments)) == References(judgments)
  {
    if judgments == [] {
      NoReferences(queries);
    } else {
      var n := |judgments| - 1;
      assert judgments[n] in judgments;
      PoolsHoldAll(queries, judgments[..n]);
      OneMoreJudgment(queries, judgments);
    }
  }

  lemma {:induction false} NoReferences(queries: seq<Query>)
    ensures AllReferences(Pools(queries, [])) == multiset{}
  {
    if queries != [] {
      var k := |queries| - 1;
      assert Pools(queries, [])[..k] == Pools(queries[..k], []);
      NoReferences(queries[..k]);
    }
  }

  // ----- sizes

  lemma {:induction false} ReferencesSize(pool: seq<Judgment>)
    ensures |References(pool)| == |pool|
  {
    if pool != [] {
      ReferencesSize(pool[..|pool| - 1]);
    }
  }

  lemma {:induction false} PoolsSize(pools: seq<QueryPool>)
    requires forall p <- pools :: |p.pool| == JUDGMENTS_PER_QUERY
    ensures |AllReferences(pools)| == JUDGMENTS_PER_QUERY * |pools|
  {
    if pools != [] {
      var n := |pools| - 1;
      assert pools[n] in pools;
      PoolsSize(pools[..n]);
      ReferencesSize(pools[n].pool);
    }
  }

  lemma PassagesSize(passages: seq<Passage>, m: multiset<string>)
    requires DistinctIds(passages) && EachOnce(passages, m) && forall id :: id in m ==> id in ById(passages)
    ensures |m| == |passages|
  {
    var byId := ById(passages);
    ByIdHolds(passages);
    assert forall id :: id in byId ==> byId[id] in passages && m[id] == 1;
    assert m == multiset(byId.Keys);
    assert |byId.Keys| == |byId|;
  }

  /** The positions at which a passage is judged. */
  ghost function Positions(judgments: seq<Judgment>, id: string): set<nat> {
    set i: nat | i < |judgments| && judgments[i].passageId == id
  }

  lemma {:induction false} CountedPositions(judgments: seq<Judgment>, id: string)
    ensures References(judgments)[id] == |Positions(judgments, id)|
  {
    if judgments != [] {
      var n := |judgments| - 1;
      CountedPositions(judgments[..n], id);
      LastPosition(judgments, id, n);
      OneMore(Positions(judgments[..n], id), n, judgments[n].passageId == id);
    } else {
      assert Positions(judgments, id) == {};
    }
  }

  lemma LastPosition(judgments: seq<Judgment>, id: string, n: nat)
    requires |judgments| == n + 1
    ensures n !in Positions(judgments[..n], id)
    ensures Positions(judgments, id)
            == Positions(judgments[..n], id) + if judgments[n].passageId == id then {n} else {}
  {
  }

  lemma OnePosition(judgments: seq<Judgment>, id: string)
    requires References(judgments)[id] == 1
    ensures exists i :: 0 <= i < |judgments| && judgments[i].passageId == id
              && forall j :: 0 <= j < |judgments| && judgments[j].passageId == id ==> j == i
  {
    CountedPositions(judgments, id);
    var positions := Positions(judgments, id);
    var i :| i in positions;
    assert |positions - {i}| == 0;
    assert positions == {i} by { assert positions == (positions - {i}) + {i}; }
    forall j | 0 <= j < |judgments| && judgments[j].passageId == id ensures j == i {
      assert j in positions;
    }
  }

  // ----- statistics

  lemma {:induction false} SplitsAddUp(passages: Passages, pools: seq<QueryPool>)
    ensures StatsOf(passages, pools, Train).queries + StatsOf(passages, pools, Dev).queries == |pools|
  {
    if pools != [] {
      SplitsAddUp(passages, pools[..|pools| - 1]);
    }
  }

  function DirectionTotal(directions: map<Direction, nat>): nat {
    Get(directions, Direction(Es, Es)) + Get(directions, Direction(En, En))
      + Get(directions, Direction(En, Es)) + Get(directions, Direction(Es, En))
  }

  lemma DirectionAdded(directions: map<Direction, nat>, d: Direction)
    ensures DirectionTotal(directions[d := Get(directions, d) + 1]) == DirectionTotal(directions) + 1
  {
    assert d == Direction(Es, Es) || d == Direction(En, En) || d == Direction(En, Es) || d == Direction(Es, En) by {
      match d { case Direction(q, p) => assert (q == Es || q == En) && (p == Es || p == En); }
    }
  }

  lemma {:induction false} DirectionsAddUp(passages: Passages, pools: seq<QueryPool>, split: Split)
    ensures var stats := StatsOf(passages, pools, split); DirectionTotal(stats.directions) == stats.queries
  {
    if pools != [] {
      var n := |pools| - 1;
      DirectionsAddUp(passages, pools[..n], split);
      DirectionAdded(StatsOf(passages, pools[..n], split).directions,
          DirectionOf(passages, pools[n].query, pools[n].pool));
    }
  }

  lemma {:induction false} RolesAddUp(pool: seq<Judgment>)
    ensures RoleCount(pool, Answer) + RoleCount(pool, Support) + RoleCount(pool, HardNegative) == |pool|
  {
    if pool != [] {
      RolesAddUp(pool[..|pool| - 1]);
    }
  }

  // ----- the theorem

  /** Six judgments for each query, one for each passage; the splits and the directions have the required sizes. */
  lemma AcceptedSizes(rules: Rules, queries: seq<Query>, passages: seq<Passage>, judgments: seq<Judgment>,
          r: Requirements)
    requires Accepted(rules, queries, passages, judgments, r)
    ensures |judgments| == |passages| == JUDGMENTS_PER_QUERY * |queries|
    ensures |queries| == r.train.queries + r.dev.queries
    ensures r.train.queries == 4 * r.train.direction && r.dev.queries == 4 * r.dev.direction
  {
    var pools, byId := Pools(queries, judgments), ById(passages);
    forall j | j in judgments ensures HasQuery(queries, j.queryId) {
    }
    PoolsHoldAll(queries, judgments);
    ReferencesSize(judgments);
    PoolsSize(pools);
    PoolsArePart(queries, judgments);
    AllReferencesKnown(pools, judgments, byId);
    PassagesSize(passages, AllReferences(pools));
    SplitsAddUp(byId, pools);
    DirectionsAddUp(byId, pools, Train);
    DirectionsAddUp(byId, pools, Dev);
  }

  /** Each passage is judged exactly once, so it belongs to one query and one split. */
  lemma AcceptedPassageOnce(rules: Rules, queries: seq<Query>, passages: seq<Passage>, judgments: seq<Judgment>,
          r: Requirements, p: Passage)
    requires Accepted(rules, queries, passages, judgments, r) && p in passages
    ensures exists i :: 0 <= i < |judgments| && judgments[i].passageId == p.id
              && forall j :: 0 <= j < |judgments| && judgments[j].passageId == p.id ==> j == i
  {
    forall j | j in judgments ensures HasQuery(queries, j.queryId) {
    }
    PoolsHoldAll(queries, judgments);
    OnePosition(judgments, p.id);
  }

  lemma {:induction false} InPool(judgments: seq<Judgment>, i: nat)
    requires i < |judgments|
    ensures judgments[i] in Pool(judgments, judgments[i].queryId)
  {
    var n := |judgments| - 1;
    if i < n {
      InPool(judgments[..n], i);
    }
  }

  lemma PoolAt(queries: seq<Query>, judgments: seq<Judgment>, i: nat) returns (k: nat)
    requires i < |judgments| && HasQuery(queries, judgments[i].queryId)
    ensures k < |queries| && queries[k].id == judgments[i].queryId
    ensures judgments[i] in Pools(queries, judgments)[k].pool
  {
    var q :| q in queries && q.id == judgments[i].queryId;
    k :| 0 <= k < |queries| && queries[k] == q;
    InPool(judgments, i);
  }

  /** Two judgments share a world exactly when they belong to one query, and then they share its split. */
  lemma AcceptedWorlds(rules: Rules, queries: seq<Query>, passages: seq<Passage>, judgments: seq<Judgment>,
          r: Requirements, a: nat, b: nat)
    requires Accepted(rules, queries, passages, judgments, r) && a < |judgments| && b < |judgments|
    ensures judgments[a].worldId == judgments[b].worldId <==> judgments[a].queryId == judgments[b].queryId
    ensures judgments[a].queryId == judgments[b].queryId ==> judgments[a].split == judgments[b].split
  {
    var pools := Pools(queries, judgments);
    assert judgments[a] in judgments && judgments[b] in judgments;
    assert HasQuery(queries, judgments[a].queryId) && HasQuery(queries, judgments[b].queryId);
    var i := PoolAt(queries, judgments, a);
    var j := PoolAt(queries, judgments, b);
    assert pools[i] in pools && pools[j] in pools;
    assert judgments[a].worldId == WorldOf(pools[i].pool) && judgments[b].worldId == WorldOf(pools[j].pool);
    if i != j {
      assert WorldOf(pools[i].pool) != WorldOf(pools[j].pool);
    }
  }

  /** A query without answers has six hard negatives; any other has at most three answers. */
  lemma AcceptedRoles(rules: Rules, queries: seq<Query>, passages: seq<Passage>, judgments: seq<Judgment>,
          r: Requirements, q: Query)
    requires Accepted(rules, queries, passages, judgments, r) && q in queries
    ensures var pool := Pool(judgments, q.id);
            if RoleCount(pool, Answer) == 0 then RoleCount(pool, HardNegative) == 6
            else 1 <= RoleCount(pool, Answer) <= 3
  {
    var i :| 0 <= i < |queries| && queries[i] == q;
    var p := Pools(queries, judgments)[i];
    assert p in Pools(queries, judgments);
    RolesAddUp(p.pool);
  }
}
