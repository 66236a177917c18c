// `validate_corpus` as a whole: it accepts exactly the corpora that satisfy the
// conditions on records and pairs of records.
module SelectorValidator {
  import opened Wrappers
  import opened SelectorText
  import opened SelectorCorpus
  import opened SelectorIndex

  // ----- what the index stands for

  ghost predicate Counts(references: map<string, nat>, m: multiset<string>) {
    (forall id :: id in references <==> id in m) && forall id <- references :: references[id] == m[id]
  }

  ghost predicate Holds(rules: Rules, passages: Passages, index: Index, pools: seq<QueryPool>) {
    && Counts(index.references, AllReferences(pools))
    && (forall w :: w in index.worlds <==> exists i :: 0 <= i < |pools| && WorldOf(pools[i].pool) == w)
    && ObserveAll(map[], QueryEntries(rules, pools)) == Some(index.queriesSeen)
    && ObserveAll(map[], PassageEntries(rules, passages, pools)) == Some(index.passagesSeen)
    && index.train == StatsOf(passages, pools, Train) && index.dev == StatsOf(passages, pools, Dev)
  }

  lemma {:induction false} ReferencesCounted(references: map<string, nat>, m: multiset<string>, pool: seq<Judgment>)
    requires Counts(references, m)
    ensures Counts(AddReferences(references, pool), m + References(pool))
  {
    if pool != [] {
      ReferencesCounted(references, m, pool[..|pool| - 1]);
    }
  }

  lemma {:induction false} ObserveConcat(observed: Observed, a: seq<(string, Split)>, b: seq<(string, Split)>)
    ensures ObserveAll(observed, a + b)
            == match ObserveAll(observed, a)
               case None => None
               case Some(o) => ObserveAll(o, b)
  {
    if b == [] {
      assert a + b == a;
    } else {
      var n := |b| - 1;
      ObserveConcat(observed, a, b[..n]);
      assert (a + b)[..|a| + n] == a + b[..n];
    }
  }

  lemma WorldsMore(pools: seq<QueryPool>, worlds: set<string>, p: QueryPool)
    requires forall w :: w in worlds <==> exists i :: 0 <= i < |pools| && WorldOf(pools[i].pool) == w
    ensures WorldsDistinct(pools + [p]) <==> WorldsDistinct(pools) && WorldOf(p.pool) !in worlds
    ensures forall w ::
              w in worlds + {WorldOf(p.pool)} <==>
                exists i :: 0 <= i < |pools + [p]| && WorldOf((pools + [p])[i].pool) == w
  {
    var more := pools + [p];
    assert forall i :: 0 <= i < |pools| ==> more[i] == pools[i];
    assert more[|pools|] == p;
    if WorldOf(p.pool) in worlds {
      var i :| 0 <= i < |pools| && WorldOf(pools[i].pool) == WorldOf(p.pool);
      assert WorldOf(more[i].pool) == WorldOf(more[|pools|].pool);
    }
    forall w | w in worlds
      ensures exists i :: 0 <= i < |more| && WorldOf(more[i].pool) == w
    {
      var i :| 0 <= i < |pools| && WorldOf(pools[i].pool) == w;
      assert WorldOf(more[i].pool) == w;
    }
  }

  lemma EntriesMore(rules: Rules, passages: Passages, pools: seq<QueryPool>, p: QueryPool)
    ensures QueryEntries(rules, pools + [p])
            == QueryEntries(rules, pools) + [(rules.normalizedQuery(p.query), SplitOf(p.pool))]
    ensures PassageEntries(rules, passages, pools + [p])
            == PassageEntries(rules, passages, pools) + PoolEntries(rules, passages, p.pool)
  {
    assert (pools + [p])[..|pools|] == pools;
  }

  /** The leak checks on one more pool, as the index makes them. */
  lemma LeaksMore(rules: Rules, passages: Passages, index: Index, pools: seq<QueryPool>, p: QueryPool)
    requires Holds(rules, passages, index, pools)
    ensures ObserveAll(map[], QueryEntries(rules, pools + [p]))
            == Observe(index.queriesSeen, rules.normalizedQuery(p.query), SplitOf(p.pool))
    ensures ObserveAll(map[], PassageEntries(rules, passages, pools + [p]))
            == ObserveAll(index.passagesSeen, PoolEntries(rules, passages, p.pool))
    ensures NoLeak(QueryEntries(rules, pools + [p]))
            <==> Observe(index.queriesSeen, rules.normalizedQuery(p.query), SplitOf(p.pool)).Some?
    ensures NoLeak(PassageEntries(rules, passages, pools + [p]))
            <==> ObserveAll(index.passagesSeen, PoolEntries(rules, passages, p.pool)).Some?
  {
    EntriesMore(rules, passages, pools, p);
    ObserveConcat(map[], QueryEntries(rules, pools), [(rules.normalizedQuery(p.query), SplitOf(p.pool))]);
    ObserveSingle(index.queriesSeen, rules.normalizedQuery(p.query), SplitOf(p.pool));
    ObserveConcat(map[], PassageEntries(rules, passages, pools), PoolEntries(rules, passages, p.pool));
    OnePassIsPairwise(QueryEntries(rules, pools + [p]));
    OnePassIsPairwise(PassageEntries(rules, passages, pools + [p]));
  }

  lemma CountsMore(rules: Rules, passages: Passages, index: Index, pools: seq<QueryPool>, p: QueryPool)
    requires Holds(rules, passages, index, pools) && CanAdd(rules, passages, index, p)
    ensures var after := Added(rules, passages, index, p);
            && Counts(after.references, AllReferences(pools + [p]))
            && after.train == StatsOf(passages, pools + [p], Train) && after.dev == StatsOf(passages, pools + [p], Dev)
  {
    ReferencesCounted(index.references, AllReferences(pools), p.pool);
    assert (pools + [p])[..|pools|] == pools;
  }

  /** One more pool is acceptable exactly when the index takes it, and then the index stands for one more pool. */
  lemma TakeOne(rules: Rules, passages: Passages, index: Index, pools: seq<QueryPool>, p: QueryPool)
    requires Holds(rules, passages, index, pools) && PoolsAccepted(rules, passages, pools)
    ensures PoolsAccepted(rules, passages, pools + [p]) <==> CanAdd(rules, passages, index, p)
    ensures CanAdd(rules, passages, index, p) ==> Holds(rules, passages, Added(rules, passages, index, p), pools + [p])
  {
    LeaksMore(rules, passages, index, pools, p);
    WorldsMore(pools, index.worlds, p);
    assert forall q :: q in pools + [p] <==> q in pools || q == p;
    if CanAdd(rules, passages, index, p) {
      CountsMore(rules, passages, index, pools, p);
    }
  }

  lemma ObserveSingle(observed: Observed, value: string, split: Split)
    ensures ObserveAll(observed, [(value, split)]) == Observe(observed, value, split)
  {
    assert [(value, split)][..0] == [];
  }

  /** A refused prefix refuses the whole. */
  lemma PrefixAccepted(rules: Rules, passages: Passages, pools: seq<QueryPool>, i: nat)
    requires i <= |pools| && PoolsAccepted(rules, passages, pools)
    ensures PoolsAccepted(rules, passages, pools[..i])
  {
    var front := pools[..i];
    assert forall p <- front :: p in pools;
    assert forall k :: 0 <= k < i ==> front[k] == pools[k];
    PassageEntriesPrefix(rules, passages, pools, i);
    NoLeakPrefix(PassageEntries(rules, passages, front), PassageEntries(rules, passages, pools));
    NoLeakPrefix(QueryEntries(rules, front), QueryEntries(rules, pools));
  }

  lemma NoLeakPrefix(a: seq<(string, Split)>, b: seq<(string, Split)>)
    requires a <= b && NoLeak(b)
    ensures NoLeak(a)
  {
    assert forall k :: 0 <= k < |a| ==> a[k] == b[k];
  }

  lemma {:induction false} PassageEntriesPrefix(rules: Rules, passages: Passages, pools: seq<QueryPool>, i: nat)
    requires i <= |pools|
    ensures PassageEntries(rules, passages, pools[..i]) <= PassageEntries(rules, passages, pools)
    decreases |pools|
  {
    if i < |pools| {
      var front := pools[..|pools| - 1];
      assert front[..i] == pools[..i];
      PassageEntriesPrefix(rules, passages, front, i);
    } else {
      assert pools[..i] == pools;
    }
  }

  // ----- each passage once: sizes instead of membership

  /** `byId` maps exactly the ids of the passages, to them. */
  ghost predicate Indexed(byId: Passages, passages: seq<Passage>) {
    && (forall p <- passages :: p.id in byId && byId[p.id] == p)
    && (forall id <- byId :: byId[id] in passages && byId[id].id == id)
    && |byId| == |passages|
  }

  lemma IndexOneMore(byId: Passages, front: seq<Passage>, last: Passage)
    requires Indexed(byId, front) && DistinctIds(front + [last])
    ensures Indexed(byId[last.id := last], front + [last])
  {
    if last.id in byId {
      IndexedIdRepeats(byId, front, last);
    }
    assert forall p :: p in front + [last] <==> p in front || p == last;
  }

  lemma IndexedIdRepeats(byId: Passages, front: seq<Passage>, last: Passage)
    requires Indexed(byId, front) && last.id in byId
    ensures !DistinctIds(front + [last])
  {
    var i :| 0 <= i < |front| && front[i] == byId[last.id];
    assert (front + [last])[i].id == (front + [last])[|front|].id;
  }

  lemma {:induction false} ByIdHolds(passages: seq<Passage>)
    requires DistinctIds(passages)
    ensures Indexed(ById(passages), passages)
  {
    if passages != [] {
      var n := |passages| - 1;
      assert passages == passages[..n] + [passages[n]];
      assert forall i :: 0 <= i < n ==> passages[..n][i] == passages[i];
      ByIdHolds(passages[..n]);
      IndexOneMore(ById(passages[..n]), passages[..n], passages[n]);
    }
  }

  lemma SubsetOfEqualSize(a: set<string>, b: set<string>)
    requires a <= b && |a| == |b|
    ensures a == b
  {
    assert b == a + (b - a);
  }

  /** As many referenced passages as passages, each with count one: every passage is referenced exactly once. */
  lemma OnceBySize(passages: seq<Passage>, references: map<string, nat>, m: multiset<string>)
    requires DistinctIds(passages)
    requires Counts(references, m) && forall id :: id in m ==> id in ById(passages)
    ensures |references| == |passages| && (forall id <- references :: references[id] == 1) <==> EachOnce(passages, m)
  {
    var byId := ById(passages);
    ByIdHolds(passages);
    assert references.Keys <= byId.Keys;
    assert |references.Keys| == |references| && |byId.Keys| == |byId|;
    if |references| == |passages| && (forall id <- references :: references[id] == 1) {
      SubsetOfEqualSize(references.Keys, byId.Keys);
      forall p | p in passages ensures m[p.id] == 1 {
        assert p.id in byId.Keys;
      }
    }
    if EachOnce(passages, m) {
      forall id | id in byId ensures id in references && references[id] == 1 {
        assert byId[id] in passages;
      }
      assert references.Keys == byId.Keys;
    }
  }

  // ----- the parts of the validator

  method ValidateQueries(rules: Rules, queries: seq<Query>) returns (r: Option<set<string>>)
    ensures r.Some? <==> QueriesOk(rules, queries)
    ensures r.Some? ==> forall id :: id in r.value <==> exists q :: q in queries && q.id == id
    ensures r.Some? ==> |r.value| == |queries|
  {
    var ids: set<string> := {};
    var i := 0;
    while i < |queries|
      invariant 0 <= i <= |queries| && QueriesOk(rules, queries[..i])
      invariant forall id :: id in ids <==> exists k :: 0 <= k < i && queries[k].id == id
      invariant |ids| == i
    {
      var query := queries[i];
      assert query in queries && queries[..i + 1] == queries[..i] + [query];
      if !rules.query(query) {
        return None;
      }
      if query.id in ids {
        return None;
      }
      ids := ids + {query.id};
      i := i + 1;
    }
    assert queries[..i] == queries;
    return Some(ids);
  }

  /** An id is taken by the index exactly when it repeats an earlier one. */
  lemma TakenId(passages: seq<Passage>, i: nat)
    requires i < |passages| && DistinctIds(passages[..i])
    ensures passages[i].id in ById(passages[..i]) ==> !DistinctIds(passages)
    ensures passages[i].id !in ById(passages[..i]) ==> DistinctIds(passages[..i + 1])
    ensures ById(passages[..i + 1]) == ById(passages[..i])[passages[i].id := passages[i]]
  {
    var front := passages[..i];
    assert passages[..i + 1][..i] == front;
    if passages[i].id in ById(front) {
      RepeatedId(passages, i);
    } else {
      assert passages[..i + 1] == front + [passages[i]];
      NewId(front, passages[i]);
    }
  }

  lemma RepeatedId(passages: seq<Passage>, i: nat)
    requires i < |passages| && DistinctIds(passages[..i]) && passages[i].id in ById(passages[..i])
    ensures !DistinctIds(passages)
  {
    ByIdHolds(passages[..i]);
    var k :| 0 <= k < i && passages[..i][k] == ById(passages[..i])[passages[i].id];
    assert passages[k].id == passages[i].id;
  }

  lemma NewId(front: seq<Passage>, passage: Passage)
    requires DistinctIds(front) && passage.id !in ById(front)
    ensures DistinctIds(front + [passage])
  {
    ByIdHolds(front);
    forall j, k | 0 <= j < k < |front| + 1
      ensures (front + [passage])[j].id != (front + [passage])[k].id
    {
      assert front[j] in front;
    }
  }

  method ValidatePassages(rules: Rules, passages: seq<Passage>) returns (r: Option<Passages>)
    ensures r.Some? <==> PassagesOk(rules, passages)
    ensures r.Some? ==> r.value == ById(passages)
  {
    var byId: Passages := map[];
    var i := 0;
    while i < |passages|
      invariant 0 <= i <= |passages|
      invariant forall k :: 0 <= k < i ==> rules.passage(passages[k])
      invariant DistinctIds(passages[..i]) && byId == ById(passages[..i])
    {
      var passage := passages[i];
      TakenId(passages, i);
      assert passage in passages;
      if !rules.passage(passage) {
        return None;
      }
      if passage.id in byId {
        return None;
      }
      byId := byId[passage.id := passage];
      i := i + 1;
    }
    assert passages[..i] == passages;
    return Some(byId);
  }

  /** The judgments grouped by query. */
  ghost predicate Grouped(byQuery: map<string, seq<Judgment>>, judgments: seq<Judgment>) {
    forall id ::
        (id in byQuery <==> Pool(judgments, id) != []) && (id in byQuery ==> byQuery[id] == Pool(judgments, id))
  }

  lemma GroupOneMore(byQuery: map<string, seq<Judgment>>, judgments: seq<Judgment>)
    requires judgments != [] && Grouped(byQuery, judgments[..|judgments| - 1])
    ensures var last := judgments[|judgments| - 1];
            var pool := if last.queryId in byQuery then byQuery[last.queryId] else [];
            Grouped(byQuery[last.queryId := pool + [last]], judgments)
  {
  }

  ghost predicate JudgmentOk(rules: Rules, ids: set<string>, passages: Passages, j: Judgment) {
    j.queryId in ids && j.passageId in passages && rules.judgment(j, PassageFor(passages, j))
  }

  ghost predicate PairsDistinct(judgments: seq<Judgment>) {
    forall i, j :: 0 <= i < j < |judgments| ==>
      judgments[i].queryId != judgments[j].queryId || judgments[i].passageId != judgments[j].passageId
  }

  /** What the loop over the judgments knows after `i` of them. */
  ghost predicate JudgmentsRead(rules: Rules, ids: set<string>, passages: Passages, judgments: seq<Judgment>, i: nat,
                                byQuery: map<string, seq<Judgment>>, pairs: set<(string, string)>) {
    && i <= |judgments|
    && Grouped(byQuery, judgments[..i])
    && (forall k :: 0 <= k < i ==> JudgmentOk(rules, ids, passages, judgments[k]))
    && PairsRead(judgments, i, pairs)
  }

  ghost predicate PairsRead(judgments: seq<Judgment>, i: nat, pairs: set<(string, string)>)
    requires i <= |judgments|
  {
    && PairsDistinct(judgments[..i])
    && (forall k :: 0 <= k < i ==> (judgments[k].queryId, judgments[k].passageId) in pairs)
    && (forall pair <- pairs ::
        exists k :: 0 <= k < i && judgments[k].queryId == pair.0 && judgments[k].passageId == pair.1)
  }

  lemma ReadPair(judgments: seq<Judgment>, i: nat, pairs: set<(string, string)>)
    requires i < |judgments| && PairsRead(judgments, i, pairs)
    ensures var pair := (judgments[i].queryId, judgments[i].passageId);
            if pair in pairs then !PairsDistinct(judgments) else PairsRead(judgments, i + 1, pairs + {pair})
  {
    var pair := (judgments[i].queryId, judgments[i].passageId);
    if pair in pairs {
      var k :| 0 <= k < i && judgments[k].queryId == pair.0 && judgments[k].passageId == pair.1;
    } else {
      assert forall k :: 0 <= k < i ==> judgments[..i][k] == judgments[..i + 1][k];
    }
  }

  method ValidateJudgments(rules: Rules, ids: set<string>, passages: Passages, judgments: seq<Judgment>)
    returns (r: Option<map<string, seq<Judgment>>>)
    ensures r.Some? <==> (forall j <- judgments :: JudgmentOk(rules, ids, passages, j)) && PairsDistinct(judgments)
    ensures r.Some? ==> Grouped(r.value, judgments)
  {
    var byQuery: map<string, seq<Judgment>> := map[];
    var pairs: set<(string, string)> := {};
    var i := 0;
    while i < |judgments|
      invariant JudgmentsRead(rules, ids, passages, judgments, i, byQuery, pairs)
    {
      var judgment := judgments[i];
      assert judgment in judgments && judgments[..i + 1][..i] == judgments[..i];
      ReadPair(judgments, i, pairs);
      GroupOneMore(byQuery, judgments[..i + 1]);
      if judgment.queryId !in ids || judgment.passageId !in passages {
        return None;
      }
      if (judgment.queryId, judgment.passageId) in pairs {
        return None;
      }
      pairs := pairs + {(judgment.queryId, judgment.passageId)};
      if !rules.judgment(judgment, PassageFor(passages, judgment)) {
        return None;
      }
      var pool := if judgment.queryId in byQuery then byQuery[judgment.queryId] else [];
      byQuery := byQuery[judgment.queryId := pool + [judgment]];
      i := i + 1;
    }
    assert judgments[..i] == judgments;
    return Some(byQuery);
  }

  method GroupOf(passages: Passages, judgments: seq<Judgment>, split: Split, language: Language)
    returns (group: seq<Passage>)
    ensures group == Group(passages, judgments, split, language)
  {
    group := [];
    var i := 0;
    while i < |judgments|
      invariant 0 <= i <= |judgments| && group == Group(passages, judgments[..i], split, language)
    {
      assert judgments[..i + 1][..i] == judgments[..i];
      var passage := PassageFor(passages, judgments[i]);
      if judgments[i].split == split && passage.language == language {
        group := group + [passage];
      }
      i := i + 1;
    }
    assert judgments[..i] == judgments;
  }

  /** The nested loops of `validate_cross_split_template_isolation` for one language. */
  method IsolatedIn(rules: Rules, passages: Passages, judgments: seq<Judgment>, language: Language) returns (ok: bool)
    ensures ok <==> Isolated(rules, passages, judgments, language)
  {
    var train := GroupOf(passages, judgments, Train, language);
    var dev := GroupOf(passages, judgments, Dev, language);
    if train == [] || dev == [] {
      return false;
    }
    var i := 0;
    while i < |train|
      invariant 0 <= i <= |train|
      invariant forall k, b :: 0 <= k < i && b in dev ==> !rules.overlap(train[k], b)
    {
      var j := 0;
      while j < |dev|
        invariant 0 <= j <= |dev|
        invariant forall k :: 0 <= k < j ==> !rules.overlap(train[i], dev[k])
      {
        if rules.overlap(train[i], dev[j]) {
          assert train[i] in train && dev[j] in dev;
          return false;
        }
        j := j + 1;
      }
      i := i + 1;
    }
    return true;
  }

  /** The first `i` pools are acceptable and make up the index. */
  ghost predicate Taken(rules: Rules, passages: Passages, index: Index, pools: seq<QueryPool>, i: nat) {
    i <= |pools| && PoolsAccepted(rules, passages, pools[..i]) && Holds(rules, passages, index, pools[..i])
  }

  lemma TakeNext(rules: Rules, passages: Passages, index: Index, pools: seq<QueryPool>, i: nat)
    requires i < |pools| && Taken(rules, passages, index, pools, i)
    ensures if CanAdd(rules, passages, index, pools[i])
            then Taken(rules, passages, Added(rules, passages, index, pools[i]), pools, i + 1)
            else !PoolsAccepted(rules, passages, pools)
  {
    assert pools[..i + 1] == pools[..i] + [pools[i]];
    TakeOne(rules, passages, index, pools[..i], pools[i]);
    if PoolsAccepted(rules, passages, pools) {
      PrefixAccepted(rules, passages, pools, i + 1);
    }
  }

  lemma TakenAll(rules: Rules, passages: Passages, index: Index, pools: seq<QueryPool>)
    requires Taken(rules, passages, index, pools, |pools|)
    ensures PoolsAccepted(rules, passages, pools) && Holds(rules, passages, index, pools)
  {
    assert pools[..|pools|] == pools;
  }

  function PoolIn(byQuery: map<string, seq<Judgment>>, query: Query): seq<Judgment> {
    if query.id in byQuery then byQuery[query.id] else []
  }

  /** The loop over the queries. */
  method AddPools(rules: Rules, passages: Passages, queries: seq<Query>, byQuery: map<string, seq<Judgment>>,
                  ghost pools: seq<QueryPool>, index: CorpusIndex) returns (ok: bool)
    requires |pools| == |queries|
    requires forall i :: 0 <= i < |queries| ==> pools[i] == QueryPool(queries[i], PoolIn(byQuery, queries[i]))
    requires Taken(rules, passages, index.Value(), pools, 0)
    modifies index
    ensures if ok then Taken(rules, passages, index.Value(), pools, |pools|) else !PoolsAccepted(rules, passages, pools)
  {
    var i := 0;
    while i < |queries|
      invariant Taken(rules, passages, index.Value(), pools, i)
    {
      var query := queries[i];
      TakeNext(rules, passages, index.Value(), pools, i);
      if query.id !in byQuery {
        return false;
      }
      var added := index.Add(rules, passages, query, byQuery[query.id]);
      if !added {
        return false;
      }
      i := i + 1;
    }
    return true;
  }

  lemma StartEmpty(rules: Rules, passages: Passages, pools: seq<QueryPool>)
    ensures Taken(rules, passages, EMPTY, pools, 0)
  {
    assert pools[..0] == [];
  }

  lemma {:induction false} ReferencesKnown(pool: seq<Judgment>, passages: Passages)
    requires forall j <- pool :: j.passageId in passages
    ensures forall id :: id in References(pool) ==> id in passages
  {
    if pool != [] {
      assert pool[|pool| - 1] in pool;
      ReferencesKnown(pool[..|pool| - 1], passages);
    }
  }

  lemma {:induction false} PoolIsPart(judgments: seq<Judgment>, id: string)
    ensures forall j <- Pool(judgments, id) :: j in judgments && j.queryId == id
    ensures (exists j :: j in judgments && j.queryId == id) ==> Pool(judgments, id) != []
  {
    if judgments != [] {
      PoolIsPart(judgments[..|judgments| - 1], id);
    }
  }

  lemma {:induction false} AllReferencesKnown(pools: seq<QueryPool>, judgments: seq<Judgment>, passages: Passages)
    requires forall j <- judgments :: j.passageId in passages
    requires forall p <- pools :: forall j <- p.pool :: j in judgments
    ensures forall id :: id in AllReferences(pools) ==> id in passages
  {
    if pools != [] {
      var n := |pools| - 1;
      assert pools[n] in pools && forall p <- pools[..n] :: p in pools;
      AllReferencesKnown(pools[..n], judgments, passages);
      ReferencesKnown(pools[n].pool, passages);
    }
  }

  lemma PoolsArePart(queries: seq<Query>, judgments: seq<Judgment>)
    ensures forall p <- Pools(queries, judgments) :: forall j <- p.pool :: j in judgments
  {
    forall p | p in Pools(queries, judgments)
      ensures forall j <- p.pool :: j in judgments
    {
      PoolIsPart(judgments, p.query.id);
    }
  }

  /** Fewer groups than queries: some query has no judgments. */
  lemma SomeQueryWithoutJudgments(rules: Rules, passages: Passages, queries: seq<Query>, judgments: seq<Judgment>,
                                  ids: set<string>, byQuery: map<string, seq<Judgment>>)
    requires (forall id :: id in ids <==> exists q :: q in queries && q.id == id) && |ids| == |queries|
    requires Grouped(byQuery, judgments) && forall j <- judgments :: j.queryId in ids
    requires |byQuery| != |queries|
    ensures !PoolsAccepted(rules, passages, Pools(queries, judgments))
  {
    forall id | id in byQuery ensures id in ids {
      PoolIsPart(judgments, id);
      assert Pool(judgments, id)[0] in Pool(judgments, id);
    }
    assert byQuery.Keys <= ids && |byQuery.Keys| == |byQuery|;
    assert ids != byQuery.Keys;
    var id :| id in ids && id !in byQuery;
    var q :| q in queries && q.id == id;
    var i :| 0 <= i < |queries| && queries[i] == q;
    var p := Pools(queries, judgments)[i];
    assert p in Pools(queries, judgments) && p.pool == [];
    assert !PoolOk(rules, passages, p.query, p.pool);
  }

  /** The validator accepts exactly the corpora that meet the conditions, and reports their sizes. */
  method ValidateCorpus(rules: Rules, queries: seq<Query>, passages: seq<Passage>, judgments: seq<Judgment>,
          requirements: Requirements)
    returns (r: Option<Summary>)
    ensures r.Some? <==> Accepted(rules, queries, passages, judgments, requirements)
    ensures r.Some? ==> r.value == Summary(requirements.train.queries, requirements.dev.queries, |judgments|)
  {
    var ids := ValidateQueries(rules, queries);
    if ids.None? {
      return None;
    }
    var byId := ValidatePassages(rules, passages);
    if byId.None? {
      return None;
    }
    var byQuery := ValidateJudgments(rules, ids.value, byId.value, judgments);
    JudgmentsOkByIndex(rules, queries, passages, judgments, ids.value);
    if byQuery.None? {
      return None;
    }
    if |byQuery.value| != |queries| {
      SomeQueryWithoutJudgments(rules, byId.value, queries, judgments, ids.value, byQuery.value);
      return None;
    }
    var index := new CorpusIndex();
    StartEmpty(rules, byId.value, Pools(queries, judgments));
    var added := AddPools(rules, byId.value, queries, byQuery.value, Pools(queries, judgments), index);
    if !added {
      return None;
    }
    TakenAll(rules, byId.value, index.Value(), Pools(queries, judgments));
    PoolsArePart(queries, judgments);
    AllReferencesKnown(Pools(queries, judgments), judgments, byId.value);
    OnceBySize(passages, index.references, AllReferences(Pools(queries, judgments)));
    if |index.references| != |passages| || exists id <- index.references :: index.references[id] != 1 {
      return None;
    }
    var spanish := IsolatedIn(rules, byId.value, judgments, Es);
    if !spanish {
      return None;
    }
    var english := IsolatedIn(rules, byId.value, judgments, En);
    if !english {
      return None;
    }
    if !StatsOk(rules, index.train, requirements.train) || !StatsOk(rules, index.dev, requirements.dev) {
      return None;
    }
    return Some(Summary(index.train.queries, index.dev.queries, |judgments|));
  }

  lemma JudgmentsOkByIndex(rules: Rules, queries: seq<Query>, passages: seq<Passage>, judgments: seq<Judgment>,
          ids: set<string>)
    requires forall id :: id in ids <==> exists q :: q in queries && q.id == id
    ensures JudgmentsOk(rules, queries, passages, judgments)
       <==> (forall j <- judgments :: JudgmentOk(rules, ids, ById(passages), j)) && PairsDistinct(judgments)
  {
  }
}
