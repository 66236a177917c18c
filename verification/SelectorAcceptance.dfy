// What the corpus validator accepts, stated on the queries, passages and
// judgments themselves: no pools, maps, groups or counters.
module SelectorAcceptance {
  import opened SelectorText
  import opened SelectorCorpus
  import opened SelectorCounting
  import opened SelectorIsolation
  import opened SelectorStatistics

  // ----- conditions on the records

  ghost function OfQuery(id: string): Judgment -> bool { (j: Judgment) => j.queryId == id }

  ghost function OnPassage(id: string): Judgment -> bool { (j: Judgment) => j.passageId == id }

  ghost predicate IsKnown(rules: Rules, queries: seq<Query>, passages: seq<Passage>, j: Judgment) {
    HasQuery(queries, j.queryId) && exists p :: On(passages, j, p) && rules.judgment(j, p)
  }

  ghost predicate AllJudgedOnce(judgments: seq<Judgment>) {
    forall i, j :: 0 <= i < j < |judgments| ==>
      judgments[i].queryId != judgments[j].queryId || judgments[i].passageId != judgments[j].passageId
  }

  /** Its judgments put a query in one world of one split. */
  ghost predicate SameWorld(judgments: seq<Judgment>, q: Query) {
    forall a, b :: Of(judgments, q, a) && Of(judgments, q, b) ==> a.split == b.split && a.worldId == b.worldId
  }

  /** The passages of a query differ in nothing but their id and text. */
  ghost predicate SameFrame(passages: seq<Passage>, judgments: seq<Judgment>, q: Query) {
    forall a, b, p, r :: Of(judgments, q, a) && Of(judgments, q, b) && On(passages, a, p) && On(passages, b, r) ==>
      p.language == r.language && p.title == r.title && p.heading == r.heading
  }

  ghost predicate IsShown(rules: Rules, passages: seq<Passage>, judgments: seq<Judgment>, q: Query) {
    forall j, p :: Of(judgments, q, j) && On(passages, j, p) ==>
      rules.visibleQuery(q, j.worldId) && rules.visiblePassage(q, j, p)
  }

  /** A query without answers has nothing but hard negatives, any other at least three of them. */
  ghost predicate HasHardNegatives(judgments: seq<Judgment>, q: Query) {
    if Answers(judgments, q) == 0 then forall j :: Of(judgments, q, j) ==> j.role == HardNegative
    else Number(judgments, IsOf(q.id, HardNegative)) >= 3
  }

  ghost predicate QueryFits(rules: Rules, passages: seq<Passage>, judgments: seq<Judgment>, q: Query) {
    && Number(judgments, OfQuery(q.id)) == JUDGMENTS_PER_QUERY
    && SameWorld(judgments, q) && SameFrame(passages, judgments, q)
    && IsShown(rules, passages, judgments, q) && HasHardNegatives(judgments, q)
  }

  /** A world belongs to one query. */
  ghost predicate WorldsApart(judgments: seq<Judgment>) {
    forall a, b :: a in judgments && b in judgments && a.worldId == b.worldId ==> a.queryId == b.queryId
  }

  /** Queries of different splits have different normal forms. */
  ghost predicate QueriesApart(rules: Rules, queries: seq<Query>, judgments: seq<Judgment>) {
    forall q, r, a, b ::
      q in queries && r in queries && Of(judgments, q, a) && Of(judgments, r, b) && a.split != b.split ==>
        rules.normalizedQuery(q) != rules.normalizedQuery(r)
  }

  /** Passages judged in different splits have different normal forms. */
  ghost predicate PassagesApart(rules: Rules, passages: seq<Passage>, judgments: seq<Judgment>) {
    forall a, b, p, r ::
      a in judgments && b in judgments && On(passages, a, p) && On(passages, b, r) && a.split != b.split ==>
        rules.normalizedPassage(p) != rules.normalizedPassage(r)
  }

  ghost predicate EachJudgedOnce(passages: seq<Passage>, judgments: seq<Judgment>) {
    forall p <- passages :: Number(judgments, OnPassage(p.id)) == 1
  }

  ghost predicate JudgedIn(passages: seq<Passage>, judgments: seq<Judgment>, split: Split, language: Language,
                           p: Passage) {
    p.language == language && exists j :: j in judgments && j.split == split && On(passages, j, p)
  }

  /** Both splits have passages in the language, and none of one overlaps one of the other. */
  ghost predicate TemplatesApart(rules: Rules, passages: seq<Passage>, judgments: seq<Judgment>, language: Language) {
    && (exists p :: JudgedIn(passages, judgments, Train, language, p))
    && (exists p :: JudgedIn(passages, judgments, Dev, language, p))
    && forall p, r ::
         JudgedIn(passages, judgments, Train, language, p) && JudgedIn(passages, judgments, Dev, language, r) ==>
           !rules.overlap(p, r)
  }

  /** Each record keeps its rule, ids are distinct, and judgments are about known queries and passages. */
  ghost predicate RecordsFit(rules: Rules, queries: seq<Query>, passages: seq<Passage>, judgments: seq<Judgment>) {
    && (forall q <- queries :: rules.query(q)) && QueryIdsDistinct(queries)
    && (forall p <- passages :: rules.passage(p)) && DistinctIds(passages)
    && (forall j <- judgments :: IsKnown(rules, queries, passages, j)) && AllJudgedOnce(judgments)
  }

  /** Each query fits, and nothing but the split tells the queries of the two splits from each other. */
  ghost predicate QueriesFit(rules: Rules, queries: seq<Query>, passages: seq<Passage>, judgments: seq<Judgment>) {
    && (forall q <- queries :: QueryFits(rules, passages, judgments, q))
    && WorldsApart(judgments) && QueriesApart(rules, queries, judgments) && PassagesApart(rules, passages, judgments)
  }

  /** Everything that is asked of the records, but for the numbers that the splits must have. */
  ghost predicate IsFit(rules: Rules, queries: seq<Query>, passages: seq<Passage>, judgments: seq<Judgment>) {
    && RecordsFit(rules, queries, passages, judgments)
    && QueriesFit(rules, queries, passages, judgments)
    && EachJudgedOnce(passages, judgments)
    && TemplatesApart(rules, passages, judgments, Es) && TemplatesApart(rules, passages, judgments, En)
  }

  // ----- single records

  lemma JudgmentsExactly(rules: Rules, queries: seq<Query>, passages: seq<Passage>, judgments: seq<Judgment>)
    requires DistinctIds(passages)
    ensures JudgmentsOk(rules, queries, passages, judgments)
            <==> (forall j <- judgments :: IsKnown(rules, queries, passages, j)) && AllJudgedOnce(judgments)
    ensures (forall j <- judgments :: IsKnown(rules, queries, passages, j)) ==>
              Finds(ById(passages), passages, judgments)
  {
    forall j | j in judgments
      ensures IsKnown(rules, queries, passages, j)
              <==> (exists q <- queries :: q.id == j.queryId) && j.passageId in ById(passages)
                   && rules.judgment(j, PassageFor(ById(passages), j))
      ensures IsKnown(rules, queries, passages, j) ==> FindsFor(ById(passages), passages, j)
    {
      FoundInMap(passages, j);
    }
  }

  // ----- one query

  ghost predicate IsPool(judgments: seq<Judgment>, q: Query, pool: seq<Judgment>) {
    pool != [] && forall j :: j in pool <==> Of(judgments, q, j)
  }

  lemma {:induction false} PoolSize(judgments: seq<Judgment>, id: string)
    ensures |Pool(judgments, id)| == Number(judgments, OfQuery(id))
  {
    if judgments != [] {
      PoolSize(judgments[..|judgments| - 1], id);
    }
  }

  lemma OneWorldExactly(judgments: seq<Judgment>, q: Query, pool: seq<Judgment>)
    requires IsPool(judgments, q, pool)
    ensures OneWorld(pool) <==> SameWorld(judgments, q)
  {
    assert pool[0] in pool;
  }

  lemma FrameExactly(rules: Rules, byId: Passages, passages: seq<Passage>, judgments: seq<Judgment>, q: Query,
          pool: seq<Judgment>)
    requires IsPool(judgments, q, pool) && Finds(byId, passages, judgments) && SameWorld(judgments, q)
    ensures rules.visibleQuery(q, pool[0].worldId) && AllFit(rules, byId, q, pool)
            <==> SameFrame(passages, judgments, q) && IsShown(rules, passages, judgments, q)
  {
    assert pool[0] in pool;
    forall j | j in pool ensures On(passages, j, PassageFor(byId, j)) {
      assert FindsFor(byId, passages, j);
    }
    if rules.visibleQuery(q, pool[0].worldId) && AllFit(rules, byId, q, pool) {
      forall a, b, p, r | Of(judgments, q, a) && Of(judgments, q, b) && On(passages, a, p) && On(passages, b, r)
        ensures p.language == r.language && p.title == r.title && p.heading == r.heading
      {
        assert FindsFor(byId, passages, a) && FindsFor(byId, passages, b);
        assert JudgmentFits(rules, byId, q, pool[0], a) && JudgmentFits(rules, byId, q, pool[0], b);
      }
      forall j, p | Of(judgments, q, j) && On(passages, j, p)
        ensures rules.visibleQuery(q, j.worldId) && rules.visiblePassage(q, j, p)
      {
        assert FindsFor(byId, passages, j) && JudgmentFits(rules, byId, q, pool[0], j);
      }
    }
  }

  lemma {:induction false} AllOfRole(pool: seq<Judgment>, role: Role)
    ensures RoleCount(pool, role) <= |pool|
    ensures RoleCount(pool, role) == |pool| <==> forall j <- pool :: j.role == role
  {
    if pool != [] {
      var n := |pool| - 1;
      AllOfRole(pool[..n], role);
      assert pool == pool[..n] + [pool[n]];
    }
  }

  lemma RolesExactly(judgments: seq<Judgment>, q: Query, pool: seq<Judgment>)
    requires pool == Pool(judgments, q.id) && IsPool(judgments, q, pool) && |pool| == JUDGMENTS_PER_QUERY
    ensures RolesFit(pool) <==> HasHardNegatives(judgments, q)
  {
    RolesAreNumbers(judgments, q.id, Answer);
    RolesAreNumbers(judgments, q.id, HardNegative);
    RolesAddUp(pool);
    AllOfRole(pool, HardNegative);
  }

  /** The checks on a pool are the conditions on its query. */
  lemma PoolExactly(rules: Rules, byId: Passages, passages: seq<Passage>, judgments: seq<Judgment>, q: Query)
    requires Finds(byId, passages, judgments)
    ensures PoolOk(rules, byId, q, Pool(judgments, q.id)) <==> QueryFits(rules, passages, judgments, q)
  {
    var pool := Pool(judgments, q.id);
    PoolSize(judgments, q.id);
    if |pool| == JUDGMENTS_PER_QUERY {
      forall j ensures j in pool <==> Of(judgments, q, j) { PoolMembers(judgments, q.id, j); }
      OneWorldExactly(judgments, q, pool);
      if SameWorld(judgments, q) {
        FrameExactly(rules, byId, passages, judgments, q, pool);
        RolesExactly(judgments, q, pool);
      }
    }
  }

  lemma PoolsExactly(rules: Rules, byId: Passages, queries: seq<Query>, passages: seq<Passage>,
          judgments: seq<Judgment>)
    requires Finds(byId, passages, judgments)
    ensures (forall p <- Pools(queries, judgments) :: PoolOk(rules, byId, p.query, p.pool))
            <==> forall q <- queries :: QueryFits(rules, passages, judgments, q)
  {
    var pools := Pools(queries, judgments);
    forall i | 0 <= i < |queries|
      ensures PoolOk(rules, byId, pools[i].query, pools[i].pool)
              <==> QueryFits(rules, passages, judgments, queries[i])
    {
      PoolExactly(rules, byId, passages, judgments, queries[i]);
    }
  }

  // ----- worlds and splits of all queries


  ghost predicate AllTogether(queries: seq<Query>, judgments: seq<Judgment>) {
    forall q <- queries :: SameWorld(judgments, q) && IsJudged(judgments, q)
  }

  ghost predicate IsJudged(judgments: seq<Judgment>, q: Query) { exists j :: Of(judgments, q, j) }

  /** The world and the split read off the first judgment of a pool are those of every judgment in it. */
  lemma FirstSpeaksForAll(judgments: seq<Judgment>, q: Query, j: Judgment)
    requires SameWorld(judgments, q) && Of(judgments, q, j)
    ensures var pool := Pool(judgments, q.id);
            pool != [] && WorldOf(pool) == j.worldId && SplitOf(pool) == j.split
  {
    var pool := Pool(judgments, q.id);
    PoolMembers(judgments, q.id, j);
    PoolMembers(judgments, q.id, pool[0]);
  }

  lemma QueryOf(queries: seq<Query>, judgments: seq<Judgment>, j: Judgment) returns (i: nat)
    requires AllKnown(queries, judgments) && AllTogether(queries, judgments) && j in judgments
    ensures i < |queries| && Of(judgments, queries[i], j)
    ensures var pool := Pools(queries, judgments)[i].pool;
            j in pool && WorldOf(pool) == j.worldId && SplitOf(pool) == j.split
  {
    var q :| q in queries && q.id == j.queryId;
    i :| 0 <= i < |queries| && queries[i] == q;
    FirstSpeaksForAll(judgments, q, j);
    PoolMembers(judgments, q.id, j);
  }

  lemma JudgmentOf(queries: seq<Query>, judgments: seq<Judgment>, i: nat) returns (j: Judgment)
    requires AllTogether(queries, judgments) && i < |queries|
    ensures Of(judgments, queries[i], j)
    ensures var pool := Pools(queries, judgments)[i].pool; WorldOf(pool) == j.worldId && SplitOf(pool) == j.split
  {
    assert IsJudged(judgments, queries[i]);
    j :| Of(judgments, queries[i], j);
    FirstSpeaksForAll(judgments, queries[i], j);
  }

  lemma WorldsExactly(queries: seq<Query>, judgments: seq<Judgment>)
    requires QueryIdsDistinct(queries) && AllKnown(queries, judgments) && AllTogether(queries, judgments)
    ensures WorldsDistinct(Pools(queries, judgments)) <==> WorldsApart(judgments)
  {
    var pools := Pools(queries, judgments);
    if WorldsDistinct(pools) {
      forall a, b | a in judgments && b in judgments && a.worldId == b.worldId ensures a.queryId == b.queryId {
        var i := QueryOf(queries, judgments, a);
        var k := QueryOf(queries, judgments, b);
        assert i == k;
      }
    }
    if WorldsApart(judgments) {
      forall i, k | 0 <= i < k < |pools| ensures WorldOf(pools[i].pool) != WorldOf(pools[k].pool) {
        var a := JudgmentOf(queries, judgments, i);
        var b := JudgmentOf(queries, judgments, k);
        assert queries[i].id != queries[k].id;
      }
    }
  }

  lemma QueriesExactly(rules: Rules, queries: seq<Query>, judgments: seq<Judgment>)
    requires QueryIdsDistinct(queries) && AllTogether(queries, judgments)
    ensures NoLeak(QueryEntries(rules, Pools(queries, judgments))) <==> QueriesApart(rules, queries, judgments)
  {
    var entries := QueryEntries(rules, Pools(queries, judgments));
    if NoLeak(entries) {
      forall q, r, a, b |
        q in queries && r in queries && Of(judgments, q, a) && Of(judgments, r, b) && a.split != b.split
        ensures rules.normalizedQuery(q) != rules.normalizedQuery(r)
      {
        var i :| 0 <= i < |queries| && queries[i] == q;
        var k :| 0 <= k < |queries| && queries[k] == r;
        FirstSpeaksForAll(judgments, q, a);
        FirstSpeaksForAll(judgments, r, b);
        assert entries[i] == (rules.normalizedQuery(q), a.split) && entries[k] == (rules.normalizedQuery(r), b.split);
      }
    }
    if QueriesApart(rules, queries, judgments) {
      forall i, k | 0 <= i < k < |entries| && entries[i].0 == entries[k].0 ensures entries[i].1 == entries[k].1 {
        var a := JudgmentOf(queries, judgments, i);
        var b := JudgmentOf(queries, judgments, k);
        assert queries[i] in queries && queries[k] in queries;
      }
    }
  }

  /** Every entry of a passage comes from a judgment. */
  lemma {:induction false} EntryFrom(rules: Rules, byId: Passages, pools: seq<QueryPool>, e: nat)
    returns (k: nat, j: Judgment)
    requires e < |PassageEntries(rules, byId, pools)|
    ensures k < |pools| && j in pools[k].pool
    ensures PassageEntries(rules, byId, pools)[e]
            == (rules.normalizedPassage(PassageFor(byId, j)), SplitOf(pools[k].pool))
    decreases |pools|
  {
    var n := |pools| - 1;
    var before := PassageEntries(rules, byId, pools[..n]);
    if e < |before| {
      k, j := EntryFrom(rules, byId, pools[..n], e);
    } else {
      k, j := n, pools[n].pool[e - |before|];
    }
  }

  lemma EntryOfJudgment(rules: Rules, byId: Passages, queries: seq<Query>, judgments: seq<Judgment>, e: nat)
    returns (j: Judgment)
    requires AllTogether(queries, judgments) && e < |PassageEntries(rules, byId, Pools(queries, judgments))|
    ensures j in judgments
    ensures PassageEntries(rules, byId, Pools(queries, judgments))[e]
            == (rules.normalizedPassage(PassageFor(byId, j)), j.split)
  {
    var k;
    k, j := EntryFrom(rules, byId, Pools(queries, judgments), e);
    PoolMembers(judgments, queries[k].id, j);
    FirstSpeaksForAll(judgments, queries[k], j);
  }

  lemma PassagesExactly(rules: Rules, byId: Passages, queries: seq<Query>, passages: seq<Passage>,
          judgments: seq<Judgment>)
    requires Finds(byId, passages, judgments) && AllKnown(queries, judgments) && AllTogether(queries, judgments)
    ensures NoLeak(PassageEntries(rules, byId, Pools(queries, judgments)))
            <==> PassagesApart(rules, passages, judgments)
  {
    var pools := Pools(queries, judgments);
    var entries := PassageEntries(rules, byId, pools);
    if NoLeak(entries) {
      forall a, b, p, r |
        a in judgments && b in judgments && On(passages, a, p) && On(passages, b, r) && a.split != b.split
        ensures rules.normalizedPassage(p) != rules.normalizedPassage(r)
      {
        assert FindsFor(byId, passages, a) && FindsFor(byId, passages, b);
        var i := QueryOf(queries, judgments, a);
        var k := QueryOf(queries, judgments, b);
        if rules.normalizedPassage(p) == rules.normalizedPassage(r) {
          EqualEntriesShareSplit(rules, byId, pools, i, a, k, b);
        }
      }
    }
    if PassagesApart(rules, passages, judgments) {
      forall e, f | 0 <= e < f < |entries| && entries[e].0 == entries[f].0 ensures entries[e].1 == entries[f].1 {
        var a := EntryOfJudgment(rules, byId, queries, judgments, e);
        var b := EntryOfJudgment(rules, byId, queries, judgments, f);
        assert FindsFor(byId, passages, a) && FindsFor(byId, passages, b);
        assert On(passages, a, PassageFor(byId, a)) && On(passages, b, PassageFor(byId, b));
      }
    }
  }

  // ----- each passage once, and the templates

  lemma {:induction false} ReferencesAreNumbers(judgments: seq<Judgment>, id: string)
    ensures References(judgments)[id] == Number(judgments, OnPassage(id))
  {
    if judgments != [] {
      ReferencesAreNumbers(judgments[..|judgments| - 1], id);
    }
  }

  lemma OnceExactly(queries: seq<Query>, passages: seq<Passage>, judgments: seq<Judgment>)
    requires QueryIdsDistinct(queries) && AllKnown(queries, judgments)
    ensures EachOnce(passages, AllReferences(Pools(queries, judgments))) <==> EachJudgedOnce(passages, judgments)
  {
    PoolsHoldAll(queries, judgments);
    forall p | p in passages ensures References(judgments)[p.id] == Number(judgments, OnPassage(p.id)) {
      ReferencesAreNumbers(judgments, p.id);
    }
  }

  ghost predicate IsJudgedIn(byId: Passages, judgments: seq<Judgment>, split: Split, p: Passage) {
    exists j :: j in judgments && j.split == split && PassageFor(byId, j) == p
  }

  lemma {:induction false} GroupMembers(byId: Passages, judgments: seq<Judgment>, split: Split, language: Language,
          p: Passage)
    ensures p in Group(byId, judgments, split, language)
            <==> p.language == language && IsJudgedIn(byId, judgments, split, p)
  {
    if judgments != [] {
      var n := |judgments| - 1;
      GroupMembers(byId, judgments[..n], split, language, p);
      GroupMore(byId, judgments, split, language, p);
      SomeMore(byId, judgments, judgments[..n], judgments[n], split, p);
    }
  }

  lemma GroupMore(byId: Passages, judgments: seq<Judgment>, split: Split, language: Language, p: Passage)
    requires judgments != []
    ensures var n := |judgments| - 1;
            p in Group(byId, judgments, split, language)
            <==> p in Group(byId, judgments[..n], split, language)
                 || (p.language == language && judgments[n].split == split && PassageFor(byId, judgments[n]) == p)
  {
  }

  lemma SomeMore(byId: Passages, judgments: seq<Judgment>, front: seq<Judgment>, last: Judgment, split: Split,
          p: Passage)
    requires judgments != [] && front == judgments[..|judgments| - 1] && last == judgments[|judgments| - 1]
    ensures IsJudgedIn(byId, judgments, split, p)
            <==> IsJudgedIn(byId, front, split, p) || (last.split == split && PassageFor(byId, last) == p)
  {
    assert judgments == front + [last];
  }

  lemma GroupExactly(byId: Passages, passages: seq<Passage>, judgments: seq<Judgment>, split: Split,
          language: Language, p: Passage)
    requires Finds(byId, passages, judgments)
    ensures p in Group(byId, judgments, split, language) <==> JudgedIn(passages, judgments, split, language, p)
  {
    GroupMembers(byId, judgments, split, language, p);
    forall j | j in judgments ensures PassageFor(byId, j) == p <==> On(passages, j, p) {
      assert FindsFor(byId, passages, j);
    }
  }

  lemma TemplatesExactly(rules: Rules, byId: Passages, passages: seq<Passage>, judgments: seq<Judgment>,
          language: Language)
    requires Finds(byId, passages, judgments)
    ensures Isolated(rules, byId, judgments, language) <==> TemplatesApart(rules, passages, judgments, language)
  {
    var train, dev := Group(byId, judgments, Train, language), Group(byId, judgments, Dev, language);
    forall p
      ensures p in train <==> JudgedIn(passages, judgments, Train, language, p)
      ensures p in dev <==> JudgedIn(passages, judgments, Dev, language, p)
    {
      GroupExactly(byId, passages, judgments, Train, language, p);
      GroupExactly(byId, passages, judgments, Dev, language, p);
    }
    assert train != [] <==> exists p :: p in train by { if train != [] { assert train[0] in train; } }
    assert dev != [] <==> exists p :: p in dev by { if dev != [] { assert dev[0] in dev; } }
  }

  // ----- the theorem

  lemma SomeCounted(judgments: seq<Judgment>, q: Query)
    requires Number(judgments, OfQuery(q.id)) > 0
    ensures IsJudged(judgments, q)
  {
    PoolSize(judgments, q.id);
    PoolMembers(judgments, q.id, Pool(judgments, q.id)[0]);
    assert Of(judgments, q, Pool(judgments, q.id)[0]);
  }

  lemma FittingIsTogether(rules: Rules, queries: seq<Query>, passages: seq<Passage>, judgments: seq<Judgment>)
    requires forall q <- queries :: QueryFits(rules, passages, judgments, q)
    ensures AllTogether(queries, judgments)
  {
    forall q | q in queries ensures SameWorld(judgments, q) && IsJudged(judgments, q) {
      SomeCounted(judgments, q);
    }
  }

  lemma PoolsAcceptedExactly(rules: Rules, byId: Passages, queries: seq<Query>, passages: seq<Passage>,
          judgments: seq<Judgment>)
    requires Finds(byId, passages, judgments) && QueryIdsDistinct(queries) && AllKnown(queries, judgments)
    ensures PoolsAccepted(rules, byId, Pools(queries, judgments))
            <==> QueriesFit(rules, queries, passages, judgments)
  {
    PoolsExactly(rules, byId, queries, passages, judgments);
    if forall q <- queries :: QueryFits(rules, passages, judgments, q) {
      FittingIsTogether(rules, queries, passages, judgments);
      WorldsExactly(queries, judgments);
      QueriesExactly(rules, queries, judgments);
      PassagesExactly(rules, byId, queries, passages, judgments);
    }
  }

  lemma RecordsExactly(rules: Rules, queries: seq<Query>, passages: seq<Passage>, judgments: seq<Judgment>)
    ensures QueriesOk(rules, queries) && PassagesOk(rules, passages)
            && JudgmentsOk(rules, queries, passages, judgments)
            <==> RecordsFit(rules, queries, passages, judgments)
    ensures RecordsFit(rules, queries, passages, judgments) ==>
              Finds(ById(passages), passages, judgments) && AllKnown(queries, judgments)
  {
    if DistinctIds(passages) {
      JudgmentsExactly(rules, queries, passages, judgments);
    }
  }

  /** The maps, pools and groups of the validator decide the conditions on the records. */
  lemma WellMadeExactly(rules: Rules, queries: seq<Query>, passages: seq<Passage>, judgments: seq<Judgment>)
    ensures WellMade(rules, queries, passages, judgments) <==> IsFit(rules, queries, passages, judgments)
  {
    RecordsExactly(rules, queries, passages, judgments);
    if RecordsFit(rules, queries, passages, judgments) {
      PoolsAcceptedExactly(rules, ById(passages), queries, passages, judgments);
      OnceExactly(queries, passages, judgments);
      TemplatesExactly(rules, ById(passages), passages, judgments, Es);
      TemplatesExactly(rules, ById(passages), passages, judgments, En);
    }
  }

  /**
   * A corpus is accepted exactly when its records are fit and each split has the
   * required numbers of queries, of queries without an answer, of queries with
   * several answers and of queries for each pair of languages, and has every
   * required tag, both disclosures and a forbidden answer.
   */
  lemma AcceptedExactly(rules: Rules, queries: seq<Query>, passages: seq<Passage>, judgments: seq<Judgment>,
          r: Requirements)
    ensures Accepted(rules, queries, passages, judgments, r)
            <==> && IsFit(rules, queries, passages, judgments)
                 && Meets(rules.requiredTags, queries, passages, judgments, Train, r.train)
                 && Meets(rules.requiredTags, queries, passages, judgments, Dev, r.dev)
  {
    RequirementsExactly(rules, queries, passages, judgments, r);
    WellMadeExactly(rules, queries, passages, judgments);
  }
}
