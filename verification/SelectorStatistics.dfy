// What the split statistics of the corpus validator count, on the queries and the
// judgments themselves, and the requirements as conditions on these.
module SelectorStatistics {
  import opened SelectorText
  import opened SelectorCorpus
  import opened SelectorValidator
  import opened SelectorCounting

  // ----- the requirements of a split, on queries and judgments

  /** The judgment is about the passage. */
  ghost predicate On(passages: seq<Passage>, j: Judgment, p: Passage) { p in passages && p.id == j.passageId }

  /** The judgment is about the query. */
  ghost predicate Of(judgments: seq<Judgment>, q: Query, j: Judgment) { j in judgments && j.queryId == q.id }

  /** How many elements satisfy `p`. */
  ghost function Number<T>(s: seq<T>, p: T -> bool): nat {
    if s == [] then 0 else Number(s[..|s| - 1], p) + if p(s[|s| - 1]) then 1 else 0
  }

  /** The query is judged in the split. */
  ghost predicate InSplit(judgments: seq<Judgment>, q: Query, split: Split) {
    exists j :: j in judgments && j.queryId == q.id && j.split == split
  }

  ghost function IsOf(id: string, role: Role): Judgment -> bool { (j: Judgment) => j.queryId == id && j.role == role }

  /** The answers to a query. */
  ghost function Answers(judgments: seq<Judgment>, q: Query): nat { Number(judgments, IsOf(q.id, Answer)) }

  /** The query is asked in one language and judged on passages in another, or the same. */
  ghost predicate HasDirection(passages: seq<Passage>, judgments: seq<Judgment>, q: Query, d: Direction) {
    q.language == d.query
    && exists j, p :: Of(judgments, q, j) && On(passages, j, p) && p.language == d.passage
  }

  ghost function Any(judgments: seq<Judgment>, split: Split): Query -> bool { q => InSplit(judgments, q, split) }

  ghost function Unanswered(judgments: seq<Judgment>, split: Split): Query -> bool {
    q => InSplit(judgments, q, split) && Answers(judgments, q) == 0
  }

  ghost function ManyAnswered(judgments: seq<Judgment>, split: Split): Query -> bool {
    q => InSplit(judgments, q, split) && Answers(judgments, q) >= 2
  }

  ghost function Directed(passages: seq<Passage>, judgments: seq<Judgment>, split: Split, d: Direction): Query -> bool {
    q => InSplit(judgments, q, split) && HasDirection(passages, judgments, q, d)
  }

  ghost predicate Tagged(judgments: seq<Judgment>, split: Split, tag: Tag) {
    exists j :: j in judgments && j.split == split && tag in j.tags
  }

  ghost predicate Discloses(judgments: seq<Judgment>, split: Split, disclosure: Disclosure) {
    exists j :: j in judgments && j.split == split && j.disclosure == disclosure
  }

  ghost predicate ForbidsAnswer(judgments: seq<Judgment>, split: Split) {
    exists j :: j in judgments && j.split == split && j.role == Answer && j.disclosure == Forbidden
  }

  ghost predicate Meets(requiredTags: set<Tag>, queries: seq<Query>, passages: seq<Passage>,
                        judgments: seq<Judgment>, split: Split, r: SplitRequirements) {
    && Number(queries, Any(judgments, split)) == r.queries
    && Number(queries, Unanswered(judgments, split)) == r.noAnswer
    && Number(queries, ManyAnswered(judgments, split)) >= r.minimumMultiAnswer
    && (forall d: Direction :: Number(queries, Directed(passages, judgments, split, d)) == r.direction)
    && (forall tag <- requiredTags :: Tagged(judgments, split, tag))
    && Discloses(judgments, split, Allowed) && Discloses(judgments, split, Forbidden)
    && ForbidsAnswer(judgments, split)
  }

  // ----- the map of passages

  /** The map finds for every judgment the one passage that it is about. */
  ghost predicate Finds(byId: Passages, passages: seq<Passage>, judgments: seq<Judgment>) {
    forall j <- judgments :: FindsFor(byId, passages, j)
  }

  ghost predicate FindsFor(byId: Passages, passages: seq<Passage>, j: Judgment) {
    forall p :: On(passages, j, p) <==> p == PassageFor(byId, j)
  }

  lemma FoundInMap(passages: seq<Passage>, j: Judgment)
    requires DistinctIds(passages)
    ensures j.passageId in ById(passages) <==> exists p :: On(passages, j, p)
    ensures j.passageId in ById(passages) ==> FindsFor(ById(passages), passages, j)
  {
    ByIdHolds(passages);
    forall p | On(passages, j, p) ensures p == PassageFor(ById(passages), j) { }
    if j.passageId in ById(passages) {
      assert On(passages, j, PassageFor(ById(passages), j));
    }
  }

  // ----- one pool

  lemma {:induction false} PoolMembers(judgments: seq<Judgment>, id: string, j: Judgment)
    ensures j in Pool(judgments, id) <==> j in judgments && j.queryId == id
  {
    if judgments != [] {
      var n := |judgments| - 1;
      PoolMembers(judgments[..n], id, j);
      assert judgments == judgments[..n] + [judgments[n]];
    }
  }

  lemma RoleMore(pool: seq<Judgment>, j: Judgment, role: Role)
    ensures RoleCount(pool + [j], role) == RoleCount(pool, role) + if j.role == role then 1 else 0
  {
    assert (pool + [j])[..|pool|] == pool;
  }

  /** The role count of a pool counts the judgments of its query. */
  lemma {:induction false} RolesAreNumbers(judgments: seq<Judgment>, id: string, role: Role)
    ensures RoleCount(Pool(judgments, id), role) == Number(judgments, IsOf(id, role))
  {
    if judgments != [] {
      var n := |judgments| - 1;
      RolesAreNumbers(judgments[..n], id, role);
      if judgments[n].queryId == id {
        RoleMore(Pool(judgments[..n], id), judgments[n], role);
      } else {
        assert Pool(judgments[..n], id) + [] == Pool(judgments[..n], id);
      }
    }
  }

  /** All judgments of the query share the split and the language of its pool's first one. */
  ghost predicate IsUniform(passages: Passages, judgments: seq<Judgment>, q: Query) {
    var pool := Pool(judgments, q.id);
    && pool != [] && OneWorld(pool)
    && forall j <- pool :: PassageFor(passages, j).language == PassageFor(passages, pool[0]).language
  }

  lemma SplitIsPools(passages: Passages, judgments: seq<Judgment>, q: Query, split: Split)
    requires IsUniform(passages, judgments, q)
    ensures InSplit(judgments, q, split) <==> SplitOf(Pool(judgments, q.id)) == split
  {
    var pool := Pool(judgments, q.id);
    PoolMembers(judgments, q.id, pool[0]);
    if j :| j in judgments && j.queryId == q.id && j.split == split {
      PoolMembers(judgments, q.id, j);
    }
  }

  lemma DirectionIsPools(byId: Passages, passages: seq<Passage>, judgments: seq<Judgment>, q: Query, d: Direction)
    requires IsUniform(byId, judgments, q) && Finds(byId, passages, judgments)
    ensures HasDirection(passages, judgments, q, d) <==> DirectionOf(byId, q, Pool(judgments, q.id)) == d
  {
    var pool := Pool(judgments, q.id);
    PoolMembers(judgments, q.id, pool[0]);
    assert FindsFor(byId, passages, pool[0]);
    assert Of(judgments, q, pool[0]) && On(passages, pool[0], PassageFor(byId, pool[0]));
    if j, p :| Of(judgments, q, j) && On(passages, j, p) && p.language == d.passage {
      PoolMembers(judgments, q.id, j);
      assert FindsFor(byId, passages, j);
    }
  }

  lemma {:induction false} TagsAre(pool: seq<Judgment>, tag: Tag)
    ensures tag in TagsOf(pool) <==> exists j :: j in pool && tag in j.tags
  {
    if pool != [] {
      var n := |pool| - 1;
      TagsAre(pool[..n], tag);
      assert pool == pool[..n] + [pool[n]];
    }
  }

  lemma {:induction false} DisclosuresAre(pool: seq<Judgment>, disclosure: Disclosure)
    ensures disclosure in DisclosuresOf(pool) <==> exists j :: j in pool && j.disclosure == disclosure
  {
    if pool != [] {
      var n := |pool| - 1;
      DisclosuresAre(pool[..n], disclosure);
      assert pool == pool[..n] + [pool[n]];
    }
  }

  lemma {:induction false} ForbiddenAre(pool: seq<Judgment>)
    ensures ForbiddenCount(pool) > 0 <==> exists j :: j in pool && j.role == Answer && j.disclosure == Forbidden
  {
    if pool != [] {
      var n := |pool| - 1;
      ForbiddenAre(pool[..n]);
      assert pool == pool[..n] + [pool[n]];
    }
  }

  // ----- all pools

  ghost predicate AllUniform(passages: Passages, queries: seq<Query>, judgments: seq<Judgment>) {
    forall q <- queries :: IsUniform(passages, judgments, q)
  }

  lemma UniformFront(passages: Passages, queries: seq<Query>, judgments: seq<Judgment>)
    requires queries != [] && AllUniform(passages, queries, judgments)
    ensures var n := |queries| - 1;
            AllUniform(passages, queries[..n], judgments) && IsUniform(passages, judgments, queries[n])
  {
    var n := |queries| - 1;
    assert queries[n] in queries && forall q <- queries[..n] :: q in queries;
  }

  /** The statistics after one more query. */
  lemma StatsMore(passages: Passages, queries: seq<Query>, judgments: seq<Judgment>, split: Split)
    requires queries != []
    ensures var n := |queries| - 1;
            var before := StatsOf(passages, Pools(queries[..n], judgments), split);
            var pool := Pool(judgments, queries[n].id);
            StatsOf(passages, Pools(queries, judgments), split)
            == if SplitOf(pool) == split then AddPool(before, passages, queries[n], pool) else before
  {
    var n := |queries| - 1;
    assert Pools(queries, judgments)[..n] == Pools(queries[..n], judgments);
  }

  /** The counters count the queries that they are named after. */
  lemma {:induction false} CountersAre(passages: Passages, queries: seq<Query>, judgments: seq<Judgment>, split: Split)
    requires AllUniform(passages, queries, judgments)
    ensures var stats := StatsOf(passages, Pools(queries, judgments), split);
            && stats.queries == Number(queries, Any(judgments, split))
            && stats.noAnswer == Number(queries, Unanswered(judgments, split))
            && stats.multiAnswer == Number(queries, ManyAnswered(judgments, split))
  {
    if queries != [] {
      var n := |queries| - 1;
      UniformFront(passages, queries, judgments);
      CountersAre(passages, queries[..n], judgments, split);
      StatsMore(passages, queries, judgments, split);
      SplitIsPools(passages, judgments, queries[n], split);
      RolesAreNumbers(judgments, queries[n].id, Answer);
    }
  }

  lemma {:induction false} DirectionsAre(byId: Passages, queries: seq<Query>, passages: seq<Passage>,
          judgments: seq<Judgment>, split: Split, d: Direction)
    requires AllUniform(byId, queries, judgments) && Finds(byId, passages, judgments)
    ensures Get(StatsOf(byId, Pools(queries, judgments), split).directions, d)
            == Number(queries, Directed(passages, judgments, split, d))
  {
    if queries != [] {
      var n := |queries| - 1;
      UniformFront(byId, queries, judgments);
      DirectionsAre(byId, queries[..n], passages, judgments, split, d);
      StatsMore(byId, queries, judgments, split);
      SplitIsPools(byId, judgments, queries[n], split);
      DirectionIsPools(byId, passages, judgments, queries[n], d);
    }
  }

  /** A judgment of one of the queries in the split. */
  ghost predicate Counted(queries: seq<Query>, judgments: seq<Judgment>, split: Split, j: Judgment) {
    j in judgments && j.split == split && HasQuery(queries, j.queryId)
  }

  lemma CountedMore(passages: Passages, queries: seq<Query>, judgments: seq<Judgment>, split: Split, j: Judgment)
    requires queries != [] && AllUniform(passages, queries, judgments)
    ensures var n := |queries| - 1;
            var pool := Pool(judgments, queries[n].id);
            Counted(queries, judgments, split, j)
            <==> Counted(queries[..n], judgments, split, j) || (SplitOf(pool) == split && j in pool)
  {
    var n := |queries| - 1;
    UniformFront(passages, queries, judgments);
    HasQueryLast(queries, j.queryId);
    PoolMembers(judgments, queries[n].id, j);
  }

  lemma {:induction false} TagsAreCounted(passages: Passages, queries: seq<Query>, judgments: seq<Judgment>,
          split: Split, tag: Tag)
    requires AllUniform(passages, queries, judgments)
    ensures tag in StatsOf(passages, Pools(queries, judgments), split).tags
            <==> exists j :: Counted(queries, judgments, split, j) && tag in j.tags
  {
    if queries != [] {
      var n := |queries| - 1;
      UniformFront(passages, queries, judgments);
      TagsAreCounted(passages, queries[..n], judgments, split, tag);
      StatsMore(passages, queries, judgments, split);
      TagsAre(Pool(judgments, queries[n].id), tag);
      forall j ensures Counted(queries, judgments, split, j)
                       <==> Counted(queries[..n], judgments, split, j)
                            || (SplitOf(Pool(judgments, queries[n].id)) == split && j in Pool(judgments, queries[n].id))
      {
        CountedMore(passages, queries, judgments, split, j);
      }
    }
  }

  lemma {:induction false} DisclosuresAreCounted(passages: Passages, queries: seq<Query>, judgments: seq<Judgment>,
          split: Split, disclosure: Disclosure)
    requires AllUniform(passages, queries, judgments)
    ensures disclosure in StatsOf(passages, Pools(queries, judgments), split).disclosures
            <==> exists j :: Counted(queries, judgments, split, j) && j.disclosure == disclosure
  {
    if queries != [] {
      var n := |queries| - 1;
      UniformFront(passages, queries, judgments);
      DisclosuresAreCounted(passages, queries[..n], judgments, split, disclosure);
      StatsMore(passages, queries, judgments, split);
      DisclosuresAre(Pool(judgments, queries[n].id), disclosure);
      forall j ensures Counted(queries, judgments, split, j)
                       <==> Counted(queries[..n], judgments, split, j)
                            || (SplitOf(Pool(judgments, queries[n].id)) == split && j in Pool(judgments, queries[n].id))
      {
        CountedMore(passages, queries, judgments, split, j);
      }
    }
  }

  lemma {:induction false} ForbiddenAreCounted(passages: Passages, queries: seq<Query>, judgments: seq<Judgment>,
          split: Split)
    requires AllUniform(passages, queries, judgments)
    ensures StatsOf(passages, Pools(queries, judgments), split).forbiddenAnswers > 0
            <==> exists j :: Counted(queries, judgments, split, j) && j.role == Answer && j.disclosure == Forbidden
  {
    if queries != [] {
      var n := |queries| - 1;
      UniformFront(passages, queries, judgments);
      ForbiddenAreCounted(passages, queries[..n], judgments, split);
      StatsMore(passages, queries, judgments, split);
      ForbiddenAre(Pool(judgments, queries[n].id));
      forall j ensures Counted(queries, judgments, split, j)
                       <==> Counted(queries[..n], judgments, split, j)
                            || (SplitOf(Pool(judgments, queries[n].id)) == split && j in Pool(judgments, queries[n].id))
      {
        CountedMore(passages, queries, judgments, split, j);
      }
    }
  }

  // ----- the requirements

  ghost predicate AllKnown(queries: seq<Query>, judgments: seq<Judgment>) {
    forall j <- judgments :: HasQuery(queries, j.queryId)
  }

  lemma FourDirections(byId: Passages, queries: seq<Query>, passages: seq<Passage>, judgments: seq<Judgment>,
          split: Split, n: nat)
    requires AllUniform(byId, queries, judgments) && Finds(byId, passages, judgments)
    ensures (forall d: Direction :: Number(queries, Directed(passages, judgments, split, d)) == n)
            <==> var stats := StatsOf(byId, Pools(queries, judgments), split);
                 && Get(stats.directions, Direction(Es, Es)) == n && Get(stats.directions, Direction(En, En)) == n
                 && Get(stats.directions, Direction(En, Es)) == n && Get(stats.directions, Direction(Es, En)) == n
  {
    var stats := StatsOf(byId, Pools(queries, judgments), split);
    forall d: Direction
      ensures Get(stats.directions, d) == Number(queries, Directed(passages, judgments, split, d))
      ensures d == Direction(Es, Es) || d == Direction(En, En) || d == Direction(En, Es) || d == Direction(Es, En)
    {
      DirectionsAre(byId, queries, passages, judgments, split, d);
      match d { case Direction(q, p) => assert (q == Es || q == En) && (p == Es || p == En); }
    }
  }

  lemma TagsAreMeant(passages: Passages, queries: seq<Query>, judgments: seq<Judgment>, split: Split,
          required: set<Tag>)
    requires AllUniform(passages, queries, judgments) && AllKnown(queries, judgments)
    ensures required <= StatsOf(passages, Pools(queries, judgments), split).tags
            <==> forall tag <- required :: Tagged(judgments, split, tag)
  {
    forall tag
      ensures tag in StatsOf(passages, Pools(queries, judgments), split).tags <==> Tagged(judgments, split, tag)
    {
      TagsAreCounted(passages, queries, judgments, split, tag);
      if j :| j in judgments && j.split == split && tag in j.tags {
        assert Counted(queries, judgments, split, j);
      }
    }
  }

  lemma DisclosuresAreMeant(passages: Passages, queries: seq<Query>, judgments: seq<Judgment>, split: Split)
    requires AllUniform(passages, queries, judgments) && AllKnown(queries, judgments)
    ensures var stats := StatsOf(passages, Pools(queries, judgments), split);
            && (Allowed in stats.disclosures <==> Discloses(judgments, split, Allowed))
            && (Forbidden in stats.disclosures <==> Discloses(judgments, split, Forbidden))
            && (stats.forbiddenAnswers > 0 <==> ForbidsAnswer(judgments, split))
  {
    forall disclosure
      ensures disclosure in StatsOf(passages, Pools(queries, judgments), split).disclosures
              <==> Discloses(judgments, split, disclosure)
    {
      DisclosuresAreCounted(passages, queries, judgments, split, disclosure);
      if j :| j in judgments && j.split == split && j.disclosure == disclosure {
        assert Counted(queries, judgments, split, j);
      }
    }
    ForbiddenAreCounted(passages, queries, judgments, split);
    if j :| j in judgments && j.split == split && j.role == Answer && j.disclosure == Forbidden {
      assert Counted(queries, judgments, split, j);
    }
  }

  /** The counters of a split are as required exactly when its queries and judgments are. */
  lemma StatsAreMeant(rules: Rules, byId: Passages, queries: seq<Query>, passages: seq<Passage>,
          judgments: seq<Judgment>, split: Split, r: SplitRequirements)
    requires AllUniform(byId, queries, judgments) && AllKnown(queries, judgments) && Finds(byId, passages, judgments)
    ensures StatsOk(rules, StatsOf(byId, Pools(queries, judgments), split), r)
            <==> Meets(rules.requiredTags, queries, passages, judgments, split, r)
  {
    CountersAre(byId, queries, judgments, split);
    FourDirections(byId, queries, passages, judgments, split, r.direction);
    TagsAreMeant(byId, queries, judgments, split, rules.requiredTags);
    DisclosuresAreMeant(byId, queries, judgments, split);
  }

  /** Everything that acceptance asks of the records, but for the requirements. */
  ghost predicate WellMade(rules: Rules, queries: seq<Query>, passages: seq<Passage>, judgments: seq<Judgment>) {
    && QueriesOk(rules, queries) && PassagesOk(rules, passages) && JudgmentsOk(rules, queries, passages, judgments)
    && PoolsAccepted(rules, ById(passages), Pools(queries, judgments))
    && EachOnce(passages, AllReferences(Pools(queries, judgments)))
    && Isolated(rules, ById(passages), judgments, Es) && Isolated(rules, ById(passages), judgments, En)
  }

  lemma WellMadeIsUniform(rules: Rules, queries: seq<Query>, passages: seq<Passage>, judgments: seq<Judgment>)
    requires WellMade(rules, queries, passages, judgments)
    ensures AllUniform(ById(passages), queries, judgments) && AllKnown(queries, judgments)
    ensures Finds(ById(passages), passages, judgments)
  {
    forall j | j in judgments ensures FindsFor(ById(passages), passages, j) { FoundInMap(passages, j); }
    var pools := Pools(queries, judgments);
    forall q | q in queries ensures IsUniform(ById(passages), judgments, q) {
      var k :| 0 <= k < |queries| && queries[k] == q;
      assert pools[k] in pools && PoolOk(rules, ById(passages), q, pools[k].pool);
      forall j | j in pools[k].pool
        ensures PassageFor(ById(passages), j).language == PassageFor(ById(passages), pools[k].pool[0]).language
      {
        assert JudgmentFits(rules, ById(passages), q, pools[k].pool[0], j);
      }
    }
  }

  /** A corpus is accepted exactly when it is well made and each split meets its requirements. */
  lemma RequirementsExactly(rules: Rules, queries: seq<Query>, passages: seq<Passage>, judgments: seq<Judgment>,
          r: Requirements)
    ensures Accepted(rules, queries, passages, judgments, r)
            <==> && WellMade(rules, queries, passages, judgments)
                 && Meets(rules.requiredTags, queries, passages, judgments, Train, r.train)
                 && Meets(rules.requiredTags, queries, passages, judgments, Dev, r.dev)
  {
    if WellMade(rules, queries, passages, judgments) {
      WellMadeIsUniform(rules, queries, passages, judgments);
      StatsAreMeant(rules, ById(passages), queries, passages, judgments, Train, r.train);
      StatsAreMeant(rules, ById(passages), queries, passages, judgments, Dev, r.dev);
    }
  }
}
