// `validate_corpus`: one pass with maps and counters decides conditions stated
// on pairs of records.
module SelectorCorpus {
  import opened Wrappers
  import opened SelectorText

  datatype Language = Es | En

  datatype Role = Answer | Support | HardNegative

  datatype Disclosure = Allowed | Forbidden

  datatype NegativeKind =
    | SupportContext | WrongEntity | WrongRelation | WrongDate | WrongVersion | WrongScope
    | Negation | Ambiguity | MetadataOnly | UnrelatedInjection | Random

  datatype Tag =
    | Direct | Paraphrase | Compound | Absence | Conflict | Duplicate
    | InjectionRequested | InjectionUnrelated | WrongEntity | WrongRelation | WrongDate | WrongVersion
    | WrongScope | Negation | Ambiguity | MetadataOnly | LongPassage

  /** Where the evidence for an answer stands, in bytes of the passage text. */
  datatype Span = Span(start: nat, end: nat)

  datatype Query = Query(id: string, text: string, language: Language)

  datatype Passage = Passage(id: string, title: string, heading: string, text: string, language: Language)

  datatype Judgment = Judgment(
    queryId: string, passageId: string, split: Split, worldId: string, role: Role,
    answerGroup: Option<string>, disclosure: Disclosure, tags: seq<Tag>, negativeKind: Option<NegativeKind>,
    evidence: seq<Span>, reviewReason: string)

  const JUDGMENTS_PER_QUERY := 6

  /** The checks on the text of single records, the normal forms and the template comparison, as parameters. */
  datatype Rules = Rules(
    query: Query -> bool,
    passage: Passage -> bool,
    judgment: (Judgment, Passage) -> bool,
    visibleQuery: (Query, string) -> bool,
    visiblePassage: (Query, Judgment, Passage) -> bool,
    normalizedQuery: Query -> string,
    normalizedPassage: Passage -> string,
    overlap: (Passage, Passage) -> bool,
    requiredTags: set<Tag>)

  datatype SplitRequirements = SplitRequirements(queries: nat, noAnswer: nat, direction: nat, minimumMultiAnswer: nat)

  datatype Requirements = Requirements(train: SplitRequirements, dev: SplitRequirements)

  datatype Direction = Direction(query: Language, passage: Language)

  datatype Stats = Stats(
    queries: nat, noAnswer: nat, multiAnswer: nat, directions: map<Direction, nat>,
    tags: set<Tag>, disclosures: set<Disclosure>, forbiddenAnswers: nat)

  const NO_STATS := Stats(0, 0, 0, map[], {}, {}, 0)

  datatype Summary = Summary(trainQueries: nat, devQueries: nat, judgments: nat)

  type Passages = map<string, Passage>

  // ----- what acceptance means

  function PassageFor(passages: Passages, judgment: Judgment): Passage {
    if judgment.passageId in passages then passages[judgment.passageId] else Passage("", "", "", "", Es)
  }

  /** The judgments of one query, in order. */
  function Pool(judgments: seq<Judgment>, id: string): seq<Judgment> {
    if judgments == [] then []
    else
      var n := |judgments| - 1;
      Pool(judgments[..n], id) + if judgments[n].queryId == id then [judgments[n]] else []
  }

  function RoleCount(pool: seq<Judgment>, role: Role): nat {
    if pool == [] then 0
    else RoleCount(pool[..|pool| - 1], role) + if pool[|pool| - 1].role == role then 1 else 0
  }

  /** A judgment fits its query's pool, whose first judgment is `first`. */
  predicate JudgmentFits(rules: Rules, passages: Passages, query: Query, first: Judgment, judgment: Judgment) {
    var p, f := PassageFor(passages, judgment), PassageFor(passages, first);
    p.language == f.language && p.title == f.title && p.heading == f.heading && rules.visiblePassage(query, judgment, p)
  }

  predicate RolesFit(pool: seq<Judgment>) {
    if RoleCount(pool, Answer) == 0 then RoleCount(pool, Support) == 0 && RoleCount(pool, HardNegative) >= 4
    else RoleCount(pool, HardNegative) >= 3
  }

  predicate OneWorld(pool: seq<Judgment>)
    requires pool != []
  {
    forall j <- pool :: j.split == pool[0].split && j.worldId == pool[0].worldId
  }

  predicate AllFit(rules: Rules, passages: Passages, query: Query, pool: seq<Judgment>)
    requires pool != []
  {
    forall j <- pool :: JudgmentFits(rules, passages, query, pool[0], j)
  }

  predicate PoolOk(rules: Rules, passages: Passages, query: Query, pool: seq<Judgment>) {
    && |pool| == JUDGMENTS_PER_QUERY
    && OneWorld(pool)
    && rules.visibleQuery(query, pool[0].worldId)
    && AllFit(rules, passages, query, pool)
    && RolesFit(pool)
  }

  ghost predicate QueriesOk(rules: Rules, queries: seq<Query>) {
    && (forall q <- queries :: rules.query(q))
    && (forall i, j :: 0 <= i < j < |queries| ==> queries[i].id != queries[j].id)
  }

  ghost predicate DistinctIds(passages: seq<Passage>) {
    forall i, j :: 0 <= i < j < |passages| ==> passages[i].id != passages[j].id
  }

  ghost predicate PassagesOk(rules: Rules, passages: seq<Passage>) {
    (forall p <- passages :: rules.passage(p)) && DistinctIds(passages)
  }

  /** The passages by id; ids are distinct wherever this is used. */
  function ById(passages: seq<Passage>): Passages {
    if passages == [] then map[]
    else ById(passages[..|passages| - 1])[passages[|passages| - 1].id := passages[|passages| - 1]]
  }

  ghost predicate JudgmentsOk(rules: Rules, queries: seq<Query>, passages: seq<Passage>, judgments: seq<Judgment>) {
    && (forall j <- judgments :: (exists q <- queries :: q.id == j.queryId) && j.passageId in ById(passages)
                                 && rules.judgment(j, PassageFor(ById(passages), j)))
    && (forall i, j :: 0 <= i < j < |judgments| ==>
          judgments[i].queryId != judgments[j].queryId || judgments[i].passageId != judgments[j].passageId)
  }

  datatype QueryPool = QueryPool(query: Query, pool: seq<Judgment>)

  ghost function Pools(queries: seq<Query>, judgments: seq<Judgment>): seq<QueryPool> {
    seq(|queries|, i requires 0 <= i < |queries| => QueryPool(queries[i], Pool(judgments, queries[i].id)))
  }

  /** The split of a pool, read off its first judgment. */
  function SplitOf(pool: seq<Judgment>): Split { if pool == [] then Train else pool[0].split }

  function WorldOf(pool: seq<Judgment>): string { if pool == [] then "" else pool[0].worldId }

  function QueryEntries(rules: Rules, pools: seq<QueryPool>): seq<(string, Split)> {
    seq(|pools|, i requires 0 <= i < |pools| => (rules.normalizedQuery(pools[i].query), SplitOf(pools[i].pool)))
  }

  function PoolEntries(rules: Rules, passages: Passages, pool: seq<Judgment>): seq<(string, Split)> {
    seq(|pool|, i requires 0 <= i < |pool| => (rules.normalizedPassage(PassageFor(passages, pool[i])), SplitOf(pool)))
  }

  function PassageEntries(rules: Rules, passages: Passages, pools: seq<QueryPool>): seq<(string, Split)> {
    if pools == [] then []
    else PassageEntries(rules, passages, pools[..|pools| - 1]) + PoolEntries(rules, passages, pools[|pools| - 1].pool)
  }

  ghost predicate WorldsDistinct(pools: seq<QueryPool>) {
    forall i, j :: 0 <= i < j < |pools| ==> WorldOf(pools[i].pool) != WorldOf(pools[j].pool)
  }

  ghost function References(pool: seq<Judgment>): multiset<string> {
    if pool == [] then multiset{} else References(pool[..|pool| - 1]) + multiset{pool[|pool| - 1].passageId}
  }

  ghost predicate EachOnce(passages: seq<Passage>, references: multiset<string>) {
    forall p <- passages :: references[p.id] == 1
  }

  function Get(directions: map<Direction, nat>, direction: Direction): nat {
    if direction in directions then directions[direction] else 0
  }

  function TagSet(tags: seq<Tag>): set<Tag> { set tag | tag in tags }

  function TagsOf(pool: seq<Judgment>): set<Tag> {
    if pool == [] then {} else TagsOf(pool[..|pool| - 1]) + TagSet(pool[|pool| - 1].tags)
  }

  function DisclosuresOf(pool: seq<Judgment>): set<Disclosure> {
    if pool == [] then {} else DisclosuresOf(pool[..|pool| - 1]) + {pool[|pool| - 1].disclosure}
  }

  function ForbiddenCount(pool: seq<Judgment>): nat {
    if pool == [] then 0
    else
      var last := pool[|pool| - 1];
      ForbiddenCount(pool[..|pool| - 1]) + if last.role.Answer? && last.disclosure.Forbidden? then 1 else 0
  }

  function DirectionOf(passages: Passages, query: Query, pool: seq<Judgment>): Direction {
    Direction(query.language, if pool == [] then Es else PassageFor(passages, pool[0]).language)
  }

  function AddPool(stats: Stats, passages: Passages, query: Query, pool: seq<Judgment>): Stats {
    var direction := DirectionOf(passages, query, pool);
    Stats(
      stats.queries + 1,
      stats.noAnswer + (if RoleCount(pool, Answer) == 0 then 1 else 0),
      stats.multiAnswer + (if RoleCount(pool, Answer) >= 2 then 1 else 0),
      stats.directions[direction := Get(stats.directions, direction) + 1],
      stats.tags + TagsOf(pool),
      stats.disclosures + DisclosuresOf(pool),
      stats.forbiddenAnswers + ForbiddenCount(pool))
  }

  ghost function StatsOf(passages: Passages, pools: seq<QueryPool>, split: Split): Stats {
    if pools == [] then NO_STATS
    else
      var n := |pools| - 1;
      var before := StatsOf(passages, pools[..n], split);
      if SplitOf(pools[n].pool) == split then AddPool(before, passages, pools[n].query, pools[n].pool) else before
  }

  predicate StatsOk(rules: Rules, stats: Stats, r: SplitRequirements) {
    && stats.queries == r.queries
    && stats.noAnswer == r.noAnswer
    && stats.multiAnswer >= r.minimumMultiAnswer
    && Get(stats.directions, Direction(Es, Es)) == r.direction
    && Get(stats.directions, Direction(En, En)) == r.direction
    && Get(stats.directions, Direction(En, Es)) == r.direction
    && Get(stats.directions, Direction(Es, En)) == r.direction
    && rules.requiredTags <= stats.tags
    && Allowed in stats.disclosures && Forbidden in stats.disclosures
    && stats.forbiddenAnswers > 0
  }

  /** The passages judged in one split and language. */
  function Group(passages: Passages, judgments: seq<Judgment>, split: Split, language: Language): seq<Passage> {
    if judgments == [] then []
    else
      var n := |judgments| - 1;
      var p := PassageFor(passages, judgments[n]);
      Group(passages, judgments[..n], split, language)
        + if judgments[n].split == split && p.language == language then [p] else []
  }

  ghost predicate Isolated(rules: Rules, passages: Passages, judgments: seq<Judgment>, language: Language) {
    var train, dev := Group(passages, judgments, Train, language), Group(passages, judgments, Dev, language);
    train != [] && dev != [] && forall a, b :: a in train && b in dev ==> !rules.overlap(a, b)
  }

  /** Acceptance, stated on records and pairs of records. */
  ghost predicate Accepted(rules: Rules, queries: seq<Query>, passages: seq<Passage>, judgments: seq<Judgment>,
          r: Requirements) {
    && QueriesOk(rules, queries) && PassagesOk(rules, passages) && JudgmentsOk(rules, queries, passages, judgments)
    && PoolsAccepted(rules, ById(passages), Pools(queries, judgments))
    && EachOnce(passages, AllReferences(Pools(queries, judgments)))
    && Isolated(rules, ById(passages), judgments, Es) && Isolated(rules, ById(passages), judgments, En)
    && StatsOk(rules, StatsOf(ById(passages), Pools(queries, judgments), Train), r.train)
    && StatsOk(rules, StatsOf(ById(passages), Pools(queries, judgments), Dev), r.dev)
  }

  ghost predicate PoolsAccepted(rules: Rules, passages: Passages, pools: seq<QueryPool>) {
    && (forall p <- pools :: PoolOk(rules, passages, p.query, p.pool))
    && WorldsDistinct(pools)
    && NoLeak(QueryEntries(rules, pools)) && NoLeak(PassageEntries(rules, passages, pools))
  }

  ghost function AllReferences(pools: seq<QueryPool>): multiset<string> {
    if pools == [] then multiset{} else AllReferences(pools[..|pools| - 1]) + References(pools[|pools| - 1].pool)
  }
}
