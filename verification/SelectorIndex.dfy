// `validate_query_pool`: the maps and counters that one pass over the queries
// keeps, and what they stand for.
module SelectorIndex {
  import opened Wrappers
  import opened SelectorText
  import opened SelectorCorpus

  datatype Index = Index(
    references: map<string, nat>, worlds: set<string>,
    queriesSeen: Observed, passagesSeen: Observed, train: Stats, dev: Stats)

  const EMPTY := Index(map[], {}, map[], map[], NO_STATS, NO_STATS)

  function AddReference(references: map<string, nat>, id: string): map<string, nat> {
    references[id := (if id in references then references[id] else 0) + 1]
  }

  function AddReferences(references: map<string, nat>, pool: seq<Judgment>): map<string, nat> {
    if pool == [] then references
    else AddReference(AddReferences(references, pool[..|pool| - 1]), pool[|pool| - 1].passageId)
  }

  predicate CanAdd(rules: Rules, passages: Passages, index: Index, p: QueryPool) {
    && PoolOk(rules, passages, p.query, p.pool)
    && WorldOf(p.pool) !in index.worlds
    && Observe(index.queriesSeen, rules.normalizedQuery(p.query), SplitOf(p.pool)).Some?
    && ObserveAll(index.passagesSeen, PoolEntries(rules, passages, p.pool)).Some?
  }

  function Added(rules: Rules, passages: Passages, index: Index, p: QueryPool): Index
    requires CanAdd(rules, passages, index, p)
  {
    Index(
      AddReferences(index.references, p.pool),
      index.worlds + {WorldOf(p.pool)},
      Observe(index.queriesSeen, rules.normalizedQuery(p.query), SplitOf(p.pool)).value,
      ObserveAll(index.passagesSeen, PoolEntries(rules, passages, p.pool)).value,
      if SplitOf(p.pool).Train? then AddPool(index.train, passages, p.query, p.pool) else index.train,
      if SplitOf(p.pool).Dev? then AddPool(index.dev, passages, p.query, p.pool) else index.dev)
  }

  // ----- the method

  lemma ObserveMore(observed: Observed, entries: seq<(string, Split)>, i: nat)
    requires i < |entries|
    ensures ObserveAll(observed, entries[..i + 1]) ==
              match ObserveAll(observed, entries[..i])
              case None => None
              case Some(o) => Observe(o, entries[i].0, entries[i].1)
  {
    assert entries[..i + 1][..i] == entries[..i];
  }

  lemma {:induction false} ObserveStuck(observed: Observed, entries: seq<(string, Split)>, i: nat)
    requires i <= |entries| && ObserveAll(observed, entries[..i]).None?
    ensures ObserveAll(observed, entries).None?
    decreases |entries|
  {
    if i < |entries| {
      var front := entries[..|entries| - 1];
      assert front[..i] == entries[..i];
      ObserveStuck(observed, front, i);
    } else {
      assert entries[..i] == entries;
    }
  }

  /** Every judgment of the pool fits, and no passage of it leaks across splits. */
  ghost predicate Visitable(rules: Rules, passages: Passages, seen: Observed, p: QueryPool) {
    && p.pool != []
    && AllFit(rules, passages, p.query, p.pool)
    && ObserveAll(seen, PoolEntries(rules, passages, p.pool)).Some?
  }

  datatype Tally = Tally(references: map<string, nat>, seen: Observed, answers: nat, supports: nat, negatives: nat)

  /** What the loop over a pool has done after `i` judgments, from the maps it found. */
  ghost predicate Visited(rules: Rules, passages: Passages, before: Tally, p: QueryPool, i: nat, now: Tally) {
    && i <= |p.pool|
    && (forall k :: 0 <= k < i ==> JudgmentFits(rules, passages, p.query, p.pool[0], p.pool[k]))
    && now.references == AddReferences(before.references, p.pool[..i])
    && ObserveAll(before.seen, PoolEntries(rules, passages, p.pool)[..i]) == Some(now.seen)
    && now.answers == RoleCount(p.pool[..i], Answer)
    && now.supports == RoleCount(p.pool[..i], Support)
    && now.negatives == RoleCount(p.pool[..i], HardNegative)
  }

  function AddRole(now: Tally, role: Role): Tally {
    match role
    case Answer => now.(answers := now.answers + 1)
    case Support => now.(supports := now.supports + 1)
    case HardNegative => now.(negatives := now.negatives + 1)
  }

  lemma VisitOne(rules: Rules, passages: Passages, before: Tally, p: QueryPool, i: nat, now: Tally)
    requires i < |p.pool| && Visited(rules, passages, before, p, i, now)
    requires JudgmentFits(rules, passages, p.query, p.pool[0], p.pool[i])
    ensures var seen := Observe(now.seen, rules.normalizedPassage(PassageFor(passages, p.pool[i])), SplitOf(p.pool));
            if seen.None? then !Visitable(rules, passages, before.seen, p)
            else Visited(rules, passages, before, p, i + 1,
                         AddRole(now.(references := AddReference(now.references, p.pool[i].passageId),
                                      seen := seen.value),
                                 p.pool[i].role))
  {
    var entries := PoolEntries(rules, passages, p.pool);
    ObserveMore(before.seen, entries, i);
    assert p.pool[..i + 1][..i] == p.pool[..i];
    if ObserveAll(before.seen, entries[..i + 1]).None? {
      ObserveStuck(before.seen, entries, i + 1);
    }
  }

  class CorpusIndex {
    var references: map<string, nat>
    var worlds: set<string>
    var queriesSeen: Observed
    var passagesSeen: Observed
    var train: Stats
    var dev: Stats

    ghost function Value(): Index
      reads this
    {
      Index(references, worlds, queriesSeen, passagesSeen, train, dev)
    }

    constructor ()
      ensures Value() == EMPTY
    {
      references, worlds := map[], {};
      queriesSeen, passagesSeen := map[], map[];
      train, dev := NO_STATS, NO_STATS;
    }

    /** The loop over the judgments of a pool. */
    method VisitPool(rules: Rules, passages: Passages, query: Query, pool: seq<Judgment>)
      returns (answers: nat, supports: nat, negatives: nat, ok: bool)
      requires pool != []
      modifies this`references, this`passagesSeen
      ensures ok <==> Visitable(rules, passages, old(passagesSeen), QueryPool(query, pool))
      ensures ok ==> references == AddReferences(old(references), pool)
      ensures ok ==> ObserveAll(old(passagesSeen), PoolEntries(rules, passages, pool)) == Some(passagesSeen)
      ensures ok ==> answers == RoleCount(pool, Answer) && supports == RoleCount(pool, Support)
      ensures ok ==> negatives == RoleCount(pool, HardNegative)
    {
      ghost var before, p := Tally(references, passagesSeen, 0, 0, 0), QueryPool(query, pool);
      answers, supports, negatives, ok := 0, 0, 0, false;
      var first := PassageFor(passages, pool[0]);
      var i := 0;
      assert pool[..0] == [] && PoolEntries(rules, passages, pool)[..0] == [];
      while i < |pool|
        invariant Visited(rules, passages, before, p, i, Tally(references, passagesSeen, answers, supports, negatives))
      {
        var judgment := pool[i];
        var passage := PassageFor(passages, judgment);
        assert judgment in pool;
        if passage.language != first.language || passage.title != first.title || passage.heading != first.heading {
          return;
        }
        if !rules.visiblePassage(query, judgment, passage) {
          return;
        }
        VisitOne(rules, passages, before, p, i, Tally(references, passagesSeen, answers, supports, negatives));
        references := AddReference(references, judgment.passageId);
        var seen := Observe(passagesSeen, rules.normalizedPassage(passage), pool[0].split);
        if seen.None? {
          return;
        }
        passagesSeen := seen.value;
        match judgment.role {
          case Answer => answers := answers + 1;
          case Support => supports := supports + 1;
          case HardNegative => negatives := negatives + 1;
        }
        i := i + 1;
      }
      assert pool[..i] == pool && PoolEntries(rules, passages, pool)[..i] == PoolEntries(rules, passages, pool);
      ok := true;
    }

    /** The statistics of one more pool. */
    method UpdateStats(stats: Stats, passages: Passages, query: Query, pool: seq<Judgment>, answers: nat)
      returns (r: Stats)
      requires answers == RoleCount(pool, Answer)
      ensures r == AddPool(stats, passages, query, pool)
    {
      var direction := DirectionOf(passages, query, pool);
      var tags, disclosures, forbidden := stats.tags, stats.disclosures, stats.forbiddenAnswers;
      var i := 0;
      while i < |pool|
        invariant 0 <= i <= |pool|
        invariant tags == stats.tags + TagsOf(pool[..i]) && disclosures == stats.disclosures + DisclosuresOf(pool[..i])
        invariant forbidden == stats.forbiddenAnswers + ForbiddenCount(pool[..i])
      {
        assert pool[..i + 1][..i] == pool[..i];
        tags := tags + TagSet(pool[i].tags);
        disclosures := disclosures + {pool[i].disclosure};
        if pool[i].role.Answer? && pool[i].disclosure.Forbidden? {
          forbidden := forbidden + 1;
        }
        i := i + 1;
      }
      assert pool[..i] == pool;
      r := Stats(stats.queries + 1,
                 stats.noAnswer + (if answers == 0 then 1 else 0), stats.multiAnswer + (if answers >= 2 then 1 else 0),
                 stats.directions[direction := Get(stats.directions, direction) + 1], tags, disclosures, forbidden);
    }

    /** Accepts one query's pool exactly when it is well made and clashes with nothing seen before. */
    method Add(rules: Rules, passages: Passages, query: Query, pool: seq<Judgment>) returns (ok: bool)
      modifies this
      ensures ok <==> CanAdd(rules, passages, old(Value()), QueryPool(query, pool))
      ensures ok ==> Value() == Added(rules, passages, old(Value()), QueryPool(query, pool))
    {
      if |pool| != JUDGMENTS_PER_QUERY {
        return false;
      }
      var split, world := pool[0].split, pool[0].worldId;
      if !OneWorld(pool) {
        return false;
      }
      if world in worlds {
        return false;
      }
      worlds := worlds + {world};
      if !rules.visibleQuery(query, world) {
        return false;
      }
      var seen := Observe(queriesSeen, rules.normalizedQuery(query), split);
      if seen.None? {
        return false;
      }
      queriesSeen := seen.value;
      var answers, supports, negatives, visited := VisitPool(rules, passages, query, pool);
      if !visited {
        return false;
      }
      if split.Train? {
        train := UpdateStats(train, passages, query, pool, answers);
      } else {
        dev := UpdateStats(dev, passages, query, pool, answers);
      }
      if answers == 0 {
        ok := supports == 0 && negatives >= 4;
      } else {
        ok := negatives >= 3;
      }
    }
  }
}
