// The corpus validator with all its checks: what acceptance says about the text
// that a model sees.
module SelectorVisibility {
  import opened Unicode
  import opened Substrings
  import opened SelectorText
  import opened SelectorCorpus
  import opened SelectorCounting
  import opened SelectorRecords

  const PRODUCTION := Requirements(SplitRequirements(120, 30, 30, 30), SplitRequirements(32, 8, 8, 8))

  /** A corpus of production size has 152 queries and 912 passages, each judged once. */
  lemma ProductionSizes(t: Tables, queries: seq<Query>, passages: seq<Passage>, judgments: seq<Judgment>)
    requires Accepted(CorpusRules(t), queries, passages, judgments, PRODUCTION)
    ensures |queries| == 152 && |judgments| == |passages| == 912
  {
    AcceptedSizes(CorpusRules(t), queries, passages, judgments, PRODUCTION);
  }

  lemma ValidJudgment(t: Tables, queries: seq<Query>, passages: seq<Passage>, judgments: seq<Judgment>,
          r: Requirements, a: nat)
    requires Accepted(CorpusRules(t), queries, passages, judgments, r) && a < |judgments|
    ensures JudgmentIsValid(t, judgments[a], PassageFor(ById(passages), judgments[a]))
  {
    var rules := CorpusRules(t);
    assert judgments[a] in judgments;
    assert rules.judgment(judgments[a], PassageFor(ById(passages), judgments[a]));
  }

  /** The evidence of an accepted answer is a readable piece of its passage, cut between characters. */
  lemma AcceptedEvidence(t: Tables, queries: seq<Query>, passages: seq<Passage>, judgments: seq<Judgment>,
          r: Requirements, a: nat, span: Span)
    returns (i: nat, j: nat)
    requires Accepted(CorpusRules(t), queries, passages, judgments, r) && a < |judgments|
    requires span in judgments[a].evidence
    ensures judgments[a].role == Answer
    ensures CutsOut(t, PassageFor(ById(passages), judgments[a]).text, span, i, j)
  {
    var p := PassageFor(ById(passages), judgments[a]);
    ValidJudgment(t, queries, passages, judgments, r, a);
    OnlyAnswersHaveEvidence(t, judgments[a], p, p.text, span);
    i, j := EvidenceIsText(t, p.text, span);
  }

  // ----- worlds

  /** The name of a world tells its split. */
  lemma WorldTellsSplit(t: Tables, queries: seq<Query>, passages: seq<Passage>, judgments: seq<Judgment>,
          r: Requirements, a: nat)
    requires Accepted(CorpusRules(t), queries, passages, judgments, r) && a < |judgments|
    ensures judgments[a].split == Train <==> "train_" <= judgments[a].worldId
    ensures judgments[a].split == Dev <==> "dev_" <= judgments[a].worldId
  {
    ValidJudgment(t, queries, passages, judgments, r, a);
    assert "train_"[0] != "dev_"[0];
  }

  /** The texts that a model sees of a query and one of its passages. */
  predicate Shown(text: string, query: Query, p: Passage) {
    text == query.text || text == p.title || text == p.heading || text == p.text
  }

  lemma VisibleInPool(t: Tables, passages: Passages, p: QueryPool, judgment: Judgment, text: string)
    requires PoolOk(CorpusRules(t), passages, p.query, p.pool) && judgment in p.pool
    requires Shown(text, p.query, PassageFor(passages, judgment))
    ensures IsVisible(text, [p.query.id, judgment.worldId])
            || IsVisible(text, [p.query.id, judgment.passageId, judgment.worldId])
  {
    var rules := CorpusRules(t);
    assert judgment.worldId == p.pool[0].worldId;
    assert rules.visibleQuery(p.query, p.pool[0].worldId);
    assert JudgmentFits(rules, passages, p.query, p.pool[0], judgment);
    assert rules.visiblePassage(p.query, judgment, PassageFor(passages, judgment));
  }

  /** What a model sees names neither the query nor the world, and no word of it marks a split or a candidate. */
  lemma NothingGivesTheSplitAway(t: Tables, queries: seq<Query>, passages: seq<Passage>, judgments: seq<Judgment>,
          r: Requirements, a: nat, k: nat, text: string)
    requires Accepted(CorpusRules(t), queries, passages, judgments, r) && a < |judgments| && k < |queries|
    requires queries[k].id == judgments[a].queryId
    requires Shown(text, queries[k], PassageFor(ById(passages), judgments[a]))
    ensures NoWordIsMarker(text)
    ensures !Contains(Lower(text), Lower(queries[k].id)) && !Contains(Lower(text), Lower(judgments[a].worldId))
  {
    var pools := Pools(queries, judgments);
    assert HasQuery(queries, judgments[a].queryId) by { assert queries[k] in queries; }
    var i := PoolAt(queries, judgments, a);
    assert i == k;
    assert pools[k] in pools;
    VisibleInPool(t, ById(passages), pools[k], judgments[a], text);
    NamesNeither(text, queries[k].id, judgments[a].passageId, judgments[a].worldId);
  }

  lemma NamesNeither(text: string, query: string, passage: string, world: string)
    requires IsVisible(text, [query, world]) || IsVisible(text, [query, passage, world])
    ensures NoWordIsMarker(text) && !Contains(Lower(text), Lower(query)) && !Contains(Lower(text), Lower(world))
  {
    var two, three := [query, world], [query, passage, world];
    assert two[0] == query && two[1] == world && three[0] == query && three[2] == world;
    if IsVisible(text, two) {
      VisibleExactly(text, two);
    } else {
      VisibleExactly(text, three);
    }
  }

  /** A word that starts like a split's worlds is a marker. */
  lemma PrefixIsMarker(text: string, i: nat, split: Split) returns (j: nat)
    requires i < |text| && (i == 0 || !WordChar(text[i - 1])) && WorldPrefix(split) <= Lower(text)[i..]
    ensures IsWord(text, i, j) && IsMarker(Lower(text[i..j]))
  {
    var prefix := WorldPrefix(split);
    var n := EndOf(text[i..]);
    j := i + n;
    forall k | 0 <= k < |prefix| ensures WordChar(text[i..][k]) {
      assert prefix[k] == Lower(text)[i..][k];
    }
    assert n >= |prefix|;
    WordThere(text, i, n);
    PrefixKept(text, i, j, prefix);
  }

  lemma WordThere(text: string, i: nat, n: nat)
    requires i < |text| && (i == 0 || !WordChar(text[i - 1])) && EndsAt(text[i..], n) && n > 0
    ensures IsWord(text, i, i + n)
  {
    forall k | i <= k < i + n ensures WordChar(text[k]) {
      assert text[i..][k - i] == text[k];
    }
  }

  lemma PrefixKept(text: string, i: nat, j: nat, prefix: string)
    requires i <= j <= |text| && prefix <= Lower(text)[i..] && |prefix| <= j - i
    ensures prefix <= Lower(text[i..j])
  {
    forall k | 0 <= k < |prefix| ensures Lower(text[i..j])[k] == prefix[k] {
      assert Lower(text)[i..][k] == prefix[k];
    }
  }

  /** No world of the corpus is named at the start of a word, in any text that a model sees with any query. */
  lemma NoWorldIsNamed(t: Tables, queries: seq<Query>, passages: seq<Passage>, judgments: seq<Judgment>,
          r: Requirements, a: nat, k: nat, text: string, b: nat, i: nat)
    requires Accepted(CorpusRules(t), queries, passages, judgments, r) && a < |judgments| && k < |queries|
    requires queries[k].id == judgments[a].queryId
    requires Shown(text, queries[k], PassageFor(ById(passages), judgments[a]))
    requires b < |judgments| && i < |text| && (i == 0 || !WordChar(text[i - 1]))
    ensures !(judgments[b].worldId <= Lower(text)[i..])
  {
    NothingGivesTheSplitAway(t, queries, passages, judgments, r, a, k, text);
    ValidJudgment(t, queries, passages, judgments, r, b);
    if judgments[b].worldId <= Lower(text)[i..] {
      var j := PrefixIsMarker(text, i, judgments[b].split);
      assert false;
    }
  }
}
