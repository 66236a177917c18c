// The corpus validator with its real normal forms and templates: what
// acceptance says about the texts of the two splits.
module SelectorIsolation {
  import opened Unicode
  import opened SelectorText
  import opened SelectorTemplates
  import opened SelectorCorpus
  import opened SelectorCounting
  import opened SelectorRecords

  /** Queries of different splits differ in their lower-cased words. */
  lemma QueriesKeptApart(t: Tables, queries: seq<Query>, passages: seq<Passage>, judgments: seq<Judgment>,
          r: Requirements, i: nat, j: nat)
    requires Sound(t) && Accepted(CorpusRules(t), queries, passages, judgments, r)
    requires i < j < |queries|
    requires SplitOf(Pool(judgments, queries[i].id)) != SplitOf(Pool(judgments, queries[j].id))
    ensures LoweredWords(t, Words(t, queries[i].text)) != LoweredWords(t, Words(t, queries[j].text))
  {
    var entries := QueryEntries(CorpusRules(t), Pools(queries, judgments));
    assert entries[i].0 == NormalForm(t, queries[i].text) && entries[j].0 == NormalForm(t, queries[j].text);
    NormalFormsAgree(t, queries[i].text, queries[j].text);
  }

  /** Where the normal form of a judged passage is found among those of all pools. */
  lemma {:induction false} EntryOf(rules: Rules, passages: Passages, pools: seq<QueryPool>, k: nat, judgment: Judgment)
    returns (e: nat)
    requires k < |pools| && judgment in pools[k].pool
    ensures var entries := PassageEntries(rules, passages, pools);
            e < |entries|
            && entries[e] == (rules.normalizedPassage(PassageFor(passages, judgment)), SplitOf(pools[k].pool))
    decreases |pools|
  {
    var n := |pools| - 1;
    if k < n {
      e := EntryOf(rules, passages, pools[..n], k, judgment);
    } else {
      var i :| 0 <= i < |pools[n].pool| && pools[n].pool[i] == judgment;
      e := |PassageEntries(rules, passages, pools[..n])| + i;
    }
  }

  lemma EqualEntriesShareSplit(rules: Rules, passages: Passages, pools: seq<QueryPool>,
          i: nat, a: Judgment, j: nat, b: Judgment)
    requires NoLeak(PassageEntries(rules, passages, pools))
    requires i < |pools| && a in pools[i].pool && j < |pools| && b in pools[j].pool
    requires rules.normalizedPassage(PassageFor(passages, a)) == rules.normalizedPassage(PassageFor(passages, b))
    ensures SplitOf(pools[i].pool) == SplitOf(pools[j].pool)
  {
    var e := EntryOf(rules, passages, pools, i, a);
    var f := EntryOf(rules, passages, pools, j, b);
  }

  lemma SplitOfJudgment(rules: Rules, queries: seq<Query>, passages: seq<Passage>, judgments: seq<Judgment>,
          r: Requirements, a: nat) returns (i: nat)
    requires Accepted(rules, queries, passages, judgments, r) && a < |judgments|
    ensures var pools := Pools(queries, judgments);
            i < |pools| && judgments[a] in pools[i].pool && SplitOf(pools[i].pool) == judgments[a].split
  {
    assert judgments[a] in judgments;
    assert HasQuery(queries, judgments[a].queryId);
    i := PoolAt(queries, judgments, a);
    assert Pools(queries, judgments)[i] in Pools(queries, judgments);
  }

  /** Passages judged in different splits differ in the lower-cased words of what the model sees of them. */
  lemma PassagesKeptApart(t: Tables, queries: seq<Query>, passages: seq<Passage>,
          judgments: seq<Judgment>, r: Requirements, a: nat, b: nat)
    requires Sound(t) && Accepted(CorpusRules(t), queries, passages, judgments, r)
    requires a < |judgments| && b < |judgments| && judgments[a].split != judgments[b].split
    ensures var p, q := PassageFor(ById(passages), judgments[a]), PassageFor(ById(passages), judgments[b]);
            LoweredWords(t, Words(t, ModelInput(t, p))) != LoweredWords(t, Words(t, ModelInput(t, q)))
  {
    var texts, byId, pools := CorpusRules(t), ById(passages), Pools(queries, judgments);
    var i := SplitOfJudgment(texts, queries, passages, judgments, r, a);
    var j := SplitOfJudgment(texts, queries, passages, judgments, r, b);
    var p, q := PassageFor(byId, judgments[a]), PassageFor(byId, judgments[b]);
    if texts.normalizedPassage(p) == texts.normalizedPassage(q) {
      EqualEntriesShareSplit(texts, byId, pools, i, judgments[a], j, judgments[b]);
    }
    NormalFormsAgree(t, ModelInput(t, p), ModelInput(t, q));
  }

  lemma {:induction false} InGroup(passages: Passages, judgments: seq<Judgment>, i: nat)
    requires i < |judgments|
    ensures var p := PassageFor(passages, judgments[i]); p in Group(passages, judgments, judgments[i].split, p.language)
  {
    var n := |judgments| - 1;
    if i < n {
      InGroup(passages, judgments[..n], i);
    }
  }

  lemma NoOverlap(t: Tables, byId: Passages, judgments: seq<Judgment>, a: nat, b: nat)
    requires Isolated(CorpusRules(t), byId, judgments, Es) && Isolated(CorpusRules(t), byId, judgments, En)
    requires a < |judgments| && b < |judgments| && judgments[a].split == Train && judgments[b].split == Dev
    requires PassageFor(byId, judgments[a]).language == PassageFor(byId, judgments[b]).language
    ensures !TemplatesOverlap(Template(t, PassageFor(byId, judgments[a]).text),
                              Template(t, PassageFor(byId, judgments[b]).text))
  {
    var p, q := PassageFor(byId, judgments[a]), PassageFor(byId, judgments[b]);
    InGroup(byId, judgments, a);
    InGroup(byId, judgments, b);
    assert Isolated(CorpusRules(t), byId, judgments, p.language);
    assert !CorpusRules(t).overlap(p, q);
  }

  /**
   * No dev passage is a train passage of the same language with names and values
   * exchanged, at any number of places, unless their common template is too short
   * to compare.
   */
  lemma TemplatesKeptApart(t: Tables, queries: seq<Query>, passages: seq<Passage>,
          judgments: seq<Judgment>, r: Requirements,
                           a: nat, b: nat, versions: seq<string>)
    requires Accepted(CorpusRules(t), queries, passages, judgments, r)
    requires a < |judgments| && b < |judgments| && judgments[a].split == Train && judgments[b].split == Dev
    requires PassageFor(ById(passages), judgments[a]).language == PassageFor(ById(passages), judgments[b]).language
    requires Rewriting(t, versions) && versions[0] == PassageFor(ById(passages), judgments[a]).text
    requires versions[|versions| - 1] == PassageFor(ById(passages), judgments[b]).text
    ensures |Template(t, versions[0])| < 3
  {
    NoOverlap(t, ById(passages), judgments, a, b);
    ShortTemplate(t, versions);
  }

  lemma ShortTemplate(t: Tables, versions: seq<string>)
    requires Rewriting(t, versions)
    requires !TemplatesOverlap(Template(t, versions[0]), Template(t, versions[|versions| - 1]))
    ensures |Template(t, versions[0])| < 3
  {
    RewritingIsReported(t, versions);
  }
}
