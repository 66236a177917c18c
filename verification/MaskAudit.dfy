// `MaskAudit`: the log of mask decisions shared by the two nodes of an evaluation,
// kept by question and taken once.
module MaskAudit {
  import opened Sequences
  import opened RetrievalStages
  import opened Unicode

  // ----- the order of a taken log

  function OfNode(calls: seq<Call>, node: Node): seq<Call> {
    if calls == [] then []
    else
      var last := calls[|calls| - 1];
      OfNode(calls[..|calls| - 1], node) + if last.node == node then [last] else []
  }

  predicate NodeLeq(a: Node, b: Node) { a == Origin || b == Peer }

  /** The stable sort by node, one call at a time behind those that are not greater. */
  function SortByNode(calls: seq<Call>): seq<Call> {
    if calls == [] then [] else InsertLast(SortByNode(calls[..|calls| - 1]), calls[|calls| - 1])
  }

  function InsertLast(sorted: seq<Call>, call: Call): seq<Call> {
    if sorted == [] || NodeLeq(sorted[|sorted| - 1].node, call.node) then sorted + [call]
    else InsertLast(sorted[..|sorted| - 1], call) + [sorted[|sorted| - 1]]
  }

  lemma {:induction false} InsertLastOrders(origin: seq<Call>, peer: seq<Call>, call: Call)
    requires forall c <- origin :: c.node == Origin
    requires forall c <- peer :: c.node == Peer
    ensures InsertLast(origin + peer, call)
            == if call.node == Origin then origin + [call] + peer else origin + peer + [call]
    decreases |peer|
  {
    if peer == [] {
      assert origin + peer == origin && origin + [call] + peer == origin + [call];
      assert origin != [] ==> origin[|origin| - 1] in origin;
    } else {
      var n := |peer| - 1;
      assert peer[n] in peer;
      InsertLastOrders(origin, peer[..n], call);
      assert (origin + peer)[..|origin| + n] == origin + peer[..n];
      Regroup(origin + [call], peer[..n], [peer[n]]);
      assert peer[..n] + [peer[n]] == peer;
    }
  }

  lemma {:induction false} OfNodeIs(calls: seq<Call>, node: Node)
    ensures forall c <- OfNode(calls, node) :: c.node == node && c in calls
  {
    if calls != [] {
      OfNodeIs(calls[..|calls| - 1], node);
    }
  }

  /** The calls of the origin in the order they were made, then those of the peer. */
  lemma {:induction false} SortedIsOriginThenPeer(calls: seq<Call>)
    ensures SortByNode(calls) == OfNode(calls, Origin) + OfNode(calls, Peer)
  {
    if calls != [] {
      var n := |calls| - 1;
      SortedIsOriginThenPeer(calls[..n]);
      OfNodeIs(calls[..n], Origin);
      OfNodeIs(calls[..n], Peer);
      InsertedBetween(OfNode(calls[..n], Origin), OfNode(calls[..n], Peer), calls[n]);
    }
  }

  lemma InsertedBetween(origin: seq<Call>, peer: seq<Call>, call: Call)
    requires forall c <- origin :: c.node == Origin
    requires forall c <- peer :: c.node == Peer
    ensures InsertLast(origin + peer, call)
         == (origin + if call.node == Origin then [call] else []) + (peer + if call.node == Peer then [call] else [])
  {
    InsertLastOrders(origin, peer, call);
    if call.node == Origin {
      assert peer + [] == peer;
    } else {
      assert origin + [] == origin;
      assert origin + peer + [call] == origin + (peer + [call]);
    }
  }

  // ----- whole runs

  datatype Op = Recorded(question: string, call: Call) | Taken(question: string)

  /** The calls recorded for a trimmed question since it was last taken. */
  function Pending(t: Tables, ops: seq<Op>, key: string): seq<Call> {
    if ops == [] then []
    else
      var before := Pending(t, ops[..|ops| - 1], key);
      match ops[|ops| - 1]
      case Recorded(question, call) => if Trim(t, question) == key then before + [call] else before
      case Taken(question) => if Trim(t, question) == key then [] else before
  }

  /** The operations about one question, recorded by one node or taken. */
  function Seen(t: Tables, ops: seq<Op>, key: string, node: Node): seq<Op> {
    if ops == [] then []
    else
      var op := ops[|ops| - 1];
      Seen(t, ops[..|ops| - 1], key, node)
        + if Trim(t, op.question) == key && (op.Recorded? ==> op.call.node == node) then [op] else []
  }

  lemma {:induction false} PendingOfNode(t: Tables, ops: seq<Op>, key: string, node: Node)
    ensures OfNode(Pending(t, ops, key), node) == Pending(t, Seen(t, ops, key, node), key)
  {
    if ops != [] {
      var n := |ops| - 1;
      var seen := Seen(t, ops[..n], key, node);
      PendingOfNode(t, ops[..n], key, node);
      assert seen + [] == seen;
      assert (seen + [ops[n]])[..|seen|] == seen;
      var before := Pending(t, ops[..n], key);
      if ops[n].Recorded? {
        assert (before + [ops[n].call])[..|before|] == before;
        assert OfNode(before, node) + [] == OfNode(before, node);
      }
    }
  }

  /**
   * However the two nodes interleave, and whatever happens to other questions, two
   * runs in which each node does the same for a question give the same log for it.
   */
  lemma TakenIgnoresInterleaving(t: Tables, a: seq<Op>, b: seq<Op>, key: string)
    requires Seen(t, a, key, Origin) == Seen(t, b, key, Origin)
    requires Seen(t, a, key, Peer) == Seen(t, b, key, Peer)
    ensures SortByNode(Pending(t, a, key)) == SortByNode(Pending(t, b, key))
  {
    PendingOfNode(t, a, key, Origin);
    PendingOfNode(t, b, key, Origin);
    PendingOfNode(t, a, key, Peer);
    PendingOfNode(t, b, key, Peer);
    SortedIsOriginThenPeer(Pending(t, a, key));
    SortedIsOriginThenPeer(Pending(t, b, key));
  }

  lemma PendingMore(t: Tables, ops: seq<Op>, op: Op, key: string)
    ensures Pending(t, ops + [op], key)
         == if Trim(t, op.question) != key then Pending(t, ops, key)
            else if op.Recorded? then Pending(t, ops, key) + [op.call]
            else []
  {
    assert (ops + [op])[..|ops|] == ops;
  }

  // ----- a complete audit

  lemma {:induction false} CountedByNode(calls: seq<Call>)
    ensures |calls| == |OfNode(calls, Origin)| + |OfNode(calls, Peer)|
    ensures Origin in NodesOf(calls) <==> OfNode(calls, Origin) != []
    ensures Peer in NodesOf(calls) <==> OfNode(calls, Peer) != []
  {
    if calls != [] {
      CountedByNode(calls[..|calls| - 1]);
      NodesMore(calls);
    }
  }

  lemma NodesMore(calls: seq<Call>)
    requires calls != []
    ensures NodesOf(calls) == NodesOf(calls[..|calls| - 1]) + {calls[|calls| - 1].node}
  {
    var n := |calls| - 1;
    assert calls == calls[..n] + [calls[n]];
  }

  function CountOf(nodes: set<Node>, node: Node): nat { if node in nodes then 1 else 0 }

  lemma SizeOfNodes(nodes: set<Node>)
    ensures |nodes| == CountOf(nodes, Origin) + CountOf(nodes, Peer)
  {
    forall node | node in nodes ensures node in {Origin, Peer} { assert node == Origin || node == Peer; }
    assert nodes == (if Origin in nodes then {Origin} else {}) + (if Peer in nodes then {Peer} else {});
  }

  /** An audit is complete exactly when every expected node made one call and no other made any. */
  lemma CompleteExactly(calls: seq<Call>, expected: set<Node>)
    ensures NodesOf(calls) == expected && |NodesOf(calls)| == |calls|
            <==> |OfNode(calls, Origin)| == CountOf(expected, Origin)
                 && |OfNode(calls, Peer)| == CountOf(expected, Peer)
  {
    var nodes := NodesOf(calls);
    CountedByNode(calls);
    SizeOfNodes(nodes);
    if (Origin in nodes <==> Origin in expected) && (Peer in nodes <==> Peer in expected) {
      forall node ensures node in nodes <==> node in expected { assert node == Origin || node == Peer; }
      assert nodes == expected;
    }
  }

  // ----- the shared log

  class Audit {
    const tables: Tables
    var calls: map<string, seq<Call>>
    ghost var history: seq<Op>

    /** The map holds, for every question, exactly what is pending for it. */
    ghost predicate Valid()
      reads this
    {
      forall key :: Entry(key) == Pending(tables, history, key)
    }

    function Entry(key: string): seq<Call>
      reads this`calls
    {
      if key in calls then calls[key] else []
    }

    constructor (tables: Tables)
      ensures Valid() && history == [] && this.tables == tables
    {
      this.tables := tables;
      calls := map[];
      history := [];
    }

    method Record(question: string, call: Call)
      requires Valid()
      modifies this
      ensures Valid() && history == old(history) + [Recorded(question, call)]
      ensures calls == old(calls)[Trim(tables, question) := old(Entry(Trim(tables, question))) + [call]]
    {
      var key := Trim(tables, question);
      ghost var op := Recorded(question, call);
      forall other ensures Pending(tables, history + [op], other)
                        == if other == key then Pending(tables, history, other) + [call]
                            else Pending(tables, history, other) {
        PendingMore(tables, history, op, other);
      }
      calls := calls[key := Entry(key) + [call]];
      history := history + [op];
    }

    /** Takes what is pending for a question, sorted by node, and forgets it. */
    method Take(question: string) returns (result: seq<Call>)
      requires Valid()
      modifies this
      ensures Valid() && history == old(history) + [Taken(question)]
      ensures result == SortByNode(Pending(tables, old(history), Trim(tables, question)))
      ensures calls == old(calls) - {Trim(tables, question)}
    {
      var key := Trim(tables, question);
      ghost var op: Op := Taken(question);
      result := SortByNode(Entry(key));
      forall other ensures Pending(tables, history + [op], other)
                        == if other == key then [] else Pending(tables, history, other) {
        PendingMore(tables, history, op, other);
      }
      calls := calls - {key};
      history := history + [op];
    }
  }
}
