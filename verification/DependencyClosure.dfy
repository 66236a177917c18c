// `dependency_closure`: the packages a root distributes, over the dependency
// graph reported by Cargo.
module DependencyClosure {
  import opened Wrappers

  /** `kinds` lists the kinds of a dependency; a normal dependency has kind `None`. */
  datatype Dependency = Dependency(pkg: string, kinds: seq<Option<string>>)

  type Graph = map<string, seq<Dependency>>

  predicate Distributed(dependency: Dependency) {
    dependency.kinds == [] || exists i :: 0 <= i < |dependency.kinds| && dependency.kinds[i] != Some("dev")
  }

  /** What is not followed are dependencies for development alone. */
  lemma DevelopmentAlone(dependency: Dependency)
    ensures !Distributed(dependency)
            <==> dependency.kinds != [] && forall kind <- dependency.kinds :: kind.Some? && kind.value == "dev"
  {
    if forall kind <- dependency.kinds :: kind.Some? && kind.value == "dev" {
      forall i | 0 <= i < |dependency.kinds| ensures dependency.kinds[i] == Some("dev") {
        assert dependency.kinds[i] in dependency.kinds;
      }
    }
  }

  ghost predicate Edge(graph: Graph, from: string, to: string) {
    from in graph && exists i :: 0 <= i < |graph[from]| && graph[from][i].pkg == to && Distributed(graph[from][i])
  }

  ghost predicate IsPath(graph: Graph, path: seq<string>) {
    path != [] && forall i :: 0 <= i < |path| - 1 ==> Edge(graph, path[i], path[i + 1])
  }

  ghost predicate Connects(graph: Graph, path: seq<string>, from: string, to: string) {
    IsPath(graph, path) && path[0] == from && path[|path| - 1] == to
  }

  ghost predicate Reachable(graph: Graph, from: string, to: string) {
    exists path :: Connects(graph, path, from, to)
  }

  lemma ReachesItself(graph: Graph, root: string)
    ensures Reachable(graph, root, root)
  {
    assert Connects(graph, [root], root, root);
  }

  lemma ReachesFurther(graph: Graph, root: string, from: string, to: string)
    requires Reachable(graph, root, from) && Edge(graph, from, to)
    ensures Reachable(graph, root, to)
  {
    var path :| Connects(graph, path, root, from);
    assert Connects(graph, path + [to], root, to);
  }

  /** A set that holds the root and is closed under edges holds everything reachable. */
  lemma {:induction false} ClosedHoldsPath(graph: Graph, closed: set<string>, path: seq<string>)
    requires IsPath(graph, path) && path[0] in closed
    requires forall from, to :: from in closed && Edge(graph, from, to) ==> to in closed
    ensures path[|path| - 1] in closed
  {
    if |path| > 1 {
      assert Edge(graph, path[0], path[1]);
      forall i | 0 <= i < |path[1..]| - 1
        ensures Edge(graph, path[1..][i], path[1..][i + 1])
      {
        assert Edge(graph, path[i + 1], path[i + 2]);
      }
      ClosedHoldsPath(graph, closed, path[1..]);
    }
  }

  /** Every name the graph mentions; the search never leaves it. */
  ghost function Names(graph: Graph, root: string): set<string> {
    {root} + graph.Keys + set from, i | from in graph && 0 <= i < |graph[from]| :: graph[from][i].pkg
  }

  /** The targets of the distributed dependencies, in order. */
  function Targets(deps: seq<Dependency>): (r: seq<string>)
    ensures forall to :: to in r <==> exists i :: 0 <= i < |deps| && deps[i].pkg == to && Distributed(deps[i])
  {
    if deps == [] then []
    else
      var n := |deps| - 1;
      assert deps == deps[..n] + [deps[n]];
      Targets(deps[..n]) + if Distributed(deps[n]) then [deps[n].pkg] else []
  }

  /** The search state: everything seen is reachable, and every edge out of a selected name is accounted for. */
  ghost predicate Explored(graph: Graph, root: string, selected: set<string>, pending: seq<string>) {
    && selected <= Names(graph, root)
    && (forall id <- pending :: id in Names(graph, root))
    && (root in selected || root in pending)
    && (forall id <- selected :: id in graph && Reachable(graph, root, id))
    && (forall id <- pending :: Reachable(graph, root, id))
    && (forall from, to :: from in selected && Edge(graph, from, to) ==> to in selected || to in pending)
  }

  lemma SkipSelected(graph: Graph, root: string, selected: set<string>, pending: seq<string>)
    requires pending != [] && pending[0] in selected && Explored(graph, root, selected, pending)
    ensures Explored(graph, root, selected, pending[1..])
  {
    assert forall id :: id in pending <==> id == pending[0] || id in pending[1..];
  }

  lemma Select(graph: Graph, root: string, selected: set<string>, pending: seq<string>)
    requires pending != [] && pending[0] !in selected && pending[0] in graph
    requires Explored(graph, root, selected, pending)
    ensures Explored(graph, root, selected + {pending[0]}, pending[1..] + Targets(graph[pending[0]]))
    ensures |Names(graph, root) - (selected + {pending[0]})| < |Names(graph, root) - selected|
  {
    var id, targets := pending[0], Targets(graph[pending[0]]);
    assert forall other :: other in pending <==> other == id || other in pending[1..];
    forall to | to in targets
      ensures to in Names(graph, root) && Reachable(graph, root, to)
    {
      assert Edge(graph, id, to);
      ReachesFurther(graph, root, id, to);
    }
    assert forall to :: Edge(graph, id, to) ==> to in targets;
    assert Names(graph, root) - selected == (Names(graph, root) - (selected + {id})) + {id};
  }

  /** With nothing pending, the selected names are the reachable ones. */
  lemma Finished(graph: Graph, root: string, selected: set<string>)
    requires Explored(graph, root, selected, [])
    ensures forall id :: id in selected <==> Reachable(graph, root, id)
  {
    forall id | Reachable(graph, root, id)
      ensures id in selected
    {
      var path :| Connects(graph, path, root, id);
      ClosedHoldsPath(graph, selected, path);
    }
  }

  /** The inner loop: queue the targets of the distributed dependencies. */
  method PushDistributed(pending: seq<string>, deps: seq<Dependency>) returns (r: seq<string>)
    ensures r == pending + Targets(deps)
  {
    r := pending;
    var i := 0;
    while i < |deps|
      invariant 0 <= i <= |deps| && r == pending + Targets(deps[..i])
    {
      assert deps[..i + 1][..i] == deps[..i];
      if Distributed(deps[i]) {
        r := r + [deps[i].pkg];
      }
      i := i + 1;
    }
    assert deps[..i] == deps;
  }

  /**
   * Collects exactly the packages reachable from the root over distributed
   * dependencies, and fails exactly when one of them has no node. Cycles do not
   * matter: each turn selects a new name or shortens the queue.
   */
  method Closure(root: string, nodes: Graph) returns (r: Result<set<string>, string>)
    ensures r.Ok? ==> forall id :: id in r.value <==> Reachable(nodes, root, id)
    ensures r.Err? ==> Reachable(nodes, root, r.error) && r.error !in nodes
    ensures r.Ok? <==> forall id :: Reachable(nodes, root, id) ==> id in nodes
  {
    var selected: set<string> := {};
    var pending := [root];
    ReachesItself(nodes, root);
    while pending != []
      invariant Explored(nodes, root, selected, pending)
      decreases |Names(nodes, root) - selected|, |pending|
    {
      var id := pending[0];
      if id in selected {
        SkipSelected(nodes, root, selected, pending);
        pending := pending[1..];
        continue;
      }
      if id !in nodes {
        assert id in pending;
        return Err(id);
      }
      Select(nodes, root, selected, pending);
      selected := selected + {id};
      pending := PushDistributed(pending[1..], nodes[id]);
    }
    Finished(nodes, root, selected);
    return Ok(selected);
  }
}
