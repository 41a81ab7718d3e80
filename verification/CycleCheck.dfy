/** The depth-first search that validates a migration graph. */
module CycleCheck {
  import opened MigrationGraph

  // ---------------------------------------------------------------- Adjacency lists

  /** The targets of the edges leaving `u`, in edge order and with repetitions. */
  function Succs(edges: seq<Edge>, u: int): seq<int> {
    if edges == [] then []
    else
      var e := edges[|edges| - 1];
      Succs(edges[..|edges| - 1], u) + if e.from == u then [e.to] else []
  }

  lemma {:induction false} SuccsAreEdges(edges: seq<Edge>, u: int, v: int)
    ensures v in Succs(edges, u) <==> Edge(u, v) in edges
    decreases |edges|
  {
    if edges != [] {
      SuccsAreEdges(edges[..|edges| - 1], u, v);
      assert edges == edges[..|edges| - 1] + [edges[|edges| - 1]];
    }
  }

  /** Reading a Go map of slices: an absent key reads as the empty slice. */
  function Neighbors(adj: map<int, seq<int>>, u: int): seq<int> {
    if u in adj then adj[u] else []
  }

  ghost predicate Adjacency(edges: seq<Edge>, adj: map<int, seq<int>>) {
    forall u :: Neighbors(adj, u) == Succs(edges, u)
  }

  method BuildAdjacency(edges: seq<Edge>) returns (adj: map<int, seq<int>>)
    ensures Adjacency(edges, adj)
  {
    adj := map[];
    for i := 0 to |edges|
      invariant Adjacency(edges[..i], adj)
    {
      var e := edges[i];
      ghost var before := adj;
      adj := adj[e.from := Neighbors(adj, e.from) + [e.to]];
      assert edges[..i + 1][..i] == edges[..i] && edges[..i + 1][i] == e;
      forall u
        ensures Neighbors(adj, u) == Succs(edges[..i + 1], u)
      {
        assert Neighbors(before, u) == Succs(edges[..i], u);
      }
    }
    assert edges[..|edges|] == edges;
  }

  // ---------------------------------------------------------------- Finishing order

  /** Every listed vertex is listed after all its successors. */
  ghost predicate Finished(edges: seq<Edge>, done: seq<int>) {
    && Distinct(done)
    && forall i, e :: 0 <= i < |done| && e in edges && e.from == done[i] ==> Precedes(done, e.to, i)
  }

  /** A path from a finished vertex stays among the vertices finished no later, and really moves. */
  lemma {:induction false} PathForward(edges: seq<Edge>, done: seq<int>, p: seq<int>, i: nat)
    requires Finished(edges, done) && Path(edges, p) && i < |done| && p[0] == done[i]
    ensures p[|p| - 1] in done[..i + 1]
    ensures |p| >= 2 ==> Precedes(done, p[|p| - 1], i)
    decreases |p|
  {
    if |p| >= 2 {
      PathStep(edges, p, 0);
      assert Precedes(done, p[1], i);
      var k :| 0 <= k < i && done[..i][k] == p[1];
      var q := p[1..];
      forall j | 0 <= j < |q| - 1
        ensures Edge(q[j], q[j + 1]) in edges
      {
        PathStep(edges, p, j + 1);
      }
      PathForward(edges, done, q, k);
      assert done[..k + 1] <= done[..i] <= done[..i + 1];
    } else {
      assert done[..i + 1][i] == p[0];
    }
  }

  lemma NoCycleBelowFinished(edges: seq<Edge>, done: seq<int>, v: int)
    requires Finished(edges, done) && v in done
    ensures !CycleBelow(edges, v)
  {
    forall q, p | Path(edges, p) && |p| >= 2 && Leads(edges, q, v, p[0])
      ensures p[0] != p[|p| - 1]
    {
      var i :| 0 <= i < |done| && done[i] == v;
      PathForward(edges, done, q, i);
      var k :| 0 <= k < i + 1 && done[..i + 1][k] == p[0];
      PathForward(edges, done, p, k);
      var j :| 0 <= j < k && done[..k][j] == p[|p| - 1];
      assert done[j] != done[k];
    }
  }

  // ---------------------------------------------------------------- The search

  /** `stack` is the chain of calls under way; the visited vertices are on it or finished. */
  ghost predicate Searching(edges: seq<Edge>, universe: set<int>, visited: set<int>, recStack: set<int>,
                            done: seq<int>, stack: seq<int>)
  {
    && Finished(edges, done)
    && recStack == Elems(stack) && recStack !! Elems(done)
    && visited == recStack + Elems(done) <= universe
    && (stack != [] ==> Path(edges, stack))
    && (forall e :: e in edges ==> e.to in universe)
  }

  /** Closing the current chain with an edge back into it. */
  lemma BackEdge(edges: seq<Edge>, stack: seq<int>, neighbor: int)
    requires Path(edges, stack) && Edge(stack[|stack| - 1], neighbor) in edges && neighbor in stack
    ensures CycleBelow(edges, stack[0])
  {
    var k :| 0 <= k < |stack| && stack[k] == neighbor;
    var p := stack[k..] + [neighbor];
    forall i | 0 <= i < |p| - 1
      ensures Edge(p[i], p[i + 1]) in edges
    {
      if i < |p| - 2 {
        PathStep(edges, stack, k + i);
      }
    }
    assert Cycle(edges, p);
    assert Leads(edges, stack[..k + 1], stack[0], neighbor);
  }

  lemma Enter(edges: seq<Edge>, universe: set<int>, visited: set<int>, recStack: set<int>,
              done: seq<int>, stack: seq<int>, node: int)
    requires Searching(edges, universe, visited, recStack, done, stack) && node !in visited && node in universe
    requires stack != [] ==> Edge(stack[|stack| - 1], node) in edges
    ensures Searching(edges, universe, visited + {node}, recStack + {node}, done, stack + [node])
  {
    assert Elems(stack + [node]) == Elems(stack) + {node};
  }

  lemma Leave(edges: seq<Edge>, universe: set<int>, visited: set<int>, recStack: set<int>,
              done: seq<int>, stack: seq<int>, node: int)
    requires Searching(edges, universe, visited, recStack, done, stack + [node]) && node !in stack
    requires Elems(Succs(edges, node)) <= Elems(done)
    ensures Searching(edges, universe, visited, recStack - {node}, done + [node], stack)
  {
    assert Elems(stack + [node]) == Elems(stack) + {node};
    assert node in Elems(stack + [node]) && node !in Elems(done);
    var after := done + [node];
    assert Elems(after) == Elems(done) + {node};
    forall i, e | 0 <= i < |after| && e in edges && e.from == after[i]
      ensures Precedes(after, e.to, i)
    {
      assert after[..i] == done[..i];
      if i < |done| {
        assert Precedes(done, e.to, i);
      } else {
        assert e == Edge(node, e.to) && done[..i] == done;
        SuccsAreEdges(edges, node, e.to);
        assert e.to in Elems(Succs(edges, node));
      }
    }
    if stack != [] {
      forall i | 0 <= i < |stack| - 1
        ensures Edge(stack[i], stack[i + 1]) in edges
      {
        PathStep(edges, stack + [node], i);
      }
    }
  }

  class CycleFinder {
    const edges: seq<Edge>
    const adj: map<int, seq<int>>
    ghost const universe: set<int>
    var visited: set<int>
    var recStack: set<int>
    ghost var done: seq<int>

    constructor (dag: Dag)
      ensures edges == dag.edges && Valid([]) && forall v :: v in dag.nodes ==> v in universe
    {
      var a := BuildAdjacency(dag.edges);
      edges, adj := dag.edges, a;
      universe := Elems(dag.nodes) + set e | e in dag.edges :: e.to;
      visited, recStack, done := {}, {}, [];
    }

    ghost predicate Valid(stack: seq<int>)
      reads this
    {
      Adjacency(edges, adj) && Searching(edges, universe, visited, recStack, done, stack)
    }

    method HasCycle(node: int, ghost stack: seq<int>) returns (found: bool)
      requires Valid(stack) && node !in visited && node in universe
      requires stack != [] ==> Edge(stack[|stack| - 1], node) in edges
      modifies this
      ensures found ==> CycleBelow(edges, (stack + [node])[0])
      ensures !found ==> Valid(stack) && recStack == old(recStack) && old(done) <= done && node in done
      decreases universe - visited, 0
    {
      ghost var chain := stack + [node];
      Enter(edges, universe, visited, recStack, done, stack, node);
      visited := visited + {node};
      recStack := recStack + {node};
      var succs := Neighbors(adj, node);
      for i := 0 to |succs|
        invariant Valid(chain) && old(done) <= done && recStack == old(recStack) + {node}
        invariant old(visited) + {node} <= visited
        invariant Elems(succs[..i]) <= Elems(done)
      {
        SuccsAreEdges(edges, node, succs[i]);
        found := Follow(succs[i], chain);
        if found {
          return;
        }
        assert succs[..i + 1] == succs[..i] + [succs[i]];
      }
      assert succs[..|succs|] == succs;
      Leave(edges, universe, visited, recStack, done, stack, node);
      recStack := recStack - {node};
      done := done + [node];
      return false;
    }

    /** The body of the loop over the neighbours. */
    method Follow(neighbor: int, ghost chain: seq<int>) returns (found: bool)
      requires Valid(chain) && chain != [] && Edge(chain[|chain| - 1], neighbor) in edges
      modifies this
      ensures found ==> CycleBelow(edges, chain[0])
      ensures !found ==> Valid(chain) && recStack == old(recStack) && old(done) <= done && neighbor in Elems(done)
      ensures !found ==> Elems(old(done)) <= Elems(done) && old(visited) <= visited
      decreases universe - visited, 1
    {
      if neighbor !in visited {
        found := HasCycle(neighbor, chain);
        assert (chain + [neighbor])[0] == chain[0];
      } else if neighbor in recStack {
        BackEdge(edges, chain, neighbor);
        found := true;
      } else {
        found := false;
      }
    }
  }

  /** An error means a cycle below some node, and there is an error whenever there is one. */
  method ValidateDag(dag: Dag) returns (failed: bool)
    ensures failed <==> CycleReachable(dag)
    ensures SourcesAreNodes(dag) ==> (failed <==> Cyclic(dag.edges))
  {
    if SourcesAreNodes(dag) {
      ReachableIsCyclic(dag);
    }
    var finder := new CycleFinder(dag);
    for i := 0 to |dag.nodes|
      invariant finder.Valid([]) && fresh(finder) && finder.edges == dag.edges
      invariant forall v :: v in dag.nodes ==> v in finder.universe
      invariant forall j :: 0 <= j < i ==> dag.nodes[j] in finder.done
    {
      var node := dag.nodes[i];
      if node !in finder.visited {
        ghost var before := finder.done;
        var b := finder.HasCycle(node, []);
        if b {
          assert ([] + [node])[0] == node;
          return true;
        }
        assert forall j :: 0 <= j < i ==> dag.nodes[j] in before;
      }
    }
    forall v | v in dag.nodes
      ensures !CycleBelow(dag.edges, v)
    {
      NoCycleBelowFinished(dag.edges, finder.done, v);
    }
    return false;
  }
}
