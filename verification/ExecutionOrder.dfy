/** Building the migration graph and ordering it with Kahn's algorithm, smallest version first. */
module ExecutionOrder {
  import opened CycleCheck
  import opened MigrationGraph
  import opened Options
  import opened Ordering

  // ---------------------------------------------------------------- Building the graph

  datatype MigrationInfo = MigrationInfo(version: int, dependsOn: seq<int>)

  function EdgesOf(info: MigrationInfo): seq<Edge> {
    seq(|info.dependsOn|, k requires 0 <= k < |info.dependsOn| => Edge(info.dependsOn[k], info.version))
  }

  /** The declared dependencies, migration by migration, each as often as it is declared. */
  function DeclaredEdges(infos: seq<MigrationInfo>): seq<Edge> {
    if infos == [] then [] else DeclaredEdges(infos[..|infos| - 1]) + EdgesOf(infos[|infos| - 1])
  }

  lemma {:induction false} DeclaredEndAtNodes(infos: seq<MigrationInfo>, e: Edge)
    requires e in DeclaredEdges(infos)
    ensures e.to in VersionsOf(infos)
    decreases |infos|
  {
    var last := |infos| - 1;
    assert VersionsOf(infos) == VersionsOf(infos[..last]) + [infos[last].version];
    if e in DeclaredEdges(infos[..last]) {
      DeclaredEndAtNodes(infos[..last], e);
    }
  }

  /** There is an edge exactly from each version that some migration declares to depend on, to that migration. */
  lemma {:induction false} DeclaredExactly(infos: seq<MigrationInfo>, from: int, v: int)
    ensures Edge(from, v) in DeclaredEdges(infos)
            <==> exists info :: info in infos && info.version == v && from in info.dependsOn
    decreases |infos|
  {
    if infos != [] {
      var front, last := infos[..|infos| - 1], infos[|infos| - 1];
      DeclaredExactly(front, from, v);
      assert infos == front + [last];
      if last.version == v && from in last.dependsOn {
        var k :| 0 <= k < |last.dependsOn| && last.dependsOn[k] == from;
        assert EdgesOf(last)[k] == Edge(from, v);
      }
    }
  }

  ghost function VersionsOf(infos: seq<MigrationInfo>): seq<int> {
    seq(|infos|, i requires 0 <= i < |infos| => infos[i].version)
  }

  ghost predicate Chain(nodes: seq<int>, edges: seq<Edge>) {
    |edges| == (if nodes == [] then 0 else |nodes| - 1)
    && forall i :: 0 <= i < |edges| ==> edges[i] == Edge(nodes[i], nodes[i + 1])
  }

  lemma ChainEndsAtNodes(nodes: seq<int>, edges: seq<Edge>, e: Edge)
    requires Chain(nodes, edges) && e in edges
    ensures e.to in nodes
  {
    var k :| 0 <= k < |edges| && edges[k] == e;
    assert nodes[k + 1] == e.to;
  }

  method ChainOf(nodes: seq<int>) returns (edges: seq<Edge>)
    ensures Chain(nodes, edges)
  {
    edges := [];
    var i := 1;
    while i < |nodes|
      invariant 1 <= i && (nodes != [] ==> i <= |nodes|) && (nodes == [] ==> i == 1)
      invariant |edges| == i - 1
      invariant forall k :: 0 <= k < |edges| ==> edges[k] == Edge(nodes[k], nodes[k + 1])
    {
      edges := edges + [Edge(nodes[i - 1], nodes[i])];
      i := i + 1;
    }
  }

  /** `infos` comes sorted by version. Without any declared dependency the versions form a chain. */
  method BuildDag(infos: seq<MigrationInfo>) returns (dag: Dag)
    requires Sorted(VersionsOf(infos))
    ensures dag.nodes == VersionsOf(infos) && TargetsAreNodes(dag)
    ensures if DeclaredEdges(infos) != [] then dag.edges == DeclaredEdges(infos) else Chain(dag.nodes, dag.edges)
  {
    var nodes: seq<int>, edges: seq<Edge> := [], [];
    for i := 0 to |infos|
      invariant nodes == VersionsOf(infos)[..i]
      invariant edges == DeclaredEdges(infos[..i])
    {
      nodes := nodes + [infos[i].version];
      assert infos[..i + 1][..i] == infos[..i];
      var deps := infos[i].dependsOn;
      ghost var before := edges;
      for k := 0 to |deps|
        invariant edges == before + EdgesOf(infos[i])[..k]
      {
        edges := edges + [Edge(deps[k], infos[i].version)];
      }
    }
    assert infos[..|infos|] == infos;
    if |edges| == 0 {
      edges := ChainOf(nodes);
    }
    dag := Dag(nodes, edges);
    forall e | e in edges
      ensures e.to in nodes
    {
      if DeclaredEdges(infos) != [] {
        DeclaredEndAtNodes(infos, e);
      } else {
        ChainEndsAtNodes(nodes, edges, e);
      }
    }
  }

  // ---------------------------------------------------------------- In-degrees

  /** How many edges into `v` come from outside `done`. */
  function Count(edges: seq<Edge>, v: int, done: set<int>): nat {
    if edges == [] then 0
    else
      var e := edges[|edges| - 1];
      Count(edges[..|edges| - 1], v, done) + if e.to == v && e.from !in done then 1 else 0
  }

  lemma {:induction false} CountZero(edges: seq<Edge>, v: int, done: set<int>)
    ensures Count(edges, v, done) == 0 <==> forall e :: e in edges && e.to == v ==> e.from in done
    decreases |edges|
  {
    if edges != [] {
      CountZero(edges[..|edges| - 1], v, done);
      assert edges == edges[..|edges| - 1] + [edges[|edges| - 1]];
      assert edges[|edges| - 1] in edges;
    }
  }

  /** Processing `c` lowers the count of `v` by the number of times `v` is listed among its successors. */
  lemma {:induction false} CountShrinks(edges: seq<Edge>, v: int, done: set<int>, c: int)
    requires c !in done
    ensures Count(edges, v, done + {c}) + multiset(Succs(edges, c))[v] == Count(edges, v, done)
    decreases |edges|
  {
    if edges != [] {
      CountShrinks(edges[..|edges| - 1], v, done, c);
    }
  }

  ghost predicate Degrees(edges: seq<Edge>, keys: set<int>, done: set<int>, deg: map<int, int>) {
    deg.Keys == keys && forall v :: v in keys ==> deg[v] == Count(edges, v, done)
  }

  ghost function Targets(edges: seq<Edge>): set<int> {
    set e | e in edges :: e.to
  }

  ghost function AllVersions(dag: Dag): set<int> {
    Elems(dag.nodes) + Targets(dag.edges)
  }

  lemma OneMoreEdge(edges: seq<Edge>, i: nat)
    requires i < |edges|
    ensures Targets(edges[..i + 1]) == Targets(edges[..i]) + {edges[i].to}
    ensures forall v :: Count(edges[..i + 1], v, {}) == Count(edges[..i], v, {}) + if v == edges[i].to then 1 else 0
    ensures edges[i].to !in Targets(edges[..i]) ==> Count(edges[..i], edges[i].to, {}) == 0
  {
    assert edges[..i + 1] == edges[..i] + [edges[i]];
    assert edges[..i + 1][..i] == edges[..i];
    CountZero(edges[..i], edges[i].to, {});
  }

  method InDegrees(dag: Dag) returns (deg: map<int, int>)
    ensures Degrees(dag.edges, AllVersions(dag), {}, deg)
  {
    deg := map[];
    for i := 0 to |dag.nodes|
      invariant deg.Keys == Elems(dag.nodes[..i])
      invariant forall v :: v in deg ==> deg[v] == 0
    {
      deg := deg[dag.nodes[i] := 0];
      assert dag.nodes[..i + 1] == dag.nodes[..i] + [dag.nodes[i]];
    }
    assert dag.nodes[..|dag.nodes|] == dag.nodes;
    for i := 0 to |dag.edges|
      invariant deg.Keys == Elems(dag.nodes) + Targets(dag.edges[..i])
      invariant forall v :: v in deg ==> deg[v] == Count(dag.edges[..i], v, {})
    {
      var to := dag.edges[i].to;
      OneMoreEdge(dag.edges, i);
      deg := deg[to := (if to in deg then deg[to] else 0) + 1];
    }
    assert dag.edges[..|dag.edges|] == dag.edges;
  }

  // ---------------------------------------------------------------- The greedy order

  /** `v` is still to come and waits for nothing outside `t`. */
  ghost predicate Available(edges: seq<Edge>, keys: set<int>, t: seq<int>, v: int) {
    v in keys && v !in t && forall e :: e in edges && e.to == v ==> e.from in t
  }

  ghost predicate LeastAvailable(edges: seq<Edge>, keys: set<int>, order: seq<int>, i: nat)
    requires i < |order|
  {
    && Available(edges, keys, order[..i], order[i])
    && forall v :: Available(edges, keys, order[..i], v) ==> order[i] <= v
  }

  ghost predicate Greedy(edges: seq<Edge>, keys: set<int>, order: seq<int>) {
    forall i :: 0 <= i < |order| ==> LeastAvailable(edges, keys, order, i)
  }

  /** The queue lists, once each, the versions that are ready. */
  ghost predicate Ready(edges: seq<Edge>, keys: set<int>, order: seq<int>, queue: seq<int>) {
    Distinct(queue) && forall v :: v in queue <==> Available(edges, keys, order, v)
  }

  lemma GreedyRespects(edges: seq<Edge>, keys: set<int>, order: seq<int>)
    requires Greedy(edges, keys, order)
    ensures RespectsEdges(edges, order) && Elems(order) <= keys
  {
    forall i, j | 0 <= i < j < |order|
      ensures order[i] != order[j]
    {
      assert LeastAvailable(edges, keys, order, j);
      assert order[..j][i] == order[i];
    }
    forall i, e | 0 <= i < |order| && e in edges && e.to == order[i]
      ensures Precedes(order, e.from, i)
    {
      assert LeastAvailable(edges, keys, order, i);
    }
    forall v | v in order
      ensures v in keys
    {
      var i :| 0 <= i < |order| && order[i] == v;
      assert LeastAvailable(edges, keys, order, i);
    }
  }

  lemma GreedyExtends(edges: seq<Edge>, keys: set<int>, order: seq<int>, v: int)
    requires Greedy(edges, keys, order) && Available(edges, keys, order, v)
    requires forall u :: Available(edges, keys, order, u) ==> v <= u
    ensures Greedy(edges, keys, order + [v])
  {
    var longer := order + [v];
    forall i | 0 <= i < |longer|
      ensures LeastAvailable(edges, keys, longer, i)
    {
      assert longer[..i] == order[..i];
      if i < |order| {
        assert LeastAvailable(edges, keys, order, i);
      } else {
        assert order[..i] == order;
      }
    }
  }

  /** If nothing is available although something is left, the rest is waiting for itself. */
  lemma StalledIsCyclic(dag: Dag, order: seq<int>, v: int)
    requires SourcesAreNodes(dag) && v in dag.nodes && v !in order
    requires forall v :: !Available(dag.edges, Elems(dag.nodes), order, v)
    ensures Cyclic(dag.edges)
  {
    var left := Elems(dag.nodes) - Elems(order);
    forall v | v in left
      ensures exists u :: u in left && Edge(u, v) in dag.edges
    {
      assert !Available(dag.edges, Elems(dag.nodes), order, v);
      var e :| e in dag.edges && e.to == v && e.from !in order;
      assert e.from in left && e == Edge(e.from, v);
    }
    NoSourceImpliesCycle(dag.edges, left, v);
  }

  /** A stalled greedy order has listed everything, unless there is a cycle or a missing dependency. */
  lemma GreedyCompletes(dag: Dag, order: seq<int>)
    requires Greedy(dag.edges, Elems(dag.nodes), order) && SourcesAreNodes(dag) && !Cyclic(dag.edges)
    requires forall v :: !Available(dag.edges, Elems(dag.nodes), order, v)
    ensures Elems(order) == Elems(dag.nodes)
  {
    GreedyRespects(dag.edges, Elems(dag.nodes), order);
    forall v | v in dag.nodes
      ensures v in order
    {
      if v !in order {
        StalledIsCyclic(dag, order, v);
      }
    }
  }

  /** No topological order is lexicographically smaller than a greedy one. */
  lemma GreedyIsLeast(dag: Dag, order: seq<int>, t: seq<int>)
    requires Greedy(dag.edges, Elems(dag.nodes), order) && Topological(dag, order) && Topological(dag, t)
    ensures order == t || (exists i: nat :: FirstDifference(order, t, i) && order[i] < t[i])
  {
    DistinctCount(order);
    DistinctCount(t);
    Differ(order, t);
    if exists i: nat :: FirstDifference(order, t, i) {
      var i: nat :| FirstDifference(order, t, i);
      assert t[i] in Elems(t);
      forall e | e in dag.edges && e.to == t[i]
        ensures e.from in order[..i]
      {
        assert Precedes(t, e.from, i);
      }
      assert t[i] !in t[..i];
      assert Available(dag.edges, Elems(dag.nodes), order[..i], t[i]);
      assert LeastAvailable(dag.edges, Elems(dag.nodes), order, i);
    }
  }

  // ---------------------------------------------------------------- Kahn's algorithm

  /** The counters while the successors of `current` are being relaxed, `k` of them done. */
  ghost predicate Counters(edges: seq<Edge>, keys: set<int>, order: seq<int>, current: int, k: nat,
                           deg: map<int, int>)
  {
    && deg.Keys == keys
    && k <= |Succs(edges, current)|
    && forall v :: v in keys ==>
          deg[v] == Count(edges, v, Elems(order)) - multiset(Succs(edges, current)[..k])[v]
  }

  /** The queue meanwhile: the versions whose counter has come down to zero. */
  ghost predicate Queued(keys: set<int>, order: seq<int>, current: int, deg: map<int, int>, queue: seq<int>)
    requires deg.Keys == keys
  {
    && Distinct(queue)
    && forall v :: v in queue <==> v in keys && v !in order && v != current && deg[v] == 0
  }

  /** The next successor has not been released yet: its counter is positive. */
  lemma SuccessorWaits(edges: seq<Edge>, keys: set<int>, order: seq<int>, current: int, k: nat, deg: map<int, int>)
    requires Counters(edges, keys, order, current, k, deg) && k < |Succs(edges, current)|
    requires RespectsEdges(edges, order) && Available(edges, keys, order, current)
    requires forall e :: e in edges ==> e.to in keys
    ensures var n := Succs(edges, current)[k];
            n in keys && deg[n] > 0 && n !in order && n != current
  {
    var succs := Succs(edges, current);
    var n := succs[k];
    SuccsAreEdges(edges, current, n);
    assert Edge(current, n).to in keys;
    CountShrinks(edges, n, Elems(order), current);
    assert succs == succs[..k] + [n] + succs[k + 1..];
  }

  lemma CountersStep(edges: seq<Edge>, keys: set<int>, order: seq<int>, current: int, k: nat, deg: map<int, int>)
    requires Counters(edges, keys, order, current, k, deg) && k < |Succs(edges, current)|
    requires Succs(edges, current)[k] in keys
    ensures var n := Succs(edges, current)[k];
            Counters(edges, keys, order, current, k + 1, deg[n := deg[n] - 1])
  {
    var succs := Succs(edges, current);
    var n := succs[k];
    var next := deg[n := deg[n] - 1];
    assert succs[..k + 1] == succs[..k] + [n];
    forall v | v in keys
      ensures next[v] == Count(edges, v, Elems(order)) - multiset(succs[..k + 1])[v]
    {
      assert deg[v] == Count(edges, v, Elems(order)) - multiset(succs[..k])[v];
    }
  }

  lemma QueueStep(keys: set<int>, order: seq<int>, current: int, deg: map<int, int>, queue: seq<int>, n: int)
    requires deg.Keys == keys && Queued(keys, order, current, deg, queue)
    requires n in keys && deg[n] > 0 && n !in order && n != current
    ensures deg[n := deg[n] - 1].Keys == keys
    ensures Queued(keys, order, current, deg[n := deg[n] - 1], if deg[n] == 1 then queue + [n] else queue)
  {
    assert deg[n := deg[n] - 1].Keys == keys;
    assert n !in queue;
  }

  lemma CounterTellsReadiness(edges: seq<Edge>, keys: set<int>, order: seq<int>, queue: seq<int>, deg: map<int, int>)
    requires Degrees(edges, keys, Elems(order), deg) && Distinct(queue)
    requires forall v :: v in queue <==> v in keys && v !in order && deg[v] == 0
    ensures Ready(edges, keys, order, queue)
  {
    forall v
      ensures v in queue <==> Available(edges, keys, order, v)
    {
      CountZero(edges, v, Elems(order));
    }
  }

  lemma RelaxBegins(edges: seq<Edge>, keys: set<int>, order: seq<int>, current: int, deg: map<int, int>,
                    queue: seq<int>)
    requires Degrees(edges, keys, Elems(order), deg) && Distinct(queue)
    requires forall v :: v in queue <==> v != current && Available(edges, keys, order, v)
    ensures Counters(edges, keys, order, current, 0, deg) && Queued(keys, order, current, deg, queue)
  {
    assert Succs(edges, current)[..0] == [];
    forall v
      ensures v in queue <==> v in keys && v !in order && v != current && deg[v] == 0
    {
      CountZero(edges, v, Elems(order));
    }
  }

  lemma RelaxEnds(edges: seq<Edge>, keys: set<int>, order: seq<int>, current: int, deg: map<int, int>, queue: seq<int>)
    requires Counters(edges, keys, order, current, |Succs(edges, current)|, deg)
    requires Queued(keys, order, current, deg, queue)
    requires current !in order
    ensures Degrees(edges, keys, Elems(order + [current]), deg) && Ready(edges, keys, order + [current], queue)
  {
    var succs := Succs(edges, current);
    assert succs[..|succs|] == succs;
    forall v | v in keys
      ensures deg[v] == Count(edges, v, Elems(order) + {current})
    {
      CountShrinks(edges, v, Elems(order), current);
    }
    assert Elems(order + [current]) == Elems(order) + {current};
    CounterTellsReadiness(edges, keys, order + [current], queue, deg);
  }

  method Relax(edges: seq<Edge>, adj: map<int, seq<int>>, ghost keys: set<int>, ghost order: seq<int>, current: int,
               degrees: map<int, int>, rest: seq<int>)
    returns (deg: map<int, int>, queue: seq<int>)
    requires Adjacency(edges, adj) && Degrees(edges, keys, Elems(order), degrees)
    requires RespectsEdges(edges, order) && Available(edges, keys, order, current)
    requires Distinct(rest) && forall v :: v in rest <==> v != current && Available(edges, keys, order, v)
    requires forall e :: e in edges ==> e.to in keys
    ensures Degrees(edges, keys, Elems(order + [current]), deg) && Ready(edges, keys, order + [current], queue)
  {
    deg, queue := degrees, rest;
    RelaxBegins(edges, keys, order, current, deg, queue);
    var succs := Neighbors(adj, current);
    for k := 0 to |succs|
      invariant Counters(edges, keys, order, current, k, deg) && Queued(keys, order, current, deg, queue)
    {
      var neighbor := succs[k];
      SuccessorWaits(edges, keys, order, current, k, deg);
      CountersStep(edges, keys, order, current, k, deg);
      QueueStep(keys, order, current, deg, queue, neighbor);
      deg := deg[neighbor := deg[neighbor] - 1];
      if deg[neighbor] == 0 {
        queue := queue + [neighbor];
      }
    }
    RelaxEnds(edges, keys, order, current, deg, queue);
  }

  /** The Go map of counters is visited in an arbitrary order. */
  method InitialQueue(edges: seq<Edge>, keys: set<int>, deg: map<int, int>) returns (queue: seq<int>)
    requires Degrees(edges, keys, {}, deg)
    ensures Ready(edges, keys, [], queue)
  {
    queue := [];
    var todo := deg.Keys;
    while todo != {}
      invariant todo <= keys && Distinct(queue)
      invariant forall v :: v in queue <==> v in keys && v !in todo && deg[v] == 0
      decreases todo
    {
      ghost var w := Member(todo);
      var v :| v in todo;
      todo := todo - {v};
      if deg[v] == 0 {
        queue := queue + [v];
      }
    }
    assert Elems([]) == {};
    CounterTellsReadiness(edges, keys, [], queue, deg);
  }

  lemma SortedReady(edges: seq<Edge>, keys: set<int>, order: seq<int>, queue: seq<int>, sorted: seq<int>)
    requires Ready(edges, keys, order, queue) && Sorted(sorted) && multiset(sorted) == multiset(queue) && queue != []
    ensures sorted != [] && Ready(edges, keys, order, sorted)
    ensures Available(edges, keys, order, sorted[0])
    ensures forall u :: Available(edges, keys, order, u) ==> sorted[0] <= u
    ensures Distinct(sorted[1..])
    ensures forall v :: v in sorted[1..] <==> v != sorted[0] && Available(edges, keys, order, v)
  {
    assert |sorted| == |multiset(sorted)| == |multiset(queue)| == |queue|;
    forall v
      ensures v in sorted <==> v in queue
    {
      assert v in multiset(sorted) <==> v in multiset(queue);
    }
    assert Elems(sorted) == Elems(queue);
    DistinctCount(queue);
    CountDistinct(sorted);
    assert sorted[0] in sorted;
    assert sorted == [sorted[0]] + sorted[1..];
    forall u | Available(edges, keys, order, u)
      ensures sorted[0] <= u
    {
      var i :| 0 <= i < |sorted| && sorted[i] == u;
    }
  }

  /** A list as long as its set of members repeats nothing. */
  lemma {:induction false} CountDistinct(s: seq<int>)
    requires |Elems(s)| == |s|
    ensures Distinct(s)
    decreases |s|
  {
    if s != [] {
      assert Elems(s) == {s[0]} + Elems(s[1..]);
      ElemsBound(s[1..]);
      CountDistinct(s[1..]);
    }
  }

  lemma {:induction false} ElemsBound(s: seq<int>)
    ensures |Elems(s)| <= |s|
    decreases |s|
  {
    if s != [] {
      assert Elems(s) == {s[0]} + Elems(s[1..]);
      ElemsBound(s[1..]);
    }
  }

  /** The loop of GetExecutionOrder, after validation. */
  method Kahn(dag: Dag) returns (order: seq<int>)
    ensures Greedy(dag.edges, AllVersions(dag), order)
    ensures forall v :: !Available(dag.edges, AllVersions(dag), order, v)
  {
    ghost var keys := AllVersions(dag);
    var deg := InDegrees(dag);
    var adj := BuildAdjacency(dag.edges);
    var queue := InitialQueue(dag.edges, deg.Keys, deg);
    order := [];
    assert Elems(order) == {};
    while |queue| > 0
      invariant Greedy(dag.edges, keys, order)
      invariant Degrees(dag.edges, keys, Elems(order), deg) && Ready(dag.edges, keys, order, queue)
      decreases keys - Elems(order)
    {
      var sorted := SortAscending(queue);
      SortedReady(dag.edges, keys, order, queue, sorted);
      var current := sorted[0];
      GreedyRespects(dag.edges, keys, order);
      GreedyExtends(dag.edges, keys, order, current);
      ghost var before := order;
      deg, queue := Relax(dag.edges, adj, keys, order, current, deg, sorted[1..]);
      order := order + [current];
      assert Elems(order) == Elems(before) + {current};
    }
  }

  method GetExecutionOrder(dag: Dag) returns (result: Option<seq<int>>)
    // With distinct versions and edges that end at nodes, as BuildDag makes them, the order exists
    // exactly when no dependency is missing and there is no cycle, and it is the least one.
    ensures Distinct(dag.nodes) && TargetsAreNodes(dag) ==>
              (result.Some? <==> SourcesAreNodes(dag) && !Cyclic(dag.edges))
    ensures Distinct(dag.nodes) && TargetsAreNodes(dag) && result.Some? ==>
              Topological(dag, result.value)
              && forall t :: Topological(dag, t) ==> LexLeq(result.value, t)
    // Whatever the graph, an order that is returned respects every edge.
    ensures result.Some? ==> RespectsEdges(dag.edges, result.value) && !CycleReachable(dag)
  {
    var failed := ValidateDag(dag);
    if failed {
      if SourcesAreNodes(dag) {
        ReachableIsCyclic(dag);
      }
      return None;
    }
    var order := Kahn(dag);
    GreedyRespects(dag.edges, AllVersions(dag), order);
    if Distinct(dag.nodes) && TargetsAreNodes(dag) {
      WhenOrdered(dag, order);
    }
    if |order| != |dag.nodes| {
      return None;
    }
    return Some(order);
  }

  /** The length test at the end decides whether everything was listed. */
  lemma WhenOrdered(dag: Dag, order: seq<int>)
    requires Distinct(dag.nodes) && TargetsAreNodes(dag)
    requires Greedy(dag.edges, AllVersions(dag), order)
    requires forall v :: !Available(dag.edges, AllVersions(dag), order, v)
    ensures |order| == |dag.nodes| <==> SourcesAreNodes(dag) && !Cyclic(dag.edges)
    ensures |order| == |dag.nodes| ==>
              Topological(dag, order) && forall t :: Topological(dag, t) ==> LexLeq(order, t)
  {
    assert AllVersions(dag) == Elems(dag.nodes);
    GreedyRespects(dag.edges, Elems(dag.nodes), order);
    DistinctCount(dag.nodes);
    DistinctCount(order);
    if |order| == |dag.nodes| {
      SameSizeSubset(Elems(order), Elems(dag.nodes));
      forall e | e in dag.edges
        ensures e.from in dag.nodes && e.to in order
      {
        assert e.to in Elems(order);
        var i :| 0 <= i < |order| && order[i] == e.to;
        assert Precedes(order, e.from, i);
        assert e.from in Elems(order);
      }
      OrderImpliesAcyclic(dag.edges, order);
      forall t | Topological(dag, t)
        ensures LexLeq(order, t)
      {
        GreedyIsLeast(dag, order, t);
      }
    } else if SourcesAreNodes(dag) && !Cyclic(dag.edges) {
      GreedyCompletes(dag, order);
    }
  }

  lemma SameSizeSubset(a: set<int>, b: set<int>)
    requires a <= b && |a| == |b|
    ensures a == b
  {
    assert |b - a| == 0;
  }
}
