/** Layering the migration graph: longest-path depths by repeated relaxation. */
module GraphDepths {
  import opened MigrationGraph

  /** Reading a Go map of counters: an absent key reads as zero. */
  function Depth(depths: map<int, int>, v: int): int {
    if v in depths then depths[v] else 0
  }

  ghost predicate EndsAt(edges: seq<Edge>, p: seq<int>, v: int) {
    Path(edges, p) && p[|p| - 1] == v
  }

  /** Some path with `d` edges ends at `v`. */
  ghost predicate Reached(edges: seq<Edge>, v: int, d: int) {
    exists p :: EndsAt(edges, p, v) && |p| == d + 1
  }

  ghost predicate Longest(edges: seq<Edge>, v: int, d: int) {
    Reached(edges, v, d) && forall p :: EndsAt(edges, p, v) ==> |p| <= d + 1
  }

  ghost predicate AllReached(edges: seq<Edge>, depths: map<int, int>) {
    forall v :: Reached(edges, v, Depth(depths, v))
  }

  /** The condition under which the relaxation loop stops. */
  ghost predicate Settled(edges: seq<Edge>, depths: map<int, int>) {
    forall e :: e in edges ==> Depth(depths, e.from) + 1 <= Depth(depths, e.to)
  }

  /** Depths that are settled grow by at least one per edge of a path. */
  lemma {:induction false} SettledAlongPath(edges: seq<Edge>, depths: map<int, int>, p: seq<int>)
    requires Settled(edges, depths) && Path(edges, p)
    ensures Depth(depths, p[|p| - 1]) >= Depth(depths, p[0]) + |p| - 1
    decreases |p|
  {
    if |p| >= 2 {
      PathStep(edges, p, |p| - 2);
      var q := p[..|p| - 1];
      assert Path(edges, q);
      SettledAlongPath(edges, depths, q);
      assert Depth(depths, Edge(p[|p| - 2], p[|p| - 1]).from) + 1 <= Depth(depths, p[|p| - 1]);
    }
  }

  /** On a cyclic graph no assignment of depths lets the loop stop. */
  lemma CyclicNeverSettles(edges: seq<Edge>, depths: map<int, int>)
    requires Cyclic(edges)
    ensures !Settled(edges, depths)
  {
    var p :| Cycle(edges, p);
    if Settled(edges, depths) {
      SettledAlongPath(edges, depths, p);
    }
  }

  // ---------------------------------------------------------------- A bound on paths

  ghost function Vertices(edges: seq<Edge>): set<int> {
    (set e | e in edges :: e.from) + (set e | e in edges :: e.to)
  }

  lemma AcyclicPathDistinct(edges: seq<Edge>, p: seq<int>)
    requires Path(edges, p) && !Cyclic(edges)
    ensures Distinct(p)
  {
    forall i, j | 0 <= i < j < |p|
      ensures p[i] != p[j]
    {
      var q := p[i..j + 1];
      forall k | 0 <= k < |q| - 1
        ensures Edge(q[k], q[k + 1]) in edges
      {
        PathStep(edges, p, i + k);
      }
      assert Path(edges, q);
      assert !Cycle(edges, q);
    }
  }

  /** Without cycles a path has no more edges than the graph has vertices. */
  lemma PathBound(edges: seq<Edge>, p: seq<int>)
    requires Path(edges, p) && !Cyclic(edges)
    ensures |p| <= |Vertices(edges)| + 1
  {
    if |p| >= 2 {
      forall v | v in p
        ensures v in Vertices(edges)
      {
        var i :| 0 <= i < |p| && p[i] == v;
        if i < |p| - 1 {
          PathStep(edges, p, i);
          assert Edge(v, p[i + 1]).from in Vertices(edges);
        } else {
          PathStep(edges, p, i - 1);
          assert Edge(p[i - 1], v).to in Vertices(edges);
        }
      }
      AcyclicPathDistinct(edges, p);
      DistinctCount(p);
      SubsetCount(Elems(p), Vertices(edges));
    }
  }

  lemma SubsetCount(a: set<int>, b: set<int>)
    requires a <= b
    ensures |a| <= |b|
  {
    assert b == a + (b - a);
  }

  /** How far the depths of the edges' targets are below the bound, in total. */
  ghost function Slack(edges: seq<Edge>, depths: map<int, int>, bound: int): int {
    if edges == [] then 0
    else Slack(edges[..|edges| - 1], depths, bound) + bound - Depth(depths, edges[|edges| - 1].to)
  }

  lemma {:induction false} SlackNonNegative(edges: seq<Edge>, depths: map<int, int>, bound: int)
    requires forall v :: Depth(depths, v) <= bound
    ensures Slack(edges, depths, bound) >= 0
    decreases |edges|
  {
    if edges != [] {
      SlackNonNegative(edges[..|edges| - 1], depths, bound);
    }
  }

  lemma {:induction false} SlackDrops(edges: seq<Edge>, depths: map<int, int>, bound: int, v: int, d: int)
    requires d > Depth(depths, v)
    ensures Slack(edges, depths[v := d], bound) <= Slack(edges, depths, bound)
    ensures (exists e :: e in edges && e.to == v) ==> Slack(edges, depths[v := d], bound) < Slack(edges, depths, bound)
    decreases |edges|
  {
    if edges != [] {
      SlackDrops(edges[..|edges| - 1], depths, bound, v, d);
      assert edges == edges[..|edges| - 1] + [edges[|edges| - 1]];
    }
  }

  /** Lengthening the witness for an edge's source gives one for its target. */
  lemma RelaxReached(edges: seq<Edge>, depths: map<int, int>, e: Edge)
    requires AllReached(edges, depths) && e in edges
    ensures AllReached(edges, depths[e.to := Depth(depths, e.from) + 1])
  {
    var next := depths[e.to := Depth(depths, e.from) + 1];
    forall v
      ensures Reached(edges, v, Depth(next, v))
    {
      if v == e.to {
        assert Reached(edges, e.from, Depth(depths, e.from));
        var p :| EndsAt(edges, p, e.from) && |p| == Depth(depths, e.from) + 1;
        var q := p + [v];
        forall i | 0 <= i < |q| - 1
          ensures Edge(q[i], q[i + 1]) in edges
        {
          if i < |p| - 1 {
            PathStep(edges, p, i);
          } else {
            assert Edge(q[i], q[i + 1]) == e;
          }
        }
        assert EndsAt(edges, q, v);
      } else {
        assert Reached(edges, v, Depth(depths, v));
      }
    }
  }

  lemma ReachedWithinBound(edges: seq<Edge>, depths: map<int, int>)
    requires AllReached(edges, depths) && !Cyclic(edges)
    ensures forall v :: 0 <= Depth(depths, v) <= |Vertices(edges)|
  {
    forall v
      ensures 0 <= Depth(depths, v) <= |Vertices(edges)|
    {
      assert Reached(edges, v, Depth(depths, v));
      var p :| EndsAt(edges, p, v) && |p| == Depth(depths, v) + 1;
      PathBound(edges, p);
    }
  }

  lemma SettledIsLongest(edges: seq<Edge>, depths: map<int, int>)
    requires AllReached(edges, depths) && Settled(edges, depths)
    requires forall v :: 0 <= Depth(depths, v)
    ensures forall v :: Longest(edges, v, Depth(depths, v))
  {
    forall v
      ensures Longest(edges, v, Depth(depths, v))
    {
      assert Reached(edges, v, Depth(depths, v));
      forall p | EndsAt(edges, p, v)
        ensures |p| <= Depth(depths, v) + 1
      {
        SettledAlongPath(edges, depths, p);
      }
    }
  }

  /** One pass over the edges. */
  method Sweep(edges: seq<Edge>, start: map<int, int>, ghost bound: int) returns (depths: map<int, int>, changed: bool)
    requires AllReached(edges, start)
    ensures AllReached(edges, depths) && start.Keys <= depths.Keys
    ensures if changed then Slack(edges, depths, bound) < Slack(edges, start, bound)
            else depths == start && Settled(edges, depths)
  {
    depths, changed := start, false;
    for i := 0 to |edges|
      invariant AllReached(edges, depths) && start.Keys <= depths.Keys
      invariant if changed then Slack(edges, depths, bound) < Slack(edges, start, bound)
                else depths == start && Settled(edges[..i], depths)
    {
      var edge := edges[i];
      assert edges[..i + 1] == edges[..i] + [edge];
      var newDepth := Depth(depths, edge.from) + 1;
      if newDepth > Depth(depths, edge.to) {
        RelaxReached(edges, depths, edge);
        SlackDrops(edges, depths, bound, edge.to, newDepth);
        depths := depths[edge.to := newDepth];
        changed := true;
      }
    }
    assert edges[..|edges|] == edges;
  }

  /** On a cyclic graph calculateDepths does not return (see CyclicNeverSettles); on every other it does, and
      each version's depth is the length of the longest dependency chain ending there. */
  method CalculateDepths(dag: Dag) returns (depths: map<int, int>)
    requires !Cyclic(dag.edges)
    ensures forall v :: Longest(dag.edges, v, Depth(depths, v))
    ensures Elems(dag.nodes) <= depths.Keys
  {
    depths := map[];
    for i := 0 to |dag.nodes|
      invariant forall v :: v in depths ==> depths[v] == 0
      invariant Elems(dag.nodes[..i]) <= depths.Keys
    {
      depths := depths[dag.nodes[i] := 0];
      assert dag.nodes[..i + 1] == dag.nodes[..i] + [dag.nodes[i]];
    }
    assert dag.nodes[..|dag.nodes|] == dag.nodes;
    forall v
      ensures Reached(dag.edges, v, Depth(depths, v))
    {
      assert EndsAt(dag.edges, [v], v);
    }
    ghost var bound := |Vertices(dag.edges)|;
    ReachedWithinBound(dag.edges, depths);
    SlackNonNegative(dag.edges, depths, bound);
    var changed := true;
    while changed
      invariant AllReached(dag.edges, depths) && Elems(dag.nodes) <= depths.Keys
      invariant Slack(dag.edges, depths, bound) >= 0
      invariant !changed ==> Settled(dag.edges, depths)
      decreases Slack(dag.edges, depths, bound), changed
    {
      depths, changed := Sweep(dag.edges, depths, bound);
      ReachedWithinBound(dag.edges, depths);
      SlackNonNegative(dag.edges, depths, bound);
    }
    ReachedWithinBound(dag.edges, depths);
    SettledIsLongest(dag.edges, depths);
  }
}
