/** Directed graphs over migration versions: paths, cycles and topological orders. */
module MigrationGraph {

  datatype Edge = Edge(from: int, to: int)

  /** A MigrationDAG, reduced to the versions of its nodes. */
  datatype Dag = Dag(nodes: seq<int>, edges: seq<Edge>)

  function Elems(s: seq<int>): set<int> {
    set x | x in s
  }

  ghost predicate Distinct(s: seq<int>) {
    forall i, j :: 0 <= i < j < |s| ==> s[i] != s[j]
  }

  lemma {:induction false} DistinctCount(s: seq<int>)
    requires Distinct(s)
    ensures |Elems(s)| == |s|
    decreases |s|
  {
    if s != [] {
      DistinctCount(s[1..]);
      assert Elems(s) == {s[0]} + Elems(s[1..]);
      assert s[0] !in s[1..];
    }
  }

  // ---------------------------------------------------------------- Paths and cycles

  ghost predicate Path(edges: seq<Edge>, p: seq<int>) {
    p != [] && forall i :: 0 <= i < |p| - 1 ==> Edge(p[i], p[i + 1]) in edges
  }

  ghost predicate Cycle(edges: seq<Edge>, p: seq<int>) {
    Path(edges, p) && |p| >= 2 && p[0] == p[|p| - 1]
  }

  ghost predicate Cyclic(edges: seq<Edge>) {
    exists p :: Cycle(edges, p)
  }

  ghost predicate Leads(edges: seq<Edge>, q: seq<int>, u: int, v: int) {
    Path(edges, q) && q[0] == u && q[|q| - 1] == v
  }

  /** Some cycle can be reached from `root`. */
  ghost predicate CycleBelow(edges: seq<Edge>, root: int) {
    exists q, p :: Cycle(edges, p) && Leads(edges, q, root, p[0])
  }

  /** The condition under which validation complains. */
  ghost predicate CycleReachable(dag: Dag) {
    exists v :: v in dag.nodes && CycleBelow(dag.edges, v)
  }

  ghost predicate SourcesAreNodes(dag: Dag) {
    forall e :: e in dag.edges ==> e.from in dag.nodes
  }

  ghost predicate TargetsAreNodes(dag: Dag) {
    forall e :: e in dag.edges ==> e.to in dag.nodes
  }

  lemma PathStep(edges: seq<Edge>, p: seq<int>, i: nat)
    requires Path(edges, p) && i < |p| - 1
    ensures Edge(p[i], p[i + 1]) in edges
  {
  }

  /** When every edge starts at a node, no cycle escapes validation. */
  lemma ReachableIsCyclic(dag: Dag)
    requires SourcesAreNodes(dag)
    ensures CycleReachable(dag) <==> Cyclic(dag.edges)
  {
    if Cyclic(dag.edges) {
      var p :| Cycle(dag.edges, p);
      PathStep(dag.edges, p, 0);
      assert Leads(dag.edges, [p[0]], p[0], p[0]);
      assert CycleBelow(dag.edges, p[0]);
    }
  }

  /** Walking backwards inside a finite set in which everything has a predecessor must come back. */
  lemma {:induction false} WalkBack(edges: seq<Edge>, r: set<int>, p: seq<int>)
    requires Path(edges, p) && Elems(p) <= r
    requires forall v :: v in r ==> exists u :: u in r && Edge(u, v) in edges
    ensures Cyclic(edges)
    decreases r - Elems(p)
  {
    assert p[0] in Elems(p);
    var u :| u in r && Edge(u, p[0]) in edges;
    var q := [u] + p;
    forall i | 0 <= i < |q| - 1
      ensures Edge(q[i], q[i + 1]) in edges
    {
      assert i > 0 ==> q[i] == p[i - 1] && q[i + 1] == p[i];
    }
    if u in p {
      var k :| 0 <= k < |p| && p[k] == u;
      assert Cycle(edges, q[..k + 2]);
    } else {
      assert u in Elems(q) && u !in Elems(p);
      assert Elems(q) == {u} + Elems(p);
      WalkBack(edges, r, q);
    }
  }

  lemma NoSourceImpliesCycle(edges: seq<Edge>, r: set<int>, v: int)
    requires v in r
    requires forall v :: v in r ==> exists u :: u in r && Edge(u, v) in edges
    ensures Cyclic(edges)
  {
    assert Path(edges, [v]);
    WalkBack(edges, r, [v]);
  }

  // ---------------------------------------------------------------- Topological orders

  ghost predicate Precedes(t: seq<int>, u: int, i: nat)
    requires i <= |t|
  {
    u in t[..i]
  }

  /** Nothing is listed twice, and everything comes after all its dependencies. */
  ghost predicate RespectsEdges(edges: seq<Edge>, t: seq<int>) {
    && Distinct(t)
    && forall i, e :: 0 <= i < |t| && e in edges && e.to == t[i] ==> Precedes(t, e.from, i)
  }

  ghost predicate Topological(dag: Dag, t: seq<int>) {
    RespectsEdges(dag.edges, t) && Elems(t) == Elems(dag.nodes)
  }

  /** Along a path that ends inside an order that respects the edges, positions strictly increase. */
  lemma {:induction false} PathBackwards(edges: seq<Edge>, t: seq<int>, p: seq<int>, i: nat)
    requires RespectsEdges(edges, t) && Path(edges, p) && i < |t| && p[|p| - 1] == t[i]
    ensures |p| >= 2 ==> Precedes(t, p[0], i)
    ensures |p| - 1 <= i
    decreases |p|
  {
    if |p| >= 2 {
      PathStep(edges, p, |p| - 2);
      assert Precedes(t, p[|p| - 2], i);
      var k :| 0 <= k < i && t[k] == p[|p| - 2];
      var q := p[..|p| - 1];
      assert Path(edges, q);
      PathBackwards(edges, t, q, k);
      assert |q| >= 2 ==> Precedes(t, p[0], k) && t[..k] <= t[..i];
      assert t[..i][k] == t[k];
    }
  }

  lemma NoReturn(edges: seq<Edge>, t: seq<int>, p: seq<int>, i: nat)
    requires RespectsEdges(edges, t) && Path(edges, p) && |p| >= 2 && i < |t| && p[|p| - 1] == t[i]
    ensures p[0] != p[|p| - 1]
  {
    PathBackwards(edges, t, p, i);
    var k :| 0 <= k < i && t[..i][k] == p[0];
    assert t[k] != t[i];
  }

  /** A graph whose edges all end in such an order has no cycle. */
  lemma OrderImpliesAcyclic(edges: seq<Edge>, t: seq<int>)
    requires RespectsEdges(edges, t) && forall e :: e in edges ==> e.to in t
    ensures !Cyclic(edges)
  {
    forall p | Path(edges, p) && |p| >= 2
      ensures p[0] != p[|p| - 1]
    {
      PathStep(edges, p, |p| - 2);
      assert p[|p| - 1] in t;
      var i :| 0 <= i < |t| && t[i] == p[|p| - 1];
      NoReturn(edges, t, p, i);
    }
  }

  ghost predicate LexLeq(s: seq<int>, t: seq<int>) {
    s <= t || exists i: nat :: FirstDifference(s, t, i) && s[i] < t[i]
  }

  ghost predicate FirstDifference(s: seq<int>, t: seq<int>, i: nat) {
    i < |s| && i < |t| && s[..i] == t[..i] && s[i] != t[i]
  }

  lemma {:induction false} Differ(s: seq<int>, t: seq<int>)
    ensures s <= t || t <= s || exists i: nat :: FirstDifference(s, t, i)
    decreases |s|
  {
    if s != [] && t != [] {
      if s[0] != t[0] {
        assert FirstDifference(s, t, 0);
      } else {
        Differ(s[1..], t[1..]);
        if exists i: nat :: FirstDifference(s[1..], t[1..], i) {
          var i: nat :| FirstDifference(s[1..], t[1..], i);
          assert s[..i + 1] == [s[0]] + s[1..][..i] && t[..i + 1] == [t[0]] + t[1..][..i];
          assert FirstDifference(s, t, i + 1);
        }
      }
    }
  }
}
