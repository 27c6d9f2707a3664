/**
 * The directed graph a workflow keeps over its function ids, and the
 * topological sort the workflow asks of it.
 *
 * Nodes are kept in insertion order (the graph library iterates its nodes in
 * the order they were added), edges as a set of ordered pairs. Acyclicity is
 * stated by the absence of a closed walk; the sort is Kahn's algorithm, proved
 * to succeed exactly on acyclic graphs and to return an order that respects
 * every edge.
 */
module DiGraphs {
  import opened Wrappers

  type NodeId = string
  type Edge = (NodeId, NodeId)

  datatype Graph = Graph(nodes: seq<NodeId>, edges: set<Edge>)

  /** The empty graph, as a freshly created graph object is. */
  function EmptyGraph(): (g: Graph)
    ensures WellFormed(g) && NodeSet(g) == {} && g.edges == {}
  {
    Graph([], {})
  }

  /** Every node is listed once, and every edge joins two nodes of the graph. */
  predicate WellFormed(g: Graph)
  {
    && (forall i, j :: 0 <= i < j < |g.nodes| ==> g.nodes[i] != g.nodes[j])
    && (forall e :: e in g.edges ==> e.0 in g.nodes && e.1 in g.nodes)
  }

  function Elements(s: seq<NodeId>): set<NodeId>
  {
    set v | v in s
  }

  function NodeSet(g: Graph): set<NodeId>
  {
    Elements(g.nodes)
  }

  /** Adding a node that is already present leaves the graph as it is. */
  function AddNode(g: Graph, v: NodeId): (r: Graph)
    requires WellFormed(g)
    ensures WellFormed(r)
    ensures NodeSet(r) == NodeSet(g) + {v} && r.edges == g.edges
    ensures v in g.nodes ==> r == g
    ensures v !in g.nodes ==> r.nodes == g.nodes + [v]
  {
    if v in g.nodes then g else Graph(g.nodes + [v], g.edges)
  }

  /** Adding an edge adds whichever endpoint is missing, source first. */
  function AddEdge(g: Graph, u: NodeId, v: NodeId): (r: Graph)
    requires WellFormed(g)
    ensures WellFormed(r)
    ensures NodeSet(r) == NodeSet(g) + {u, v}
    ensures r.edges == g.edges + {(u, v)}
    ensures r.nodes == AddNode(AddNode(g, u), v).nodes
  {
    var h := AddNode(AddNode(g, u), v);
    Graph(h.nodes, h.edges + {(u, v)})
  }

  /** `p` is a closed walk of at least one edge: a cycle, a self-edge included. */
  ghost predicate IsCycle(edges: set<Edge>, p: seq<NodeId>)
  {
    && |p| >= 2
    && p[0] == p[|p| - 1]
    && forall k :: 0 <= k < |p| - 1 ==> (p[k], p[k + 1]) in edges
  }

  ghost predicate Acyclic(g: Graph)
  {
    forall p :: !IsCycle(g.edges, p)
  }

  /**
   * `o` lists the nodes `rem` (with their multiplicities) so that every edge
   * between two listed nodes goes forward.
   */
  predicate IsTopologicalOrderOf(o: seq<NodeId>, rem: seq<NodeId>, edges: set<Edge>)
  {
    && multiset(o) == multiset(rem)
    && forall i, j :: 0 <= i < |o| && 0 <= j < |o| && (o[i], o[j]) in edges ==> i < j
  }

  /** `v` has a predecessor among the nodes `rem`. */
  predicate HasPredecessorIn(v: NodeId, rem: seq<NodeId>, edges: set<Edge>)
  {
    exists k :: 0 <= k < |rem| && (rem[k], v) in edges
  }

  /** The index of the first node of `rem` with no predecessor in `rem`, or |rem|. */
  function SourceIndex(rem: seq<NodeId>, edges: set<Edge>, from: nat): (i: nat)
    requires from <= |rem|
    requires forall j :: 0 <= j < from ==> HasPredecessorIn(rem[j], rem, edges)
    ensures from <= i <= |rem|
    ensures i < |rem| ==> !HasPredecessorIn(rem[i], rem, edges)
    ensures forall j :: 0 <= j < i ==> HasPredecessorIn(rem[j], rem, edges)
    decreases |rem| - from
  {
    if from == |rem| then from
    else if !HasPredecessorIn(rem[from], rem, edges) then from
    else SourceIndex(rem, edges, from + 1)
  }

  /**
   * Kahn's algorithm: repeatedly emit the first remaining node that no
   * remaining node points to. It fails when every remaining node has a
   * remaining predecessor, and then the graph has a cycle.
   */
  function Kahn(rem: seq<NodeId>, edges: set<Edge>): (r: Option<seq<NodeId>>)
    ensures r.Some? ==> IsTopologicalOrderOf(r.value, rem, edges)
    ensures r.None? ==> exists p :: IsCycle(edges, p)
    decreases |rem|
  {
    if rem == [] then Some([])
    else
      var i := SourceIndex(rem, edges, 0);
      if i == |rem| then
        NoSourceMeansCycle(rem, edges);
        None
      else
        var rest := rem[..i] + rem[i + 1..];
        match Kahn(rest, edges)
        case None => None
        case Some(o) =>
          SourceFirstKeepsOrder(rem, i, o, edges);
          Some([rem[i]] + o)
  }

  lemma SourceFirstKeepsOrder(rem: seq<NodeId>, i: nat, o: seq<NodeId>, edges: set<Edge>)
    requires i < |rem| && !HasPredecessorIn(rem[i], rem, edges)
    requires IsTopologicalOrderOf(o, rem[..i] + rem[i + 1..], edges)
    ensures IsTopologicalOrderOf([rem[i]] + o, rem, edges)
  {
    var x, o' := rem[i], [rem[i]] + o;
    assert rem == rem[..i] + [x] + rem[i + 1..];
    assert multiset(o') == multiset(rem);
    forall a | 0 <= a < |o'| ensures o'[a] in rem {
      assert o'[a] in multiset(o');
    }
    forall u | u in rem ensures (u, x) !in edges {
    }
    forall a, b | 0 <= a < |o'| && 0 <= b < |o'| && (o'[a], o'[b]) in edges
      ensures a < b
    {
      if a != 0 && b != 0 {
        assert (o[a - 1], o[b - 1]) in edges;
      }
    }
  }

  /** Every node of `s` has a predecessor in `s`. */
  ghost predicate NoSourceIn(s: set<NodeId>, edges: set<Edge>)
  {
    forall w :: w in s ==> PredecessorIn(w, s, edges)
  }

  ghost predicate PredecessorIn(w: NodeId, s: set<NodeId>, edges: set<Edge>)
  {
    exists u :: u in s && (u, w) in edges
  }

  /** A walk of `n` edges ending in `v`, inside a set where every node has a predecessor. */
  lemma {:induction false} WalkInto(s: set<NodeId>, edges: set<Edge>, v: NodeId, n: nat) returns (p: seq<NodeId>)
    requires v in s && NoSourceIn(s, edges)
    ensures |p| == n + 1 && p[n] == v
    ensures forall k :: 0 <= k < |p| ==> p[k] in s
    ensures forall k :: 0 <= k < |p| - 1 ==> (p[k], p[k + 1]) in edges
  {
    if n == 0 {
      p := [v];
    } else {
      var q := WalkInto(s, edges, v, n - 1);
      assert PredecessorIn(q[0], s, edges);
      var u :| u in s && (u, q[0]) in edges;
      p := [u] + q;
      assert forall k :: 1 <= k < |p| ==> p[k] == q[k - 1];
    }
  }

  /** A sequence longer than the set its elements come from repeats an element. */
  lemma {:induction false} Pigeonhole<T>(p: seq<T>, s: set<T>)
    requires forall k :: 0 <= k < |p| ==> p[k] in s
    requires |p| > |s|
    ensures exists i, j :: 0 <= i < j < |p| && p[i] == p[j]
  {
    if exists j :: 1 <= j < |p| && p[j] == p[0] {
      var j :| 1 <= j < |p| && p[j] == p[0];
      assert p[0] == p[j];
    } else {
      var s' := s - {p[0]};
      forall k | 0 <= k < |p[1..]| ensures p[1..][k] in s' {
        assert p[1..][k] == p[k + 1];
      }
      Pigeonhole(p[1..], s');
      var i, j :| 0 <= i < j < |p[1..]| && p[1..][i] == p[1..][j];
      assert p[i + 1] == p[j + 1];
    }
  }

  /** When no remaining node is a source, walking backwards must close a cycle. */
  lemma NoSourceMeansCycle(rem: seq<NodeId>, edges: set<Edge>)
    requires |rem| > 0
    requires forall j {:trigger HasPredecessorIn(rem[j], rem, edges)} :: 0 <= j < |rem| ==> HasPredecessorIn(rem[j], rem, edges)
    ensures exists p :: IsCycle(edges, p)
  {
    var s := Elements(rem);
    NoSourceInElements(rem, edges);
    var walk := WalkInto(s, edges, rem[0], |s|);
    Pigeonhole(walk, s);
    var i, j :| 0 <= i < j < |walk| && walk[i] == walk[j];
    RepeatClosesCycle(walk, edges, i, j);
  }

  lemma NoSourceInElements(rem: seq<NodeId>, edges: set<Edge>)
    requires forall j {:trigger HasPredecessorIn(rem[j], rem, edges)} :: 0 <= j < |rem| ==> HasPredecessorIn(rem[j], rem, edges)
    ensures NoSourceIn(Elements(rem), edges)
  {
    var s := Elements(rem);
    forall w | w in s ensures PredecessorIn(w, s, edges) {
      var j :| 0 <= j < |rem| && rem[j] == w;
      assert HasPredecessorIn(rem[j], rem, edges);
      var k :| 0 <= k < |rem| && (rem[k], w) in edges;
      assert rem[k] in s;
    }
  }

  /** The stretch of a walk between two visits of the same node is a cycle. */
  lemma RepeatClosesCycle(walk: seq<NodeId>, edges: set<Edge>, i: nat, j: nat)
    requires 0 <= i < j < |walk| && walk[i] == walk[j]
    requires forall k :: 0 <= k < |walk| - 1 ==> (walk[k], walk[k + 1]) in edges
    ensures IsCycle(edges, walk[i..j + 1])
  {
    var cycle := walk[i..j + 1];
    forall k | 0 <= k < |cycle| - 1 ensures (cycle[k], cycle[k + 1]) in edges {
      assert cycle[k] == walk[i + k] && cycle[k + 1] == walk[i + k + 1];
    }
  }

  ghost function IndexIn(o: seq<NodeId>, v: NodeId): (i: nat)
    requires v in o
    ensures i < |o| && o[i] == v
  {
    var i :| 0 <= i < |o| && o[i] == v; i
  }

  /** Along a walk inside an order whose edges all go forward, positions increase. */
  lemma {:induction false} WalkGoesForward(o: seq<NodeId>, edges: set<Edge>, p: seq<NodeId>, k: nat)
    requires forall i, j :: 0 <= i < |o| && 0 <= j < |o| && (o[i], o[j]) in edges ==> i < j
    requires forall m :: 0 <= m < |p| ==> p[m] in o
    requires forall m :: 0 <= m < |p| - 1 ==> (p[m], p[m + 1]) in edges
    requires 1 <= k < |p|
    ensures IndexIn(o, p[0]) < IndexIn(o, p[k])
  {
    assert (p[k - 1], p[k]) in edges;
    if k > 1 {
      WalkGoesForward(o, edges, p, k - 1);
    }
  }

  /** A graph that has a topological order has no cycle. */
  lemma TopologicalOrderMeansAcyclic(g: Graph, o: seq<NodeId>)
    requires WellFormed(g) && IsTopologicalOrderOf(o, g.nodes, g.edges)
    ensures Acyclic(g)
  {
    forall p | IsCycle(g.edges, p) ensures false {
      forall m | 0 <= m < |p| ensures p[m] in o {
        var e := if m < |p| - 1 then (p[m], p[m + 1]) else (p[m - 1], p[m]);
        assert e in g.edges;
        assert p[m] in multiset(g.nodes);
      }
      WalkGoesForward(o, g.edges, p, |p| - 1);
    }
  }

  /**
   * The graph library's topological sort: an order of all nodes in which every
   * edge goes forward, or a failure exactly when the graph has a cycle.
   */
  function TopologicalSort(g: Graph): (r: Option<seq<NodeId>>)
    requires WellFormed(g)
    ensures r.Some? <==> Acyclic(g)
    ensures r.Some? ==> IsTopologicalOrderOf(r.value, g.nodes, g.edges)
  {
    var r := Kahn(g.nodes, g.edges);
    if r.Some? then TopologicalOrderMeansAcyclic(g, r.value); r else r
  }

  /** The graph library's acyclicity test, which runs the sort and reports whether it failed. */
  function IsDirectedAcyclicGraph(g: Graph): (b: bool)
    requires WellFormed(g)
    ensures b <==> Acyclic(g)
  {
    TopologicalSort(g).Some?
  }

  /** A topological order of distinct nodes lists each node exactly once. */
  lemma {:induction false} TopologicalOrderIsPermutation(g: Graph, o: seq<NodeId>)
    requires WellFormed(g) && IsTopologicalOrderOf(o, g.nodes, g.edges)
    ensures |o| == |g.nodes|
    ensures forall i, j :: 0 <= i < j < |o| ==> o[i] != o[j]
    ensures forall v :: v in o <==> v in g.nodes
  {
    assert |o| == |multiset(o)| == |multiset(g.nodes)| == |g.nodes|;
    forall v ensures v in o <==> v in g.nodes {
      assert v in o <==> v in multiset(o);
      assert v in g.nodes <==> v in multiset(g.nodes);
    }
    forall i, j | 0 <= i < j < |o| ensures o[i] != o[j] {
      if o[i] == o[j] {
        DistinctMultiplicity(g.nodes, o[i]);
        TwiceMultiplicity(o, i, j);
        assert false;
      }
    }
  }

  lemma {:induction false} DistinctMultiplicity(s: seq<NodeId>, v: NodeId)
    requires forall i, j :: 0 <= i < j < |s| ==> s[i] != s[j]
    ensures multiset(s)[v] <= 1
  {
    if s != [] {
      assert s == [s[0]] + s[1..];
      DistinctMultiplicity(s[1..], v);
      if s[0] == v {
        assert v !in s[1..];
      }
    }
  }

  lemma {:induction false} TwiceMultiplicity(s: seq<NodeId>, i: nat, j: nat)
    requires i < j < |s| && s[i] == s[j]
    ensures multiset(s)[s[i]] >= 2
  {
    assert s == s[..i] + [s[i]] + s[i + 1..j] + [s[j]] + s[j + 1..];
  }

  /** A graph without edges has no cycle. */
  lemma EdgelessIsAcyclic(g: Graph)
    requires g.edges == {}
    ensures Acyclic(g)
  {
    forall p ensures !IsCycle(g.edges, p) {
      if |p| >= 2 {
        assert (p[0], p[1]) !in g.edges;
      }
    }
  }

  /** Two nodes joined by one edge have one topological order: source first. */
  lemma ChainHasOneOrder(a: NodeId, b: NodeId, o: seq<NodeId>)
    requires a != b && IsTopologicalOrderOf(o, [a, b], {(a, b)})
    ensures o == [a, b]
  {
    assert |o| == |multiset(o)| == 2;
    assert a in multiset(o) && b in multiset(o);
    var i :| 0 <= i < 2 && o[i] == a;
    var j :| 0 <= j < 2 && o[j] == b;
    assert i < j && i == 0 && j == 1;
  }

  /** The sort of two nodes joined by one edge puts the source first. */
  lemma ChainOrder(a: NodeId, b: NodeId)
    requires a != b
    ensures WellFormed(Graph([a, b], {(a, b)}))
    ensures TopologicalSort(Graph([a, b], {(a, b)})) == Some([a, b])
  {
    var g := Graph([a, b], {(a, b)});
    forall p ensures !IsCycle(g.edges, p) {
      if |p| >= 2 && (p[0], p[1]) in g.edges && (p[|p| - 2], p[|p| - 1]) in g.edges {
        assert p[0] == a && p[|p| - 1] == b;
      }
    }
    assert Acyclic(g);
    ChainHasOneOrder(a, b, TopologicalSort(g).value);
  }
}
