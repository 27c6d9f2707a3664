/**
 * A workflow: a set of functions keyed by id and a dependency graph over the
 * ids. It is built incrementally, may be checked, queried for an execution
 * order, and finally sealed and walked once with a cursor.
 */
module FunctionDag {
  import opened Wrappers
  import opened DiGraphs

  /**
   * A function of a workflow: its id and, per resource name, the number of
   * ticks one execution takes for each batch key.
   */
  datatype Function = Function(uniqueId: NodeId, resources: map<string, map<string, nat>>)

  /** The assertions a workflow operation can fail with. */
  datatype DagError =
    | SealedError      // a mutation after the workflow was sealed
    | DuplicateId      // a function whose id is already present
    | NodesMismatch    // the function ids and the graph nodes differ
    | NotAcyclic       // the graph has a cycle

  predicate DistinctIds(fs: seq<Function>)
  {
    forall i, j :: 0 <= i < j < |fs| ==> fs[i].uniqueId != fs[j].uniqueId
  }

  function Ids(fs: seq<Function>): (ids: seq<NodeId>)
    ensures |ids| == |fs|
    ensures forall i :: 0 <= i < |fs| ==> ids[i] == fs[i].uniqueId
  {
    seq(|fs|, i requires 0 <= i < |fs| => fs[i].uniqueId)
  }

  /** Every function is filed under its own id. */
  predicate KeyedById(functions: map<NodeId, Function>)
  {
    forall id :: id in functions ==> functions[id].uniqueId == id
  }

  /** The map that adding the functions `fs` one after the other builds. */
  function Keyed(fs: seq<Function>): (m: map<NodeId, Function>)
    ensures KeyedById(m)
  {
    if fs == [] then map[] else Keyed(fs[..|fs| - 1])[fs[|fs| - 1].uniqueId := fs[|fs| - 1]]
  }

  lemma {:induction false} KeyedKeys(fs: seq<Function>)
    ensures Keyed(fs).Keys == Elements(Ids(fs))
  {
    if fs != [] {
      var init := fs[..|fs| - 1];
      KeyedKeys(init);
      assert Ids(fs) == Ids(init) + [fs[|fs| - 1].uniqueId];
    }
  }

  /** Adding the next of distinct functions files a new id and appends it to the ids. */
  lemma KeyedStep(fs: seq<Function>, i: nat)
    requires DistinctIds(fs) && i < |fs|
    ensures fs[i].uniqueId !in Keyed(fs[..i])
    ensures Keyed(fs[..i + 1]) == Keyed(fs[..i])[fs[i].uniqueId := fs[i]]
    ensures Ids(fs[..i + 1]) == Ids(fs[..i]) + [fs[i].uniqueId]
  {
    assert fs[..i + 1][..i] == fs[..i];
    KeyedKeys(fs[..i]);
    assert fs[i].uniqueId !in Ids(fs[..i]);
  }

  /**
   * `fs` is an execution order of the workflow: the ids of `fs` are a
   * topological order of the graph, and each entry is the function filed
   * under its id.
   */
  predicate IsExecutionOrder(fs: seq<Function>, functions: map<NodeId, Function>, graph: Graph)
  {
    && IsTopologicalOrderOf(Ids(fs), graph.nodes, graph.edges)
    && forall i :: 0 <= i < |fs| ==> fs[i].uniqueId in functions && functions[fs[i].uniqueId] == fs[i]
  }

  /** The functions filed under `ids`, in the same order. */
  function Lookup(ids: seq<NodeId>, functions: map<NodeId, Function>): (fs: seq<Function>)
    requires forall v :: v in ids ==> v in functions
    requires KeyedById(functions)
    ensures Ids(fs) == ids
    ensures forall i :: 0 <= i < |fs| ==> fs[i].uniqueId in functions && functions[fs[i].uniqueId] == fs[i]
  {
    var fs := seq(|ids|, i requires 0 <= i < |ids| => functions[ids[i]]);
    assert Ids(fs) == ids;
    fs
  }

  /** An execution order lists every function of the workflow exactly once. */
  lemma ExecutionOrderListsEachFunctionOnce(fs: seq<Function>, functions: map<NodeId, Function>, graph: Graph)
    requires WellFormed(graph) && functions.Keys == NodeSet(graph) && KeyedById(functions)
    requires IsExecutionOrder(fs, functions, graph)
    ensures |fs| == |functions|
    ensures forall i, j :: 0 <= i < j < |fs| ==> fs[i] != fs[j]
    ensures forall f :: f in functions.Values <==> f in fs
  {
    var ids := Ids(fs);
    TopologicalOrderIsPermutation(graph, ids);
    DistinctCount(graph.nodes);
    assert |functions| == |functions.Keys| == |NodeSet(graph)|;
    forall i, j | 0 <= i < j < |fs| ensures fs[i] != fs[j] {
      assert ids[i] != ids[j];
    }
    forall f | f in functions.Values ensures f in fs {
      var id :| id in functions && functions[id] == f;
      assert id in ids;
      var i :| 0 <= i < |ids| && ids[i] == id;
      assert fs[i] == f;
    }
  }

  /** A sequence without repetitions has as many elements as its set. */
  lemma {:induction false} DistinctCount(s: seq<NodeId>)
    requires forall i, j :: 0 <= i < j < |s| ==> s[i] != s[j]
    ensures |Elements(s)| == |s|
  {
    if s != [] {
      var t := s[..|s| - 1];
      DistinctCount(t);
      assert Elements(s) == Elements(t) + {s[|s| - 1]};
      assert s[|s| - 1] !in Elements(t);
    }
  }

  class Dag {
    var name: string
    var functions: map<NodeId, Function>
    var slo: Option<int>
    var graph: Graph
    var sealed: bool
    /** Whether `Execute` has stored an order and a cursor (before that, neither exists). */
    var started: bool
    var order: seq<Function>
    var pos: nat

    /**
     * The function ids are exactly the graph nodes, every function is filed
     * under its id, and once started the stored order is an execution order
     * with the cursor inside it.
     */
    ghost predicate Valid()
      reads this
    {
      && WellFormed(graph)
      && functions.Keys == NodeSet(graph)
      && KeyedById(functions)
      && (started ==> sealed && pos <= |order| && IsExecutionOrder(order, functions, graph))
    }

    /** The functions the cursor has still to hand out. */
    ghost function Remaining(): seq<Function>
      reads this
      requires Valid() && started
    {
      order[pos..]
    }

    /** Creates an unsealed workflow holding `funs`, added in order. */
    constructor (name: string, funs: seq<Function>, slo: Option<int>)
      requires DistinctIds(funs)
      ensures Valid() && !sealed && !started
      ensures this.name == name && this.slo == slo
      ensures functions == Keyed(funs)
      ensures graph == Graph(Ids(funs), {})
    {
      this.name := name;
      functions := map[];
      this.slo := slo;
      graph := EmptyGraph();
      sealed := false;
      started := false;
      order := [];
      pos := 0;
      new;
      var i := 0;
      while i < |funs|
        invariant 0 <= i <= |funs|
        invariant Valid() && !sealed && !started
        invariant this.name == name && this.slo == slo
        invariant functions == Keyed(funs[..i])
        invariant graph == Graph(Ids(funs[..i]), {})
      {
        KeyedStep(funs, i);
        var added := AddFunction(funs[i]);
        i := i + 1;
      }
      assert funs[..i] == funs;
    }

    /** Membership by id. */
    function Contains(index: NodeId): (b: bool)
      reads this
      requires Valid()
      ensures b <==> index in NodeSet(graph)
    {
      index in functions
    }

    /** The function filed under `index`; a missing id is a lookup error in the source. */
    function GetItem(index: NodeId): (f: Function)
      reads this
      requires Valid() && index in functions
      ensures f.uniqueId == index && f in functions.Values
    {
      functions[index]
    }

    /**
     * Adds `fun` and a node for its id. Fails, changing nothing, when the
     * workflow is sealed or the id is already present.
     */
    method AddFunction(fun: Function) returns (r: Outcome<DagError>)
      requires Valid()
      modifies this`functions, this`graph
      ensures Valid()
      ensures r == (if old(sealed) then Fail(SealedError)
                    else if fun.uniqueId in old(functions) then Fail(DuplicateId)
                    else Pass)
      ensures r.Fail? ==> functions == old(functions) && graph == old(graph)
      ensures r.Pass? ==> functions == old(functions)[fun.uniqueId := fun]
      ensures r.Pass? ==> graph == AddNode(old(graph), fun.uniqueId)
    {
      if sealed {
        return Fail(SealedError);
      }
      if fun.uniqueId in functions {
        return Fail(DuplicateId);
      }
      functions := functions[fun.uniqueId := fun];
      graph := AddNode(graph, fun.uniqueId);
      r := Pass;
    }

    /**
     * Adds the dependency edge `fun1 -> fun2`, first adding whichever of the
     * two functions is missing; a function already present is kept as it is.
     * Fails, changing nothing, when the workflow is sealed.
     */
    method AddEdge(fun1: Function, fun2: Function) returns (r: Outcome<DagError>)
      requires Valid()
      modifies this`functions, this`graph
      ensures Valid()
      ensures r == (if old(sealed) then Fail(SealedError) else Pass)
      ensures r.Fail? ==> functions == old(functions) && graph == old(graph)
      ensures r.Pass? ==> graph == DiGraphs.AddEdge(old(graph), fun1.uniqueId, fun2.uniqueId)
      ensures r.Pass? ==> functions.Keys == old(functions).Keys + {fun1.uniqueId, fun2.uniqueId}
      ensures forall id :: id in old(functions) ==> functions[id] == old(functions)[id]
      ensures r.Pass? && fun1.uniqueId !in old(functions) ==> functions[fun1.uniqueId] == fun1
      ensures r.Pass? && fun2.uniqueId !in old(functions) && fun2.uniqueId != fun1.uniqueId ==>
                functions[fun2.uniqueId] == fun2
    {
      if sealed {
        return Fail(SealedError);
      }
      ghost var f0, g0 := functions, graph;
      if fun1.uniqueId !in functions {
        var added := AddFunction(fun1);
      }
      ghost var f1 := functions;
      assert graph == AddNode(g0, fun1.uniqueId);
      assert f1 == if fun1.uniqueId in f0 then f0 else f0[fun1.uniqueId := fun1];
      if fun2.uniqueId !in functions {
        var added := AddFunction(fun2);
      }
      assert graph == AddNode(AddNode(g0, fun1.uniqueId), fun2.uniqueId);
      assert functions == if fun2.uniqueId in f1 then f1 else f1[fun2.uniqueId := fun2];
      graph := DiGraphs.AddEdge(graph, fun1.uniqueId, fun2.uniqueId);
      r := Pass;
    }

    /**
     * The structural check: passes exactly when the function ids are the
     * graph nodes and the graph has no cycle (a self-edge is a cycle).
     */
    function SanityCheck(): (r: Outcome<DagError>)
      reads this
      requires WellFormed(graph)
      ensures r == Pass <==> functions.Keys == NodeSet(graph) && Acyclic(graph)
      ensures r == Fail(NodesMismatch) <==> functions.Keys != NodeSet(graph)
      ensures r == Fail(NotAcyclic) <==> functions.Keys == NodeSet(graph) && !Acyclic(graph)
    {
      if functions.Keys != NodeSet(graph) then Fail(NodesMismatch)
      else if !IsDirectedAcyclicGraph(graph) then Fail(NotAcyclic)
      else Pass
    }

    /**
     * A fresh execution order of all functions, in which every dependency
     * edge goes forward; the sort fails exactly when the graph has a cycle.
     */
    function TopologicalExecutionOrder(): (r: Option<seq<Function>>)
      reads this
      requires Valid()
      ensures r.Some? <==> Acyclic(graph)
      ensures r.Some? ==> IsExecutionOrder(r.value, functions, graph)
    {
      match TopologicalSort(graph)
      case None => None
      case Some(ids) =>
        TopologicalOrderIsPermutation(graph, ids);
        Some(Lookup(ids, functions))
    }

    /**
     * Seals the workflow and, when the graph is acyclic, stores its execution
     * order and puts the cursor at its start. On a cyclic graph the workflow
     * is still sealed, and the sort fails.
     */
    method Execute() returns (r: Outcome<DagError>)
      requires Valid()
      modifies this`sealed, this`started, this`order, this`pos
      ensures Valid() && sealed
      ensures r == (if Acyclic(graph) then Pass else Fail(NotAcyclic))
      ensures r.Fail? ==> started == old(started) && order == old(order) && pos == old(pos)
      ensures r.Pass? ==> started && pos == 0 && order == old(TopologicalExecutionOrder()).value
      ensures r.Pass? ==> Remaining() == order
    {
      sealed := true;
      match TopologicalExecutionOrder()
      case None =>
        r := Fail(NotAcyclic);
      case Some(fs) =>
        order := fs;
        pos := 0;
        started := true;
        r := Pass;
    }

    /** Whether the cursor has a function left to hand out. */
    function HasNextFunction(): (b: bool)
      reads this
      requires Valid() && started
      ensures b <==> Remaining() != []
    {
      pos < |order|
    }

    /** The function at the cursor, without moving it. */
    function PeekNextFunction(): (r: Option<Function>)
      reads this
      requires Valid() && started
      ensures r == if Remaining() == [] then None else Some(Remaining()[0])
    {
      if HasNextFunction() then Some(order[pos]) else None
    }

    /** Hands out the function at the cursor and moves past it; at the end, None and no move. */
    method NextFunction() returns (r: Option<Function>)
      requires Valid() && started
      modifies this`pos
      ensures Valid()
      ensures old(Remaining()) == [] ==> r == None && pos == old(pos)
      ensures old(Remaining()) != [] ==> r == Some(old(Remaining())[0]) && Remaining() == old(Remaining())[1..]
    {
      if HasNextFunction() {
        pos := pos + 1;
        r := Some(order[pos - 1]);
      } else {
        r := None;
      }
    }
  }

  /**
   * A driver's use of the cursor: `NextFunction` while `HasNextFunction`
   * hands out exactly the remaining functions, each once and in order.
   */
  method Drain(dag: Dag) returns (visited: seq<Function>)
    requires dag.Valid() && dag.started
    modifies dag`pos
    ensures dag.Valid() && dag.Remaining() == []
    ensures visited == old(dag.Remaining())
  {
    ghost var start := dag.pos;
    visited := [];
    while dag.HasNextFunction()
      invariant dag.Valid() && dag.started && start <= dag.pos <= |dag.order|
      invariant visited == dag.order[start..dag.pos]
      decreases |dag.order| - dag.pos
    {
      var f := dag.NextFunction();
      visited := visited + [f.value];
    }
  }

  /**
   * Executing a workflow and draining its cursor yields its execution order:
   * every function exactly once, every dependency respected.
   */
  method ExecuteAndDrain(dag: Dag) returns (r: Option<seq<Function>>)
    requires dag.Valid()
    modifies dag`sealed, dag`started, dag`order, dag`pos
    ensures dag.Valid() && dag.sealed
    ensures r.Some? <==> Acyclic(dag.graph)
    ensures r.Some? ==> r == old(dag.TopologicalExecutionOrder())
    ensures r.Some? ==> |r.value| == |dag.functions| && IsExecutionOrder(r.value, dag.functions, dag.graph)
    ensures r.Some? ==> forall i, j :: 0 <= i < j < |r.value| ==> r.value[i] != r.value[j]
  {
    var ok := dag.Execute();
    if ok.Fail? {
      return None;
    }
    var fs := Drain(dag);
    ExecutionOrderListsEachFunctionOnce(fs, dag.functions, dag.graph);
    r := Some(fs);
  }

  /**
   * A workflow of two functions with one dependency runs the dependency
   * first: its only execution order is the two functions, source first.
   */
  lemma ChainExecutionOrder(fs: seq<Function>, functions: map<NodeId, Function>, a: NodeId, b: NodeId)
    requires a != b && functions.Keys == {a, b}
    requires IsExecutionOrder(fs, functions, Graph([a, b], {(a, b)}))
    ensures fs == [functions[a], functions[b]]
  {
    ChainHasOneOrder(a, b, Ids(fs));
    assert fs[0].uniqueId == a && fs[1].uniqueId == b;
  }

  /** An empty workflow hands out nothing: the first request for a function gets None. */
  method EmptyScenario() returns (r: Option<Function>)
    ensures r == None
  {
    var dag := new Dag("empty", [], None);
    EdgelessIsAcyclic(dag.graph);
    var ok := dag.Execute();
    assert |dag.order| == |Ids(dag.order)| == 0;
    r := dag.NextFunction();
  }

  /** Once executed, a workflow rejects new functions and new edges. */
  method SealedScenario(f: Function, g: Function) returns (r1: Outcome<DagError>, r2: Outcome<DagError>)
    ensures r1 == Fail(SealedError) && r2 == Fail(SealedError)
  {
    var dag := new Dag("sealed", [], None);
    var ok := dag.Execute();
    assert dag.sealed;
    r1 := dag.AddFunction(f);
    r2 := dag.AddEdge(f, g);
  }
}
