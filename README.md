# Workflow DAG and inference executor, modelled in Dafny

This project models two pieces of a serverless-inference simulator:

- **The workflow DAG** (`simulator/dag.py`). A `Function` record holds an id and its per-resource execution costs. A `Dag` is a map from ids to functions plus a dependency graph over the ids. It is built with `add_function` / `add_edge`, checked with `sanity_check`, and queried for a topological execution order. Finally it is sealed by `execute`, and a cursor walks it with `has_next_function` / `peek_next_function` / `next_function`.
- **The clockwork inference executor** (`workloads/clockwork/executors/infer_executor.py`). On each tick it takes the head of its request queue and runs the admission loop over it. Then it puts the entry back, advances its clock, counts down the running request and reports its completion.

## Layout

| file | module | contents |
|---|---|---|
| `wrappers.dfy` | `Wrappers` | `Option`, and `Outcome` for operations that fail an assertion |
| `digraph.dfy` | `DiGraphs` | the graph value. Its nodes are kept in insertion order and its edges as a set of pairs. Acyclicity is the absence of a closed walk. The topological sort is Kahn's algorithm, proved to succeed exactly on acyclic graphs with every edge pointing forward. |
| `dag.dfy` | `FunctionDag` | `Function`, the `Dag` class with its fields updated in place, the cursor protocol and client methods |
| `messages.dfy` | `Messages` | `Action` and `Result`, with the four result messages as tags |
| `request_queue.dfy` | `RequestQueues` | the priority queue as an ordered sequence: `get` takes the head, `put` inserts after every entry that is not later |
| `infer_executor.dfy` | `InferExecutors` | the admission loop as written, `StepOf` for one tick on values, the `InferExecutor` class with `Step`, and the intended admission policy `Examine` / `StepAsSpecified` |

`Step` models the code as written. Its contract ties the new fields and the responses to `StepOf` of the old state. The properties of a tick are proved about `StepOf` as lemmas.

The admission loop is also modelled as a pure function, `RunLoop`, that runs for at most `k` tests of its condition. The lemmas about `RunLoop` show on which inputs the loop never ends or fails a lookup. `Step` requires that these inputs are excluded.

`StepAsSpecified` models the intended admission policy, `Examine`, and is proved against it:

- an eligible entry for an unknown model, or past its last admission tick, is dropped with one error, and the next entry is examined;
- an entry whose model is not loaded is reported once and put back, and examination stops;
- an admissible entry is taken off the queue and becomes the current action.

The code departs from this policy in the ways listed under Findings:

- an unknown model makes a free executor fail a lookup, while a busy executor reports one error and leaves the loop;
- a late entry, or on a free executor an unloaded model, keeps the loop running forever;
- the head is put back even when admitted;
- an idle tick that admits nothing fails while building a completion message.

The countdown starts on the admission tick itself: lines 71-73 decrement `timeLeft` right after line 53 sets it. An admitted request of cost `n > 1` therefore completes `n - 1` ticks after the tick that admits it (`StepAdmitsOrCountsDown`). `StepAsSpecified` does not count down on the admission tick: it sets the full cost, so a request of cost `n` completes `n` ticks after the tick that admits it.

## Model

| member | source | states |
|---|---|---|
| DiGraphs.EmptyGraph | simulator/dag.py:28 | a new graph has no nodes and no edges |
| DiGraphs.AddNode | simulator/dag.py:43 | adding a node adds exactly that id, at the end of the node order, and only when it is missing; edges are unchanged |
| DiGraphs.AddEdge | simulator/dag.py:51 | adding an edge adds each missing endpoint, source first, plus exactly the edge `(u, v)` |
| DiGraphs.Kahn | simulator/dag.py:70 | a result is a topological order of the remaining nodes (same multiset, every edge forward); a failure comes with a cycle |
| DiGraphs.NoSourceMeansCycle | simulator/dag.py:70 | when every remaining node has a remaining predecessor, the edges contain a cycle |
| DiGraphs.TopologicalOrderMeansAcyclic | simulator/dag.py:70 | a graph with a topological order of its nodes has no cycle |
| DiGraphs.TopologicalSort | simulator/dag.py:76 | the sort succeeds exactly on acyclic graphs, and its result lists the nodes with every edge pointing forward |
| DiGraphs.IsDirectedAcyclicGraph | simulator/dag.py:59 | true exactly when the graph has no cycle; a self-edge counts as a cycle |
| DiGraphs.TopologicalOrderIsPermutation | simulator/dag.py:70 | a topological order has as many entries as nodes, repeats none, and contains exactly the nodes |
| DiGraphs.ChainHasOneOrder | simulator/dag.py:70 | two nodes joined by one edge have exactly one topological order, source first |
| DiGraphs.ChainOrder | simulator/dag.py:70 | the sort of the chain `a -> b` is `[a, b]` |
| DiGraphs.EdgelessIsAcyclic | simulator/dag.py:59 | a graph without edges has no cycle |
| FunctionDag.Lookup | simulator/dag.py:71 | mapping ids to their functions keeps the order: entry `i` is the function filed under id `i` |
| FunctionDag.ExecutionOrderListsEachFunctionOnce | simulator/dag.py:69-71 | an execution order lists every function of the workflow exactly once and nothing else |
| FunctionDag.ChainExecutionOrder | simulator/dag.py:69-71 | the only execution order of the workflow `A -> B` is `[A, B]` |
| FunctionDag.Dag.constructor | simulator/dag.py:24-31 | a new workflow is unsealed, holds exactly the given functions keyed by id, and its graph has their ids as nodes, in order, with no edges |
| FunctionDag.Dag.Contains | simulator/dag.py:33-34 | membership by id, which is also membership in the graph's node set |
| FunctionDag.Dag.GetItem | simulator/dag.py:36-37 | the function filed under an id carries that id and belongs to the workflow |
| FunctionDag.Dag.AddFunction | simulator/dag.py:39-43 | fails on a sealed workflow or a duplicate id, changing nothing; otherwise adds exactly that function and a node for its id, and the key set still equals the node set |
| FunctionDag.Dag.AddEdge | simulator/dag.py:45-51 | fails on a sealed workflow, changing nothing. Otherwise it adds each missing endpoint's function, keeps the functions already present unchanged, and adds the edge. |
| FunctionDag.Dag.SanityCheck | simulator/dag.py:53-59 | passes exactly when the key set equals the node set and the graph is acyclic; reports which of the two assertions fails |
| FunctionDag.Dag.TopologicalExecutionOrder | simulator/dag.py:69-71 | an order exists exactly when the graph is acyclic, and it is an execution order of the workflow's functions |
| FunctionDag.Dag.Execute | simulator/dag.py:74-78 | seals the workflow in every case. On an acyclic graph it stores the execution order and puts the cursor at its start; on a cyclic graph it fails and leaves the cursor as it was. |
| FunctionDag.Dag.HasNextFunction | simulator/dag.py:87-88 | true exactly when the cursor has functions left |
| FunctionDag.Dag.PeekNextFunction | simulator/dag.py:90-94 | the function at the cursor, or None at the end; nothing moves |
| FunctionDag.Dag.NextFunction | simulator/dag.py:80-85 | at the end: None, cursor unchanged; otherwise the function at the cursor, and the cursor moves past it |
| FunctionDag.Drain | simulator/dag.py:80-88 | calling `NextFunction` while `HasNextFunction` holds yields exactly the remaining functions, in order |
| FunctionDag.ExecuteAndDrain | simulator/dag.py:74-94 | executing and then draining yields a result exactly when the graph is acyclic. The result is the stored execution order: every function once, every dependency first. |
| FunctionDag.EmptyScenario | simulator/dag.py:74-85 | an executed empty workflow hands out nothing: the first `NextFunction` returns None |
| FunctionDag.SealedScenario | simulator/dag.py:39-51 | after `Execute`, adding a function or an edge fails with the sealed error |
| RequestQueues.InsertionIndex | workloads/clockwork/executors/infer_executor.py:68 | `put` places an entry after every entry that is not later and before every later one |
| RequestQueues.Put | workloads/clockwork/executors/infer_executor.py:68 | `put` keeps the queue ordered and adds exactly the one entry |
| RequestQueues.HeadIsEarliest | workloads/clockwork/executors/infer_executor.py:26 | `get` hands out an entry with the smallest earliest tick |
| RequestQueues.GetThenPutKeepsEntries | workloads/clockwork/executors/infer_executor.py:26 | taking the head and putting it back leaves the same entries queued |
| InferExecutors.AdmissionPass | workloads/clockwork/executors/infer_executor.py:28-66 | one pass of the loop body: when it admits, is left by the busy `break`, repeats without `break`, or raises; the errors it appends and the cost it admits with |
| InferExecutors.RepeatedPassNeverExits | workloads/clockwork/executors/infer_executor.py:27-66 | a pass without `break` changes neither clock nor entry, so every later pass repeats it: the loop keeps running and appends the same errors each time |
| InferExecutors.DeadlineMissedNeverExits | workloads/clockwork/executors/infer_executor.py:57-66 | for an eligible entry past its last admission tick, the loop never exits |
| InferExecutors.NotLoadedNeverExits | workloads/clockwork/executors/infer_executor.py:40-49 | on a free executor, for a known model that is not loaded, the loop never exits |
| InferExecutors.UnknownModelRaises | workloads/clockwork/executors/infer_executor.py:28-39 | on a free executor, a timely entry for an unknown model gets its error and then fails the catalogue lookup |
| InferExecutors.RunLoop | workloads/clockwork/executors/infer_executor.py:27-66 | the loop as written, run for a bounded number of tests: it exits only through its two `break`s or by not running, and it admits exactly when its pass admits, with that pass's cost. It crashes only on a lookup error, and once it runs at all it exits whenever it can. Responses are only appended. |
| InferExecutors.LoopLeavesIffSomeRunExits | workloads/clockwork/executors/infer_executor.py:27-66 | `Step`'s loop precondition holds exactly when some run of the loop exits |
| InferExecutors.CountdownOf | workloads/clockwork/executors/infer_executor.py:71-86 | a positive countdown goes down by one. At zero, the current action completes with one success observed at the incremented clock. The tick fails when it completes with no current action. |
| InferExecutors.StepOf | workloads/clockwork/executors/infer_executor.py:24-87 | the queue stays ordered, and an action is running exactly while ticks are left |
| InferExecutors.StepKeepsEntries | workloads/clockwork/executors/infer_executor.py:68 | the entry taken off is put back: the queue holds the same multiset of entries after a tick |
| InferExecutors.StepAdmitsOrCountsDown | workloads/clockwork/executors/infer_executor.py:50-73 | an admitted head becomes the current action, with its receipt tick and its cost less the tick just spent; otherwise the receipt tick is unchanged and a running countdown goes down by one |
| InferExecutors.StepErrorsComeFromHead | workloads/clockwork/executors/infer_executor.py:27-66 | a head that is not yet eligible produces no error. Every error is about the head and carries its receipt tick and the pre-increment clock. A busy executor reports only an unknown model. |
| InferExecutors.StepCompletes | workloads/clockwork/executors/infer_executor.py:75-86 | a success is appended exactly when no ticks are left. It is the last response, for the admitted or running action, with the receipt tick and the incremented clock. Every earlier response is an error. |
| InferExecutors.IdleTickWithoutAdmissionFails | workloads/clockwork/executors/infer_executor.py:27-83 | on a free executor whose loop leaves without admitting, the head was not yet eligible and the loop exits with no responses. The tick then ends with no current action and no ticks left, and fails at the completion message. |
| InferExecutors.Examine | workloads/clockwork/executors/infer_executor.py:27-66 | the intended policy keeps the queue ordered |
| InferExecutors.ExamineKeepsEntries | workloads/clockwork/executors/infer_executor.py:27-68 | the intended policy loses no entry: each is left queued, dropped or taken |
| InferExecutors.ExamineDropsOnlyTerminal | workloads/clockwork/executors/infer_executor.py:28-66 | only eligible entries for an unknown model or past their deadline are dropped |
| InferExecutors.ExamineReportsDrops | workloads/clockwork/executors/infer_executor.py:28-66 | each dropped entry gets its own error, in queue order, and a put-back entry gets one "not loaded" error at the end |
| InferExecutors.ExamineHaltReason | workloads/clockwork/executors/infer_executor.py:37-56 | examination stops at an eligible, timely entry with a known model, taking it exactly when its model is loaded and otherwise putting it back. It also stops when no entry is eligible. |
| InferExecutors.ExamineStops | workloads/clockwork/executors/infer_executor.py:37-54 | at an eligible, timely head with a known model, examination takes the head when its model is loaded and otherwise reports it and puts it back |
| InferExecutors.InferExecutor.constructor | workloads/clockwork/executors/infer_executor.py:16-21 | a new executor is idle at clock 0 with no ticks left and receipt tick -1 |
| InferExecutors.InferExecutor.Admission | workloads/clockwork/executors/infer_executor.py:27-66 | the loop admits the entry (current action, cost, receipt tick) exactly when it runs and its pass admits. Otherwise it leaves the state alone and returns the pass's errors. |
| InferExecutors.InferExecutor.Tick | workloads/clockwork/executors/infer_executor.py:70-86 | the clock goes up by one and the countdown and completion are those of `CountdownOf` |
| InferExecutors.InferExecutor.Step | workloads/clockwork/executors/infer_executor.py:24-87 | the clock goes up by one; responses, queue, current action, ticks left and receipt tick are those of `StepOf` on the old state |
| InferExecutors.InferExecutor.ExamineQueue | workloads/clockwork/executors/infer_executor.py:27-66 | the examination loop returns exactly the errors, the queue and the stop reason of `Examine` |
| InferExecutors.InferExecutor.AdmitNext | workloads/clockwork/executors/infer_executor.py:27-66 | an idle executor takes on the entry `Examine` admits, with its receipt tick and positive cost; otherwise it stays idle |
| InferExecutors.InferExecutor.StepAsSpecified | workloads/clockwork/executors/infer_executor.py:24-87 | the intended tick. The clock goes up by one. A busy executor only counts down and completes. An idle one follows `Examine`: it never blocks, never loops forever and never fails a lookup. |

## Left out

- The graph library's internals are not part of this model. The sort is Kahn's algorithm, which emits the first remaining source in node-insertion order. The library's order between independent nodes may differ. Only the contract (a permutation with every edge forward, failing exactly on a cycle) is stated.
- `get_dep_graph_original` and `get_dep_graph_copy` are not modelled: they hand out the graph object or a deep copy of it, and aliasing through the returned reference is outside the model.
- The resource is not part of this model. "Is this model loaded" is the function parameter `isAllocated`, and the resource's name is the field `resourceName`. The tag argument is ignored.
- The base executor is not part of this model. Its fields are assumed to be `clock`, the queue, `currentAction` and `timeLeft`, and "free" means no current action. Its `None` for `timeLeft` is modelled as 0. The worker's display name is left out.
- Message texts are left out; a result carries one of four message tags.
- The priority queue's blocking `get` and its thread safety are left out; `Step` requires a non-empty queue. Entries with equal earliest ticks leave in the order they were put. The model does not compare their actions.
- `slo` is stored by the constructor and never read.
- The simulation driver, and running several executors, are left out.
- A failed assertion in `add_function`, `add_edge` or `sanity_check` is returned as an `Outcome` failure with the state unchanged, not raised.
- The sort's exception on a cyclic graph becomes `None` in `TopologicalExecutionOrder` and `Fail(NotAcyclic)` in `Execute`. `Execute` has set `sealed` before it fails, as the source does at line 75. Only the cursor is left as it was.
- FunctionDag.Dag.constructor: requires distinct ids, because a duplicate makes the constructor's `add_function` assertion fail and no workflow is built.
- FunctionDag.Dag.GetItem: requires the id to be present, because a missing id is a lookup error there.
- FunctionDag.Dag.HasNextFunction, FunctionDag.Dag.PeekNextFunction and FunctionDag.Dag.NextFunction require a successful `Execute`, because the cursor fields do not exist before it.
- InferExecutors.InferExecutor.Step: requires that the loop leaves through a `break` and that an idle executor admits its head. On other inputs the code never returns or raises (see Findings), and such runs are stated about `RunLoop` and `CountdownOf` instead.
- InferExecutors.InferExecutor.StepAsSpecified: requires every known model to have a positive cost for the batch keys its queued requests ask for. A zero cost would make an admitted request complete with no countdown, which the intended policy does not define.

## Findings

| source | as written | input that shows it | evidently intended | confidence | as-written member | corrected member |
|---|---|---|---|---|---|---|
| workloads/clockwork/executors/infer_executor.py:57-66 | a request past its last admission tick gets an error, and the loop tests the same unchanged condition again | clock 10, head entry with earliest 0 and latest 5: the loop appends an error forever | drop the late request with one error and examine the next entry | high, not executed | InferExecutors.DeadlineMissedNeverExits | InferExecutors.ExamineReportsDrops |
| workloads/clockwork/executors/infer_executor.py:40-49 | on a free executor, a request whose model is not loaded gets an error, and the loop repeats | free executor, known model with `isAllocated` false, clock within the deadline: the loop never ends | report once, put the entry back and stop for this tick | high, not executed | InferExecutors.NotLoadedNeverExits | InferExecutors.ExamineHaltReason |
| workloads/clockwork/executors/infer_executor.py:28-39 | on a free executor, a request for an unknown model gets its error and then fails the lookup on line 39 | free executor, head for a model missing from `models`, clock within the deadline: lookup error | drop the request with one "not recognized" error | high, not executed | InferExecutors.UnknownModelRaises | InferExecutors.ExamineDropsOnlyTerminal |
| workloads/clockwork/executors/infer_executor.py:68 | the entry taken off the queue is put back even after it is admitted | one admissible entry of cost 1 whose last admission tick is at least the next tick: it runs on this tick and is still queued. If its model is still loaded, it is admitted again on the next tick | an admitted entry leaves the queue | medium, not executed | InferExecutors.StepKeepsEntries | InferExecutors.ExamineKeepsEntries |
| workloads/clockwork/executors/infer_executor.py:76-83 | an idle executor with no ticks left reaches the completion message when nothing was admitted, and reads the absent current action | new executor, head entry with earliest 5 at clock 0: the tick fails while building the message | report a completion only when a running countdown reaches zero | medium, not executed | InferExecutors.IdleTickWithoutAdmissionFails | InferExecutors.InferExecutor.StepAsSpecified |
