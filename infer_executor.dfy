/**
 * The inference executor of the clockwork workload: a per-tick state machine
 * that examines the head of its request queue, admits it or reports why not,
 * puts it back, advances its clock and counts down the running request.
 *
 * The admission loop is modelled as written, defects included: the contract
 * of `Step` excludes the inputs on which the loop never ends or a lookup
 * fails, and the lemmas about `RunLoop` and `CountdownOf` exhibit those inputs.
 */
module InferExecutors {
  import opened Wrappers
  import opened Messages
  import opened RequestQueues
  import opened FunctionDag

  /**
   * What the admission loop sees during one tick: none of it changes inside
   * the loop. `isAllocated` is the resource's answer to "is this model
   * loaded", which the executor only queries.
   */
  datatype View = View(
    clock: int,
    free: bool,
    models: map<string, Function>,
    resourceName: string,
    isAllocated: Function -> bool)

  /** What one pass through the body of the admission loop does. */
  datatype BodyRun =
    | Admitted(ticks: nat)          // the entry is admitted, then `break`
    | Left(errors: seq<Result>)     // the executor is busy: `break`
    | Repeated(errors: seq<Result>) // no `break`: the condition is tested again
    | Raised(errors: seq<Result>)   // a dictionary lookup raises KeyError

  function ErrorFor(e: Entry, clock: int, m: Message): Result
  {
    Result(Error, e.action, e.recv, clock, m)
  }

  predicate Known(v: View, e: Entry)
  {
    e.action.modelName in v.models
  }

  /** The model's execution time on this resource for the request's batch key exists. */
  predicate HasCost(v: View, e: Entry)
    requires Known(v, e)
  {
    var model := v.models[e.action.modelName];
    v.resourceName in model.resources && e.action.batchKey in model.resources[v.resourceName]
  }

  /** One pass through the loop body for the entry `e`. */
  function AdmissionPass(v: View, e: Entry): (p: BodyRun)
    ensures p.Admitted? <==> v.clock <= e.action.latest && v.free && Known(v, e)
                             && v.isAllocated(v.models[e.action.modelName]) && HasCost(v, e)
    ensures p.Admitted? ==> p.ticks == v.models[e.action.modelName].resources[v.resourceName][e.action.batchKey]
    ensures p.Left? <==> v.clock <= e.action.latest && !v.free
    ensures p.Left? ==> p.errors == if Known(v, e) then [] else [ErrorFor(e, v.clock, NotRecognized)]
    ensures p.Repeated? <==> v.clock > e.action.latest
                             || (v.free && Known(v, e) && !v.isAllocated(v.models[e.action.modelName]))
    ensures p.Repeated? ==> |p.errors| > 0
    ensures !p.Admitted? ==> forall r :: r in p.errors ==>
              r.code == Error && r.action == e.action && r.recv == e.recv && r.observed == v.clock
  {
    var unknown := if Known(v, e) then [] else [ErrorFor(e, v.clock, NotRecognized)];
    if v.clock <= e.action.latest then
      if v.free then
        if !Known(v, e) then Raised(unknown)
        else
          var model := v.models[e.action.modelName];
          if !v.isAllocated(model) then Repeated([ErrorFor(e, v.clock, NotLoaded)])
          else if HasCost(v, e) then Admitted(model.resources[v.resourceName][e.action.batchKey])
          else Raised([])
      else Left(unknown)
    else Repeated(unknown + [ErrorFor(e, v.clock, NotInTime)])
  }

  /** The loop leaves through a `break`, or does not run at all. */
  predicate LoopLeaves(v: View, e: Entry)
  {
    v.clock < e.earliest || AdmissionPass(v, e).Admitted? || AdmissionPass(v, e).Left?
  }

  /** The loop runs for `e` and its pass admits it. */
  predicate Admits(v: View, e: Entry)
  {
    v.clock >= e.earliest && AdmissionPass(v, e).Admitted?
  }

  /** Where the loop is after at most `k` tests of its condition. */
  datatype LoopRun =
    | Running(responses: seq<Result>)
    | Exited(responses: seq<Result>, admitted: Option<nat>)
    | Crashed(responses: seq<Result>)

  /**
   * The admission loop as written, run for at most `k` tests of its
   * condition, from responses `acc`. It exits only through its two
   * `break`s or by not running, admitting exactly when its pass admits, and
   * it crashes only on a lookup error.
   */
  function RunLoop(v: View, e: Entry, k: nat, acc: seq<Result>): (r: LoopRun)
    ensures acc <= r.responses
    ensures r.Exited? ==> LoopLeaves(v, e) && (r.admitted.Some? <==> Admits(v, e))
    ensures r.Exited? && r.admitted.Some? ==> r.admitted.value == AdmissionPass(v, e).ticks
    ensures r.Crashed? ==> v.clock >= e.earliest && AdmissionPass(v, e).Raised?
    ensures k > 0 && LoopLeaves(v, e) ==> r.Exited?
    decreases k
  {
    if k == 0 then Running(acc)
    else if v.clock < e.earliest then Exited(acc, None)
    else match AdmissionPass(v, e)
      case Admitted(ticks) => Exited(acc, Some(ticks))
      case Left(errors) => Exited(acc + errors, None)
      case Repeated(errors) => RunLoop(v, e, k - 1, acc + errors)
      case Raised(errors) => Crashed(acc + errors)
  }

  function Copies(s: seq<Result>, k: nat): seq<Result>
  {
    if k == 0 then [] else s + Copies(s, k - 1)
  }

  /**
   * The loop body changes neither the clock nor the entry, so once a pass
   * ends without `break` the condition still holds and every later pass is
   * the same: the loop never exits and appends the same errors each time.
   */
  lemma {:induction false} RepeatedPassNeverExits(v: View, e: Entry, k: nat, acc: seq<Result>)
    requires v.clock >= e.earliest && AdmissionPass(v, e).Repeated?
    ensures RunLoop(v, e, k, acc) == Running(acc + Copies(AdmissionPass(v, e).errors, k))
    ensures |RunLoop(v, e, k, acc).responses| >= |acc| + k
  {
    var errors := AdmissionPass(v, e).errors;
    if k > 0 {
      RepeatedPassNeverExits(v, e, k - 1, acc + errors);
      assert acc + errors + Copies(errors, k - 1) == acc + Copies(errors, k);
    }
  }

  /** A request whose last admission tick has passed keeps the loop running forever. */
  lemma DeadlineMissedNeverExits(v: View, e: Entry)
    requires v.clock >= e.earliest && v.clock > e.action.latest
    ensures forall k: nat :: RunLoop(v, e, k, []).Running?
  {
    forall k: nat ensures RunLoop(v, e, k, []).Running? {
      RepeatedPassNeverExits(v, e, k, []);
    }
  }

  /** On a free executor, a known model that is not loaded keeps the loop running forever. */
  lemma NotLoadedNeverExits(v: View, e: Entry)
    requires v.clock >= e.earliest && v.clock <= e.action.latest && v.free
    requires Known(v, e) && !v.isAllocated(v.models[e.action.modelName])
    ensures forall k: nat :: RunLoop(v, e, k, []).Running?
  {
    forall k: nat ensures RunLoop(v, e, k, []).Running? {
      RepeatedPassNeverExits(v, e, k, []);
    }
  }

  /**
   * On a free executor, a timely request for an unknown model gets its
   * "not recognized" error and then fails the catalogue lookup.
   */
  lemma UnknownModelRaises(v: View, e: Entry, k: nat)
    requires v.clock >= e.earliest && v.clock <= e.action.latest && v.free && !Known(v, e)
    requires k > 0
    ensures RunLoop(v, e, k, []) == Crashed([ErrorFor(e, v.clock, NotRecognized)])
  {
  }

  /** `LoopLeaves` holds exactly when some run of the loop as written exits. */
  lemma LoopLeavesIffSomeRunExits(v: View, e: Entry)
    ensures LoopLeaves(v, e) <==> exists k: nat :: RunLoop(v, e, k, []).Exited?
  {
    if LoopLeaves(v, e) {
      assert RunLoop(v, e, 1, []).Exited?;
    }
    if exists k: nat :: RunLoop(v, e, k, []).Exited? {
      var k: nat :| RunLoop(v, e, k, []).Exited?;
      assert LoopLeaves(v, e);
    }
  }

  /** The running action and the responses the end of a tick leaves. */
  datatype Countdown = Countdown(done: seq<Result>, current: Option<Action>, timeLeft: nat)

  /**
   * The end of a tick at `clock`: a positive countdown goes down by one, and
   * once none is left the current action completes with a success observed
   * at the incremented clock. None when the completion message would read an
   * absent current action.
   */
  function CountdownOf(clock: int, current: Option<Action>, timeLeft: nat, recv: int): (r: Option<Countdown>)
    ensures r.None? <==> timeLeft <= 1 && current.None?
    ensures r.Some? ==> r.value.timeLeft == (if timeLeft > 0 then timeLeft - 1 else 0)
    ensures r.Some? && r.value.timeLeft > 0 ==> r.value.current == current && r.value.done == []
    ensures r.Some? && r.value.timeLeft == 0 ==>
              r.value.done == [Result(Success, current.value, recv, clock + 1, InferRan)]
  {
    var left := if timeLeft > 0 then timeLeft - 1 else 0;
    if left > 0 then Some(Countdown([], current, left))
    else if current.None? then None
    else Some(Countdown([Result(Success, current.value, recv, clock + 1, InferRan)], None, 0))
  }

  /** The executor state one tick of `step` leaves, with the responses it returns. */
  datatype TickResult = TickResult(responses: seq<Result>, queue: seq<Entry>, current: Option<Action>, timeLeft: nat, recv: int)

  /**
   * One tick of `step` as written, on values: the head entry is taken off,
   * examined by the admission loop and put back; then the clock advances, a
   * countdown goes down and at zero the current action completes. The loop
   * must leave, and an idle executor must admit the head (the completion
   * message needs a current action).
   */
  function StepOf(v: View, q: seq<Entry>, current: Option<Action>, timeLeft: nat, recv: int): (t: TickResult)
    requires Sorted(q) && |q| > 0 && v.free == current.None?
    requires LoopLeaves(v, q[0]) && (current.Some? || Admits(v, q[0]))
    ensures Sorted(t.queue)
    ensures t.current.Some? <==> t.timeLeft > 0
  {
    var e := q[0];
    var p := AdmissionPass(v, e);
    var errors := if v.clock >= e.earliest && !p.Admitted? then p.errors else [];
    var action := if Admits(v, e) then Some(e.action) else current;
    var left := if Admits(v, e) then p.ticks else timeLeft;
    var received := if Admits(v, e) then e.recv else recv;
    var c := CountdownOf(v.clock, action, left, received).value;
    TickResult(errors + c.done, Put(q[1..], e), c.current, c.timeLeft, received)
  }

  /** A tick of `step` puts the head entry back: the same entries stay queued. */
  lemma StepKeepsEntries(v: View, q: seq<Entry>, current: Option<Action>, timeLeft: nat, recv: int)
    requires Sorted(q) && |q| > 0 && v.free == current.None?
    requires LoopLeaves(v, q[0]) && (current.Some? || Admits(v, q[0]))
    ensures multiset(StepOf(v, q, current, timeLeft, recv).queue) == multiset(q)
  {
    GetThenPutKeepsEntries(q);
  }

  /**
   * An admitted head becomes the current action, with its cost already
   * counted down once; otherwise a running countdown goes down by one.
   */
  lemma StepAdmitsOrCountsDown(v: View, q: seq<Entry>, current: Option<Action>, timeLeft: nat, recv: int)
    requires Sorted(q) && |q| > 0 && v.free == current.None?
    requires LoopLeaves(v, q[0]) && (current.Some? || Admits(v, q[0]))
    ensures var t := StepOf(v, q, current, timeLeft, recv);
              Admits(v, q[0]) ==>
                var ticks := AdmissionPass(v, q[0]).ticks;
                && t.recv == q[0].recv
                && t.timeLeft == (if ticks > 0 then ticks - 1 else 0)
                && t.current == (if ticks > 1 then Some(q[0].action) else None)
    ensures var t := StepOf(v, q, current, timeLeft, recv);
              !Admits(v, q[0]) ==> t.recv == recv
    ensures var t := StepOf(v, q, current, timeLeft, recv);
              current.Some? ==>
                && t.timeLeft == (if timeLeft > 0 then timeLeft - 1 else 0)
                && (t.timeLeft > 0 ==> t.current == current)
  {
  }

  /**
   * Errors come only from an eligible head, carry its receipt tick and the
   * tick before the increment; a busy executor reports only an unknown model.
   */
  lemma StepErrorsComeFromHead(v: View, q: seq<Entry>, current: Option<Action>, timeLeft: nat, recv: int)
    requires Sorted(q) && |q| > 0 && v.free == current.None?
    requires LoopLeaves(v, q[0]) && (current.Some? || Admits(v, q[0]))
    ensures var t := StepOf(v, q, current, timeLeft, recv);
              v.clock < q[0].earliest ==> forall r :: r in t.responses ==> r.code == Success
    ensures var t := StepOf(v, q, current, timeLeft, recv);
              forall r :: r in t.responses && r.code == Error ==>
                r.action == q[0].action && r.recv == q[0].recv && r.observed == v.clock
    ensures var t := StepOf(v, q, current, timeLeft, recv);
              current.Some? && v.clock >= q[0].earliest ==>
                |t.responses| == (if Known(v, q[0]) then 0 else 1) + (if t.timeLeft == 0 then 1 else 0)
  {
  }

  /** Exactly one success, last among the responses, exactly when no ticks are left. */
  lemma StepCompletes(v: View, q: seq<Entry>, current: Option<Action>, timeLeft: nat, recv: int)
    requires Sorted(q) && |q| > 0 && v.free == current.None?
    requires LoopLeaves(v, q[0]) && (current.Some? || Admits(v, q[0]))
    ensures var t := StepOf(v, q, current, timeLeft, recv);
              t.timeLeft == 0 <==> |t.responses| > 0 && t.responses[|t.responses| - 1].code == Success
    ensures var t := StepOf(v, q, current, timeLeft, recv);
              t.timeLeft == 0 ==>
                var last := t.responses[|t.responses| - 1];
                && last.recv == t.recv && last.observed == v.clock + 1 && last.message == InferRan
                && last.action == (if Admits(v, q[0]) then q[0].action else current.value)
    ensures var t := StepOf(v, q, current, timeLeft, recv);
              forall i :: 0 <= i < |t.responses| - 1 ==> t.responses[i].code == Error
  {
  }

  /**
   * On an idle executor the loop can leave without admitting only because
   * the head is not yet eligible. The tick then ends with no current action
   * and no ticks left (a valid idle executor has none), so it reaches the
   * completion message with no current action and fails there.
   */
  lemma IdleTickWithoutAdmissionFails(v: View, e: Entry, recv: int)
    requires v.free && LoopLeaves(v, e) && !Admits(v, e)
    ensures v.clock < e.earliest && RunLoop(v, e, 1, []) == Exited([], None)
    ensures CountdownOf(v.clock, None, 0, recv).None?
  {
  }

  // The intended admission policy, for comparison with the loop as written:
  // entries for an unknown model or past their last admission tick are
  // dropped with an error and the next entry is examined; an entry whose
  // model is not loaded is reported and put back, and examination stops; an
  // admissible entry is taken off the queue.

  /** How examination of the queue ends. */
  datatype Halt =
    | Idle            // the queue is empty or its head is not yet eligible
    | Requeued(entry: Entry)  // the model of `entry` is not loaded: reported and put back
    | Took(entry: Entry)      // `entry` is admitted and leaves the queue

  datatype Examination = Examination(errors: seq<Result>, dropped: seq<Entry>, queue: seq<Entry>, halt: Halt)

  /** Every known model a queued entry asks for has a positive cost for its batch key. */
  predicate CostsDefined(v: View, q: seq<Entry>)
  {
    forall e :: e in q && Known(v, e) ==>
      HasCost(v, e) && v.models[e.action.modelName].resources[v.resourceName][e.action.batchKey] > 0
  }

  function CostOf(v: View, e: Entry): nat
    requires Known(v, e) && HasCost(v, e)
  {
    v.models[e.action.modelName].resources[v.resourceName][e.action.batchKey]
  }

  /** The error a dropped entry is reported with. */
  function DropError(v: View, e: Entry): Result
  {
    ErrorFor(e, v.clock, if Known(v, e) then NotInTime else NotRecognized)
  }

  /** The entry examination takes off the queue for good by admitting it. */
  function TakenBy(h: Halt): multiset<Entry>
  {
    if h.Took? then multiset{h.entry} else multiset{}
  }

  /** Examining the queue from its head under the intended policy. */
  function Examine(v: View, q: seq<Entry>): (x: Examination)
    requires Sorted(q)
    ensures Sorted(x.queue)
    decreases |q|
  {
    if q == [] || v.clock < q[0].earliest then Examination([], [], q, Idle)
    else
      var e := q[0];
      if !Known(v, e) || v.clock > e.action.latest then
        var x := Examine(v, q[1..]);
        Examination([DropError(v, e)] + x.errors, [e] + x.dropped, x.queue, x.halt)
      else if !v.isAllocated(v.models[e.action.modelName]) then
        Examination([ErrorFor(e, v.clock, NotLoaded)], [], Put(q[1..], e), Requeued(e))
      else
        Examination([], [], q[1..], Took(e))
  }

  /** Examination loses no entry: each is left queued, dropped, or taken. */
  lemma {:induction false} ExamineKeepsEntries(v: View, q: seq<Entry>)
    requires Sorted(q)
    ensures var x := Examine(v, q);
              multiset(q) == multiset(x.queue) + multiset(x.dropped) + TakenBy(x.halt)
    decreases |q|
  {
    if q != [] && v.clock >= q[0].earliest {
      assert q == [q[0]] + q[1..];
      if !Known(v, q[0]) || v.clock > q[0].action.latest {
        ExamineKeepsEntries(v, q[1..]);
      } else if !v.isAllocated(v.models[q[0].action.modelName]) {
        GetThenPutKeepsEntries(q);
      }
    }
  }

  /** Only eligible entries for an unknown model or past their deadline are dropped. */
  lemma {:induction false} ExamineDropsOnlyTerminal(v: View, q: seq<Entry>)
    requires Sorted(q)
    ensures forall d :: d in Examine(v, q).dropped ==>
              d.earliest <= v.clock && (!Known(v, d) || v.clock > d.action.latest)
    decreases |q|
  {
    if q != [] && v.clock >= q[0].earliest && (!Known(v, q[0]) || v.clock > q[0].action.latest) {
      ExamineDropsOnlyTerminal(v, q[1..]);
      assert Examine(v, q).dropped == [q[0]] + Examine(v, q[1..]).dropped;
    }
  }

  /**
   * Each dropped entry gets its own error, in queue order; a put-back entry
   * adds one "not loaded" error at the end.
   */
  lemma {:induction false} ExamineReportsDrops(v: View, q: seq<Entry>)
    requires Sorted(q)
    ensures |Examine(v, q).errors| == |Examine(v, q).dropped| + (if Examine(v, q).halt.Requeued? then 1 else 0)
    ensures forall i :: 0 <= i < |Examine(v, q).dropped| ==>
              Examine(v, q).errors[i] == DropError(v, Examine(v, q).dropped[i])
    ensures Examine(v, q).halt.Requeued? ==>
              Examine(v, q).errors[|Examine(v, q).dropped|] == ErrorFor(Examine(v, q).halt.entry, v.clock, NotLoaded)
    decreases |q|
  {
    if q != [] && v.clock >= q[0].earliest && (!Known(v, q[0]) || v.clock > q[0].action.latest) {
      ExamineReportsDrops(v, q[1..]);
      var x := Examine(v, q[1..]);
      var y := Examine(v, q);
      assert y.errors == [DropError(v, q[0])] + x.errors && y.dropped == [q[0]] + x.dropped;
      assert y.halt == x.halt;
      forall i | 0 < i < |y.dropped| ensures y.errors[i] == DropError(v, y.dropped[i]) {
        assert y.errors[i] == x.errors[i - 1] && y.dropped[i] == x.dropped[i - 1];
      }
      if y.halt.Requeued? {
        assert y.errors[|y.dropped|] == x.errors[|x.dropped|];
      }
    }
  }

  /**
   * Examination stops at an eligible entry whose model is known and whose
   * deadline holds, putting it back if its model is not loaded and taking it
   * otherwise; or it stops when no entry is eligible.
   */
  lemma {:induction false} ExamineHaltReason(v: View, q: seq<Entry>)
    requires Sorted(q)
    ensures var x := Examine(v, q);
      && (x.halt.Requeued? || x.halt.Took? ==>
            var e := x.halt.entry;
            && e in q
            && e.earliest <= v.clock <= e.action.latest && Known(v, e)
            && v.isAllocated(v.models[e.action.modelName]) == x.halt.Took?)
      && (x.halt.Requeued? ==> x.halt.entry in x.queue)
      && (x.halt.Idle? ==> x.queue == [] || v.clock < x.queue[0].earliest)
    decreases |q|
  {
    if q != [] && v.clock >= q[0].earliest && (!Known(v, q[0]) || v.clock > q[0].action.latest) {
      ExamineHaltReason(v, q[1..]);
    } else if q != [] && v.clock >= q[0].earliest && !v.isAllocated(v.models[q[0].action.modelName]) {
      GetThenPutKeepsEntries(q);
      assert q[0] in multiset(Examine(v, q).queue);
    }
  }

  /** Examination stops at an eligible head whose model is known and whose deadline holds. */
  lemma ExamineStops(v: View, q: seq<Entry>)
    requires Sorted(q) && |q| > 0 && q[0].earliest <= v.clock
    requires Known(v, q[0]) && v.clock <= q[0].action.latest
    ensures Sorted(q[1..])
    ensures Examine(v, q) ==
      if v.isAllocated(v.models[q[0].action.modelName])
      then Examination([], [], q[1..], Took(q[0]))
      else Examination([ErrorFor(q[0], v.clock, NotLoaded)], [], Put(q[1..], q[0]), Requeued(q[0]))
  {
  }

  /** Examination past a terminal head entry is examination of the rest, after its error. */
  lemma ExamineDrop(v: View, q: seq<Entry>, acc: seq<Result>)
    requires Sorted(q) && |q| > 0 && q[0].earliest <= v.clock
    requires !Known(v, q[0]) || v.clock > q[0].action.latest
    ensures Sorted(q[1..])
    ensures acc + Examine(v, q).errors == (acc + [DropError(v, q[0])]) + Examine(v, q[1..]).errors
    ensures Examine(v, q).queue == Examine(v, q[1..]).queue && Examine(v, q).halt == Examine(v, q[1..]).halt
  {
    var x := Examine(v, q[1..]);
    assert Examine(v, q).errors == [DropError(v, q[0])] + x.errors;
    assert acc + ([DropError(v, q[0])] + x.errors) == (acc + [DropError(v, q[0])]) + x.errors;
  }

  class InferExecutor {
    var workerId: int
    var clock: int
    var requestQueue: seq<Entry>
    var currentAction: Option<Action>
    /** Ticks left for the current action; the source's `None` is 0. */
    var timeLeft: nat
    var resourceName: string
    var models: map<string, Function>
    /** The tick the current action was received at. */
    var actionRecieved: int

    /** The queue is ordered, and an action is running exactly while ticks are left. */
    ghost predicate Valid()
      reads this
    {
      Sorted(requestQueue) && (currentAction.Some? <==> timeLeft > 0)
    }

    constructor (workerId: int, requestQueue: seq<Entry>, resourceName: string, models: map<string, Function>)
      requires Sorted(requestQueue)
      ensures Valid()
      ensures this.workerId == workerId && this.requestQueue == requestQueue
      ensures this.resourceName == resourceName && this.models == models
      ensures clock == 0 && currentAction == None && timeLeft == 0 && actionRecieved == -1
    {
      this.workerId := workerId;
      clock := 0;
      this.requestQueue := requestQueue;
      currentAction := None;
      timeLeft := 0;
      this.resourceName := resourceName;
      this.models := models;
      actionRecieved := -1;
    }

    /** The executor's view of this tick, given the resource's answers. */
    function ViewOf(isAllocated: Function -> bool): View
      reads this
    {
      View(clock, currentAction.None?, models, resourceName, isAllocated)
    }

    /**
     * The admission loop of `Step` for the entry taken off the queue. It must
     * leave through a `break` (otherwise it never ends or a lookup raises).
     */
    method Admission(isAllocated: Function -> bool, e: Entry) returns (responses: seq<Result>)
      requires LoopLeaves(ViewOf(isAllocated), e)
      modifies this`currentAction, this`timeLeft, this`actionRecieved
      ensures var p := old(AdmissionPass(ViewOf(isAllocated), e));
                if old(clock) >= e.earliest && p.Admitted? then
                  && currentAction == Some(e.action) && timeLeft == p.ticks
                  && actionRecieved == e.recv && responses == []
                else
                  && currentAction == old(currentAction) && timeLeft == old(timeLeft)
                  && actionRecieved == old(actionRecieved)
                  && responses == (if old(clock) >= e.earliest then p.errors else [])
    {
      ghost var v := ViewOf(isAllocated);
      responses := [];
      // `stop` is set where the source breaks out of the loop
      var stop := false;
      while !stop && clock >= e.earliest
        invariant !stop ==> currentAction == old(currentAction) && timeLeft == old(timeLeft)
                            && actionRecieved == old(actionRecieved) && responses == []
        invariant stop ==> clock >= e.earliest
        invariant stop && AdmissionPass(v, e).Admitted? ==>
                    currentAction == Some(e.action) && timeLeft == AdmissionPass(v, e).ticks
                    && actionRecieved == e.recv && responses == []
        invariant stop && AdmissionPass(v, e).Left? ==>
                    currentAction == old(currentAction) && timeLeft == old(timeLeft)
                    && actionRecieved == old(actionRecieved) && responses == AdmissionPass(v, e).errors
        invariant stop ==> AdmissionPass(v, e).Admitted? || AdmissionPass(v, e).Left?
        decreases !stop
      {
        match AdmissionPass(ViewOf(isAllocated), e)
        case Admitted(ticks) =>
          currentAction := Some(e.action);
          actionRecieved := e.recv;
          timeLeft := ticks;
          stop := true;
        case Left(errors) =>
          responses := responses + errors;
          stop := true;
        case Repeated(errors) =>
          responses := responses + errors;
        case Raised(errors) =>
          assert false;
      }
    }

    /**
     * One tick. The queue must not be empty (`get` would block), the
     * admission loop must leave through a `break` (otherwise it never ends or
     * a lookup raises), and an idle executor must admit the head (otherwise
     * the completion message dereferences the absent current action).
     */
    method Step(isAllocated: Function -> bool) returns (responses: seq<Result>)
      requires Valid() && |requestQueue| > 0
      requires LoopLeaves(ViewOf(isAllocated), requestQueue[0])
      requires currentAction.Some? || Admits(ViewOf(isAllocated), requestQueue[0])
      modifies this`clock, this`requestQueue, this`currentAction, this`timeLeft, this`actionRecieved
      ensures Valid()
      ensures clock == old(clock) + 1
      ensures responses == old(StepOf(ViewOf(isAllocated), requestQueue, currentAction, timeLeft, actionRecieved)).responses
      ensures requestQueue == old(StepOf(ViewOf(isAllocated), requestQueue, currentAction, timeLeft, actionRecieved)).queue
      ensures currentAction == old(StepOf(ViewOf(isAllocated), requestQueue, currentAction, timeLeft, actionRecieved)).current
      ensures timeLeft == old(StepOf(ViewOf(isAllocated), requestQueue, currentAction, timeLeft, actionRecieved)).timeLeft
      ensures actionRecieved == old(StepOf(ViewOf(isAllocated), requestQueue, currentAction, timeLeft, actionRecieved)).recv
    {
      ghost var t := StepOf(ViewOf(isAllocated), requestQueue, currentAction, timeLeft, actionRecieved);
      ghost var v := ViewOf(isAllocated);
      ghost var admits := Admits(v, requestQueue[0]);
      ghost var errors := if clock >= requestQueue[0].earliest && !admits then AdmissionPass(v, requestQueue[0]).errors else [];
      // `get` takes the head off; the loop does not touch the queue, so the rest is kept aside
      var e, rest := requestQueue[0], requestQueue[1..];
      responses := Admission(isAllocated, e);
      assert responses == errors;
      requestQueue := Put(rest, e);
      var done := Tick();
      responses := responses + done;
    }

    /**
     * The end of a tick: the clock advances, a running countdown goes down,
     * and at zero the current action completes. The current action must be
     * present then (otherwise the completion message dereferences None).
     */
    method Tick() returns (done: seq<Result>)
      requires CountdownOf(clock, currentAction, timeLeft, actionRecieved).Some?
      modifies this`clock, this`timeLeft, this`currentAction
      ensures clock == old(clock) + 1
      ensures old(CountdownOf(clock, currentAction, timeLeft, actionRecieved)) == Some(Countdown(done, currentAction, timeLeft))
    {
      clock := clock + 1;
      if timeLeft > 0 {
        timeLeft := timeLeft - 1;
      }
      if timeLeft == 0 {
        done := [Result(Success, currentAction.value, actionRecieved, clock, InferRan)];
        currentAction := None;
      } else {
        done := [];
      }
    }

    /**
     * One tick under the intended policy of `Examine`, kept apart from
     * `Step`, which models the code as written. A busy executor only counts
     * down; an idle one drops terminal entries until it admits an entry, puts
     * back one whose model is not loaded, or finds no eligible entry. It never
     * blocks, never loops forever and never fails a lookup.
     */
    method StepAsSpecified(isAllocated: Function -> bool) returns (responses: seq<Result>)
      requires Valid()
      requires CostsDefined(ViewOf(isAllocated), requestQueue)
      modifies this`clock, this`requestQueue, this`currentAction, this`timeLeft, this`actionRecieved
      ensures Valid()
      ensures clock == old(clock) + 1
      ensures old(currentAction).Some? ==>
                && requestQueue == old(requestQueue)
                && timeLeft == old(timeLeft) - 1
                && actionRecieved == old(actionRecieved)
                && currentAction == (if timeLeft == 0 then None else old(currentAction))
                && responses == if timeLeft == 0
                                then [Result(Success, old(currentAction).value, actionRecieved, clock, InferRan)]
                                else []
      ensures old(currentAction).None? ==>
                var x := Examine(old(ViewOf(isAllocated)), old(requestQueue));
                && requestQueue == x.queue
                && responses == x.errors
                && (x.halt.Took? ==>
                      && currentAction == Some(x.halt.entry.action)
                      && actionRecieved == x.halt.entry.recv
                      && Known(old(ViewOf(isAllocated)), x.halt.entry)
                      && HasCost(old(ViewOf(isAllocated)), x.halt.entry)
                      && timeLeft == CostOf(old(ViewOf(isAllocated)), x.halt.entry))
                && (!x.halt.Took? ==>
                      currentAction == None && timeLeft == 0 && actionRecieved == old(actionRecieved))
    {
      if currentAction.Some? {
        responses := Tick();
      } else {
        responses := AdmitNext(isAllocated);
        clock := clock + 1;
      }
    }

    /**
     * The idle half of `StepAsSpecified` before the clock advances: examine
     * the queue and take on the entry it admits, if any.
     */
    method AdmitNext(isAllocated: Function -> bool) returns (responses: seq<Result>)
      requires Valid() && currentAction.None?
      requires CostsDefined(ViewOf(isAllocated), requestQueue)
      modifies this`requestQueue, this`currentAction, this`timeLeft, this`actionRecieved
      ensures Valid()
      ensures var x := Examine(old(ViewOf(isAllocated)), old(requestQueue));
                && requestQueue == x.queue
                && responses == x.errors
                && (x.halt.Took? ==>
                      && currentAction == Some(x.halt.entry.action)
                      && actionRecieved == x.halt.entry.recv
                      && Known(old(ViewOf(isAllocated)), x.halt.entry)
                      && HasCost(old(ViewOf(isAllocated)), x.halt.entry)
                      && timeLeft == CostOf(old(ViewOf(isAllocated)), x.halt.entry))
                && (!x.halt.Took? ==>
                      currentAction == None && timeLeft == 0 && actionRecieved == old(actionRecieved))
    {
      ghost var v := ViewOf(isAllocated);
      ExamineHaltReason(v, requestQueue);
      var halt;
      responses, requestQueue, halt := ExamineQueue(isAllocated);
      if halt.Took? {
        var e := halt.entry;
        currentAction := Some(e.action);
        actionRecieved := e.recv;
        timeLeft := models[e.action.modelName].resources[resourceName][e.action.batchKey];
      }
    }

    /**
     * The idle half of `StepAsSpecified`: the examination loop over the queue,
     * reporting the errors, the queue left behind and why it stopped.
     */
    method ExamineQueue(isAllocated: Function -> bool) returns (errors: seq<Result>, queue: seq<Entry>, halt: Halt)
      requires Valid() && currentAction.None?
      ensures var x := Examine(ViewOf(isAllocated), requestQueue);
                errors == x.errors && queue == x.queue && halt == x.halt
    {
      ghost var v := ViewOf(isAllocated);
      ghost var x := Examine(v, requestQueue);
      var q := requestQueue;
      errors := [];
      while |q| > 0 && q[0].earliest <= clock && (q[0].action.modelName !in models || clock > q[0].action.latest)
        invariant Sorted(q)
        invariant x.errors == errors + Examine(v, q).errors
        invariant x.queue == Examine(v, q).queue && x.halt == Examine(v, q).halt
        decreases |q|
      {
        var e := q[0];
        ExamineDrop(v, q, errors);
        if e.action.modelName !in models {
          errors := errors + [ErrorFor(e, clock, NotRecognized)];
        } else {
          errors := errors + [ErrorFor(e, clock, NotInTime)];
        }
        q := q[1..];
      }
      if |q| > 0 && q[0].earliest <= clock {
        var e := q[0];
        ExamineStops(v, q);
        if !isAllocated(models[e.action.modelName]) {
          errors := errors + [ErrorFor(e, clock, NotLoaded)];
          queue, halt := Put(q[1..], e), Requeued(e);
        } else {
          queue, halt := q[1..], Took(e);
        }
      } else {
        queue, halt := q, Idle;
      }
    }
  }
}
