/** The workflow engine's decisions (src/Statevia.Core/Engine/WorkflowEngine.cs),
    split at every point where the source awaits something it cannot see: a state
    executor's run is an input to `FinishState`, and each fire-and-forget or awaited
    call to `ScheduleStateAsync` / `RunJoinStateAsync` is returned as an `Action`
    for the caller to perform. Node ids (GUID prefixes) and clock readings are
    parameters; a node id is assumed not to repeat within one graph. */
module Engine {
  import opened Common
  import Fsm
  import Join
  import Trace
  import Events
  import opened Instance

  /** The `input` handed to a state executor: null, or the join inputs. */
  datatype Input = NoInput | JoinInputs(inputs: map<string, Value>)

  /** A call the source makes next. */
  datatype Action =
    | Schedule(state: string, from: Option<string>, edge: Option<Trace.EdgeKind>, input: Input)
    | RunJoin(join: string, from: Option<string>, edge: Option<Trace.EdgeKind>)

  /** How a state executor's run ended. */
  datatype Outcome = Succeeded(output: Value) | OperationCancelled | Threw

  predicate FreshNode(i: WorkflowInstance, nodeId: string) {
    Trace.FindNode(i.graph.nodes, nodeId) == -1
  }

  predicate InJoinTable(def: CompiledWorkflow, state: string) {
    exists k :: 0 <= k < |def.joinTable| && def.joinTable[k].0 == state
  }

  /** Adds a node for the state, and an edge from `from` only when both the source
      node and the edge type are given. */
  function AddLinkedNode(g: Trace.Graph, state: string, from: Option<string>, edge: Option<Trace.EdgeKind>,
                         nodeId: string, now: int): (r: Trace.Graph)
    ensures |r.nodes| == |g.nodes| + 1 && r.nodes[..|g.nodes|] == g.nodes
    ensures r.nodes[|g.nodes|] == Trace.Node(nodeId, state, now, None, None, Null)
    ensures from.Some? && edge.Some? ==> r.edges == g.edges + [Trace.Edge(from.value, nodeId, edge.value)]
    ensures from.None? || edge.None? ==> r.edges == g.edges
  {
    var g1 := Trace.AddNode(g, nodeId, state, now).0;
    if from.Some? && edge.Some? then Trace.AddEdge(g1, from.value, nodeId, edge.value) else g1
  }

  /** `RunJoinStateAsync`: a completed Joined node for the join, then the join's
      transition on Joined. Next schedules the target with the join inputs, End
      completes the workflow, anything else (including a fork) does nothing. */
  function RunJoinState(i: WorkflowInstance, join: string, from: Option<string>, edge: Option<Trace.EdgeKind>,
                        nodeId: string, now: int): (r: (WorkflowInstance, seq<Action>))
    requires FreshNode(i, nodeId)
    ensures r.0.graph.nodes == i.graph.nodes + [Trace.Node(nodeId, join, now, Some(now), Some(Fsm.JOINED), Null)]
    ensures from.Some? && edge.Some? ==> r.0.graph.edges == i.graph.edges + [Trace.Edge(from.value, nodeId, edge.value)]
    ensures from.None? || edge.None? ==> r.0.graph.edges == i.graph.edges
    ensures r.0.tracker == i.tracker && r.0.outputs == i.outputs && r.0.active == i.active
    ensures r.0.isCancelled == i.isCancelled && r.0.isFailed == i.isFailed
    ensures var t := Fsm.TargetOf(i.definition.transitions, join, Fsm.JOINED);
      && (t.Some? && !t.value.end && t.value.next.Some? ==>
            r.1 == [Schedule(t.value.next.value, Some(nodeId), Some(Trace.Next),
                             JoinInputs(Join.GetJoinInputs(i.tracker, join)))] && r.0.isCompleted == i.isCompleted)
      && (t.Some? && t.value.end ==> r.1 == [] && r.0.isCompleted)
      && (t.None? || (!t.value.end && t.value.next.None?) ==> r.1 == [] && r.0.isCompleted == i.isCompleted)
  {
    var inputs := Join.GetJoinInputs(i.tracker, join);
    var i1 := i.(graph := JoinedGraph(i.graph, join, from, edge, nodeId, now));
    var t := Fsm.Evaluate(i.definition.transitions, join, Fsm.JOINED);
    if t.hasTransition && t.next.Some? then
      (i1, [Schedule(t.next.value, Some(nodeId), Some(Trace.Next), JoinInputs(inputs))])
    else if t.end then (MarkCompleted(i1), [])
    else (i1, [])
  }

  /** The join's node is added (linked like any other node) and completed at once
      with the Joined fact and no output. */
  function JoinedGraph(g: Trace.Graph, join: string, from: Option<string>, edge: Option<Trace.EdgeKind>,
                       nodeId: string, now: int): (r: Trace.Graph)
    requires Trace.FindNode(g.nodes, nodeId) == -1
    ensures r.nodes == g.nodes + [Trace.Node(nodeId, join, now, Some(now), Some(Fsm.JOINED), Null)]
    ensures from.Some? && edge.Some? ==> r.edges == g.edges + [Trace.Edge(from.value, nodeId, edge.value)]
    ensures from.None? || edge.None? ==> r.edges == g.edges
  {
    var g1 := AddLinkedNode(g, join, from, edge, nodeId, now);
    FreshStaysFresh(g.nodes, g1.nodes, nodeId);
    var g2 := Trace.CompleteNode(g1, nodeId, Fsm.JOINED, Null, now);
    assert g2.nodes == g1.nodes[|g.nodes| := Trace.Node(nodeId, join, now, Some(now), Some(Fsm.JOINED), Null)];
    g2
  }

  /** A fresh id appended as the last node is found exactly there. */
  lemma FreshStaysFresh(old_: seq<Trace.Node>, new_: seq<Trace.Node>, nodeId: string)
    requires Trace.FindNode(old_, nodeId) == -1
    requires |new_| == |old_| + 1 && new_[..|old_|] == old_ && new_[|old_|].nodeId == nodeId
    ensures Trace.FindNode(new_, nodeId) == |old_|
  {
    assert forall j :: 0 <= j < |old_| ==> new_[j].nodeId == old_[j].nodeId != nodeId by {
      forall j | 0 <= j < |old_| ensures new_[j].nodeId == old_[j].nodeId {
        assert new_[j] == new_[..|old_|][j];
      }
    }
  }

  /** The first half of `ScheduleStateAsync`, up to the executor call. A join state
      goes straight to `RunJoinStateAsync` without looking at readiness; a state with
      no executor is skipped silently; otherwise a node is added (with an edge when
      both the source node and type are given) and the state becomes active. */
  function ScheduleBegin(i: WorkflowInstance, state: string, from: Option<string>, edge: Option<Trace.EdgeKind>,
                         nodeId: string, now: int): (r: (WorkflowInstance, seq<Action>))
    requires FreshNode(i, nodeId)
    ensures InJoinTable(i.definition, state) ==> r == RunJoinState(i, state, from, edge, nodeId, now)
    ensures !InJoinTable(i.definition, state) ==> r.1 == []
    ensures !InJoinTable(i.definition, state) && state !in i.definition.executors ==> r.0 == i
    ensures !InJoinTable(i.definition, state) && state in i.definition.executors ==>
      && r.0 == i.(graph := r.0.graph, active := r.0.active)
      && r.0.active == i.active + {state}
      && r.0.graph == AddLinkedNode(i.graph, state, from, edge, nodeId, now)
      && r.0.graph.nodes[|i.graph.nodes|].completedAt.None?
  {
    if InJoinTable(i.definition, state) then RunJoinState(i, state, from, edge, nodeId, now)
    else if state !in i.definition.executors then (i, [])
    else (AddActiveState(i.(graph := AddLinkedNode(i.graph, state, from, edge, nodeId, now)), state), [])
  }

  /** The fact a run ends with. */
  function FactOf(o: Outcome): (f: string)
    ensures o.Succeeded? <==> f == Fsm.COMPLETED
    ensures o.OperationCancelled? <==> f == Fsm.CANCELLED
    ensures o.Threw? <==> f == Fsm.FAILED
  {
    match o
    case Succeeded(_) => Fsm.COMPLETED
    case OperationCancelled => Fsm.CANCELLED
    case Threw => Fsm.FAILED
  }

  function OutputOf(o: Outcome): Value {
    if o.Succeeded? then o.output else Null
  }

  /** `ProcessFact`. A join the fact makes ready runs (with a Join edge) and nothing
      else happens; otherwise Failed or Cancelled marks the workflow both failed and
      cancelled; otherwise the state's transition decides: End completes, a fork
      schedules each listed state with a Fork edge, a Next schedules one state with a
      Next edge. */
  function ProcessFact(i: WorkflowInstance, state: string, fact: string, output: Value, nodeId: string)
    : (r: (WorkflowInstance, seq<Action>))
    ensures r.0.graph == i.graph && r.0.outputs == i.outputs && r.0.active == i.active
    ensures r.0.tracker == Join.RecordFact(i.tracker, state, fact, output).0
    ensures i.isCompleted ==> r.0.isCompleted
    ensures i.isCancelled ==> r.0.isCancelled
    ensures i.isFailed ==> r.0.isFailed
    ensures var ready := Join.RecordFact(i.tracker, state, fact, output).1;
      && (ready.Some? ==> r.1 == [RunJoin(ready.value, Some(nodeId), Some(Trace.Join))]
                          && r.0 == i.(tracker := r.0.tracker))
      && (ready.None? && (fact == Fsm.FAILED || fact == Fsm.CANCELLED) ==>
            r.1 == [] && r.0.isFailed && r.0.isCancelled && r.0.isCompleted == i.isCompleted)
    ensures var ready := Join.RecordFact(i.tracker, state, fact, output).1;
            var t := Fsm.Evaluate(i.definition.transitions, state, fact);
            var i1 := i.(tracker := r.0.tracker);
      ready.None? && fact != Fsm.FAILED && fact != Fsm.CANCELLED ==>
        && (!t.hasTransition ==> r == (i1, []))
        && (t.end ==> r == (MarkCompleted(i1), []))
        && (t.fork.Some? ==> r == (i1, ForkActions(t.fork.value, nodeId)))
        && (t.next.Some? ==> r == (i1, [Schedule(t.next.value, Some(nodeId), Some(Trace.Next), NoInput)]))
  {
    var (tracker', ready) := Join.RecordFact(i.tracker, state, fact, output);
    var i1 := i.(tracker := tracker');
    if ready.Some? then (i1, [RunJoin(ready.value, Some(nodeId), Some(Trace.Join))])
    else if fact == Fsm.FAILED || fact == Fsm.CANCELLED then (MarkCancelled(MarkFailed(i1)), [])
    else
      var t := Fsm.Evaluate(i.definition.transitions, state, fact);
      if !t.hasTransition then (i1, [])
      else if t.end then (MarkCompleted(i1), [])
      else if t.fork.Some? then (i1, ForkActions(t.fork.value, nodeId))
      else if t.next.Some? then (i1, [Schedule(t.next.value, Some(nodeId), Some(Trace.Next), NoInput)])
      else (i1, [])
  }

  /** One Schedule per fork entry, in list order, each with a Fork edge and no input. */
  function ForkActions(states: seq<string>, nodeId: string): (r: seq<Action>)
    ensures |r| == |states|
    ensures forall k :: 0 <= k < |r| ==> r[k] == Schedule(states[k], Some(nodeId), Some(Trace.Fork), NoInput)
  {
    seq(|states|, k requires 0 <= k < |states| => Schedule(states[k], Some(nodeId), Some(Trace.Fork), NoInput))
  }

  /** The second half of `ScheduleStateAsync`: the run's outcome completes its node
      (a success also stores the output), the state stops being active, and the fact
      is processed. */
  function FinishState(i: WorkflowInstance, state: string, nodeId: string, outcome: Outcome, now: int)
    : (r: (WorkflowInstance, seq<Action>))
    ensures state !in r.0.active && r.0.active == i.active - {state}
    ensures outcome.Succeeded? ==> TryGetOutput(r.0, state) == Some(outcome.output)
    ensures !outcome.Succeeded? ==> r.0.outputs == i.outputs
    ensures r.0.graph == Trace.CompleteNode(i.graph, nodeId, FactOf(outcome), OutputOf(outcome), now)
    ensures r == ProcessFact(RemoveActiveState(i.(graph := r.0.graph, outputs := r.0.outputs), state),
                             state, FactOf(outcome), OutputOf(outcome), nodeId)
  {
    var fact := FactOf(outcome);
    var output := OutputOf(outcome);
    var i1 := if outcome.Succeeded? then SetOutput(i, state, output) else i;
    var i2 := i1.(graph := Trace.CompleteNode(i1.graph, nodeId, fact, output, now));
    ProcessFact(RemoveActiveState(i2, state), state, fact, output, nodeId)
  }

  /** Terminal flags are never cleared by any step. */
  predicate FlagsKept(i: WorkflowInstance, j: WorkflowInstance) {
    (i.isCompleted ==> j.isCompleted) && (i.isCancelled ==> j.isCancelled) && (i.isFailed ==> j.isFailed)
  }

  lemma StepsKeepFlags(i: WorkflowInstance, state: string, from: Option<string>, edge: Option<Trace.EdgeKind>,
                       nodeId: string, now: int, outcome: Outcome)
    requires FreshNode(i, nodeId)
    ensures FlagsKept(i, ScheduleBegin(i, state, from, edge, nodeId, now).0)
    ensures FlagsKept(i, RunJoinState(i, state, from, edge, nodeId, now).0)
    ensures FlagsKept(i, FinishState(i, state, nodeId, outcome, now).0)
  {
    var b := ScheduleBegin(i, state, from, edge, nodeId, now).0;
    var j := RunJoinState(i, state, from, edge, nodeId, now).0;
    assert FlagsKept(i, j);
    assert FlagsKept(i, b);
    FinishKeepsFlags(i, state, nodeId, outcome, now);
  }

  lemma FinishKeepsFlags(i: WorkflowInstance, state: string, nodeId: string, outcome: Outcome, now: int)
    ensures FlagsKept(i, FinishState(i, state, nodeId, outcome, now).0)
  {
    var r := FinishState(i, state, nodeId, outcome, now);
    var i2 := RemoveActiveState(i.(graph := r.0.graph, outputs := r.0.outputs), state);
    assert FlagsKept(i, i2);
    assert FlagsKept(i2, r.0);
  }

  /** A failing or cancelled state that no join is waiting for stops the workflow:
      it is marked failed and cancelled and nothing further is scheduled. */
  lemma FailureStops(i: WorkflowInstance, state: string, nodeId: string, outcome: Outcome, now: int)
    requires !outcome.Succeeded?
    requires forall k :: 0 <= k < |i.tracker.table| ==> state !in i.tracker.table[k].1
    ensures var r := FinishState(i, state, nodeId, outcome, now);
      r.1 == [] && r.0.isFailed && r.0.isCancelled && state !in r.0.active
  {
  }

  /** A completed state whose transition is a fork schedules every fork entry, in
      order, from the state's node. */
  lemma ForkFansOut(i: WorkflowInstance, state: string, nodeId: string, v: Value, now: int)
    requires forall k :: 0 <= k < |i.tracker.table| ==> state !in i.tracker.table[k].1
    requires Fsm.Evaluate(i.definition.transitions, state, Fsm.COMPLETED).fork.Some?
    ensures var f := Fsm.Evaluate(i.definition.transitions, state, Fsm.COMPLETED).fork.value;
      var r := FinishState(i, state, nodeId, Succeeded(v), now);
      |r.1| == |f| && forall k :: 0 <= k < |f| ==> r.1[k] == Schedule(f[k], Some(nodeId), Some(Trace.Fork), NoInput)
  {
    Join.RecordFactSpec(i.tracker, state, Fsm.COMPLETED, v);
  }

  // ---------------------------------------------------------------------------
  // The engine's registry of instances and event providers

  datatype WorkflowEngine = WorkflowEngine(instances: map<string, WorkflowInstance>,
                                           providers: map<string, Events.Provider>)

  predicate ValidEngine(e: WorkflowEngine) {
    forall id :: id in e.providers ==> Events.Valid(e.providers[id])
  }

  /** `Start`: registers a fresh instance and event provider under the new id and
      schedules the definition's initial state with no source node. */
  function Start(e: WorkflowEngine, def: CompiledWorkflow, workflowId: string): (r: (WorkflowEngine, Action))
    requires ValidEngine(e)
    ensures ValidEngine(r.0)
    ensures r.0.instances == e.instances[workflowId := NewInstance(workflowId, def)]
    ensures workflowId in r.0.providers && r.0.providers[workflowId] == Events.NewProvider()
    ensures forall id :: id != workflowId ==> (id in r.0.providers <==> id in e.providers)
    ensures forall id :: id in e.providers && id != workflowId ==> r.0.providers[id] == e.providers[id]
    ensures r.1 == Schedule(def.initialState, None, None, NoInput)
  {
    (WorkflowEngine(e.instances[workflowId := NewInstance(workflowId, def)],
                    e.providers[workflowId := Events.NewProvider()]),
     Schedule(def.initialState, None, None, NoInput))
  }

  /** `PublishEvent`: the event is published to every instance's provider. */
  function PublishEvent(e: WorkflowEngine, name: string): (r: WorkflowEngine)
    requires ValidEngine(e)
    ensures ValidEngine(r)
    ensures r.instances == e.instances && r.providers.Keys == e.providers.Keys
    ensures forall id :: id in r.providers ==> name !in r.providers[id].waiters
    ensures forall id :: id in e.providers ==> r.providers[id] == Events.Publish(e.providers[id], name)
    ensures forall id, n :: id in e.providers && n != name ==>
      Events.ListOf(r.providers[id], n) == Events.ListOf(e.providers[id], n)
  {
    WorkflowEngine(e.instances, map id | id in e.providers :: Events.Publish(e.providers[id], name))
  }

  /** A broadcast resumes every pending wait on that name, in every instance. */
  lemma PublishEventResolves(e: WorkflowEngine, name: string, id: string, w: Events.WaiterId)
    requires ValidEngine(e) && id in e.providers
    requires w in e.providers[id].status && e.providers[id].status[w] == Events.Pending
    requires w in Events.ListOf(e.providers[id], name)
    ensures var p := PublishEvent(e, name).providers[id]; w in p.status && p.status[w] == Events.Resolved
  {
    var p := PublishEvent(e, name).providers[id];
    assert p == Events.Publish(e.providers[id], name);
  }

  /** `CancelAsync`: only the cancelled flag of a known instance is set; the running
      states are not interrupted. An unknown id changes nothing. */
  function CancelWorkflow(e: WorkflowEngine, workflowId: string): (r: WorkflowEngine)
    ensures r.providers == e.providers && r.instances.Keys == e.instances.Keys
    ensures workflowId !in e.instances ==> r == e
    ensures workflowId in e.instances ==>
      r.instances[workflowId] == e.instances[workflowId].(isCancelled := true)
    ensures forall id :: id in e.instances && id != workflowId ==> r.instances[id] == e.instances[id]
  {
    if workflowId in e.instances then
      WorkflowEngine(e.instances[workflowId := MarkCancelled(e.instances[workflowId])], e.providers)
    else e
  }

  /** `GetSnapshot`: the instance's snapshot, or nothing for an unknown id. */
  method GetSnapshot(e: WorkflowEngine, workflowId: string) returns (r: Option<Snapshot>)
    ensures r.None? <==> workflowId !in e.instances
    ensures r.Some? ==>
      var i := e.instances[workflowId];
      && r.value.workflowId == i.workflowId && r.value.workflowName == i.definition.name
      && Distinct(r.value.activeStates) && (forall n :: n in r.value.activeStates <==> n in i.active)
      && r.value.isCompleted == i.isCompleted && r.value.isCancelled == i.isCancelled
      && r.value.isFailed == i.isFailed
  {
    if workflowId in e.instances {
      var s := ToSnapshot(e.instances[workflowId]);
      r := Some(s);
    } else {
      r := None;
    }
  }

  /** What `ExportExecutionGraph` serialises: the instance's graph, or the empty
      JSON object `{}` for an unknown id. */
  datatype Export = GraphJson(graph: Trace.Graph) | EmptyJson

  function ExportExecutionGraph(e: WorkflowEngine, workflowId: string): (r: Export)
    ensures r.EmptyJson? <==> workflowId !in e.instances
    ensures r.GraphJson? ==> r.graph == e.instances[workflowId].graph
  {
    if workflowId in e.instances then GraphJson(e.instances[workflowId].graph) else EmptyJson
  }
}
