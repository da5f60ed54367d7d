/** The compiled workflow definition the engine runs
    (src/Statevia.Core/Abstractions/CompiledWorkflowDefinition.cs) and the run-time
    state of one workflow instance (core/Statevia.Core/Engine/WorkflowInstance.cs). */
module Instance {
  import opened Common
  import Fsm
  import Join
  import Trace

  /** `CompiledWorkflowDefinition`. The executor factory is reduced to the set of
      state names it has an executor for (`GetExecutor` returns null otherwise). */
  datatype CompiledWorkflow = CompiledWorkflow(
    name: string,
    transitions: Fsm.Table,
    forkTable: Entries<seq<string>>,
    joinTable: Join.JoinTable,
    waitTable: Entries<string>,
    initialState: string,
    executors: set<string>)

  /** `WorkflowInstance`: the transition table and join tracker built from the
      definition, the observational graph, the recorded outputs, the active states
      and three terminal flags. */
  datatype WorkflowInstance = WorkflowInstance(
    workflowId: string,
    definition: CompiledWorkflow,
    tracker: Join.Tracker,
    graph: Trace.Graph,
    outputs: Entries<Value>,
    active: set<string>,
    isCompleted: bool,
    isCancelled: bool,
    isFailed: bool)

  /** The instance `Start` creates: nothing recorded, nothing active, no flag set. */
  function NewInstance(workflowId: string, def: CompiledWorkflow): (i: WorkflowInstance)
    ensures i.workflowId == workflowId && i.definition == def
    ensures i.tracker.table == def.joinTable && i.tracker.acc == map[]
    ensures i.graph.nodes == [] && i.graph.edges == []
    ensures i.outputs == [] && i.active == {}
    ensures !i.isCompleted && !i.isCancelled && !i.isFailed
  {
    WorkflowInstance(workflowId, def, Join.NewTracker(def.joinTable), Trace.EmptyGraph(), [], {}, false, false, false)
  }

  /** `SetOutput`: the state's output, overwriting an earlier one. */
  function SetOutput(i: WorkflowInstance, state: string, output: Value): (r: WorkflowInstance)
    ensures r == i.(outputs := r.outputs)
    ensures TryGetOutput(r, state) == Some(output)
    ensures forall s :: s != state ==> TryGetOutput(r, s) == TryGetOutput(i, s)
  {
    i.(outputs := Put(i.outputs, state, output))
  }

  /** `TryGetOutput`: the recorded output, or nothing for a state that never
      completed. A recorded null is still a hit. */
  function TryGetOutput(i: WorkflowInstance, state: string): (r: Option<Value>)
    ensures r.None? <==> !HasKey(i.outputs, state)
    ensures r.Some? ==> (state, r.value) in i.outputs
  {
    Lookup(i.outputs, state)
  }

  function AddActiveState(i: WorkflowInstance, state: string): (r: WorkflowInstance)
    ensures r == i.(active := r.active)
    ensures r.active == i.active + {state} && state in r.active
  {
    i.(active := i.active + {state})
  }

  function RemoveActiveState(i: WorkflowInstance, state: string): (r: WorkflowInstance)
    ensures r == i.(active := r.active)
    ensures r.active == i.active - {state} && state !in r.active
  {
    i.(active := i.active - {state})
  }

  function MarkCompleted(i: WorkflowInstance): (r: WorkflowInstance)
    ensures r == i.(isCompleted := true) && r.isCompleted
  {
    i.(isCompleted := true)
  }

  function MarkCancelled(i: WorkflowInstance): (r: WorkflowInstance)
    ensures r == i.(isCancelled := true) && r.isCancelled
  {
    i.(isCancelled := true)
  }

  function MarkFailed(i: WorkflowInstance): (r: WorkflowInstance)
    ensures r == i.(isFailed := true) && r.isFailed
  {
    i.(isFailed := true)
  }

  /** `GetActiveStates`: the active set listed once each, in some order. */
  method GetActiveStates(i: WorkflowInstance) returns (r: seq<string>)
    ensures |r| == |i.active| && Distinct(r)
    ensures forall s :: s in r <==> s in i.active
  {
    r := [];
    var rest := i.active;
    while rest != {}
      invariant Distinct(r)
      invariant forall s :: s in r ==> s in i.active && s !in rest
      invariant forall s :: s in i.active ==> s in r || s in rest
      invariant rest <= i.active
      invariant |r| + |rest| == |i.active|
      decreases |rest|
    {
      var s :| s in rest;
      r := r + [s];
      rest := rest - {s};
    }
  }

  /** `WorkflowSnapshot`. */
  datatype Snapshot = Snapshot(workflowId: string, workflowName: string, activeStates: seq<string>,
                               isCompleted: bool, isCancelled: bool, isFailed: bool)

  /** `ToSnapshot`: a copy of the identity, the definition name, the active states
      and the three flags. */
  method ToSnapshot(i: WorkflowInstance) returns (s: Snapshot)
    ensures s.workflowId == i.workflowId && s.workflowName == i.definition.name
    ensures |s.activeStates| == |i.active| && Distinct(s.activeStates)
    ensures forall n :: n in s.activeStates <==> n in i.active
    ensures s.isCompleted == i.isCompleted && s.isCancelled == i.isCancelled && s.isFailed == i.isFailed
  {
    var active := GetActiveStates(i);
    s := Snapshot(i.workflowId, i.definition.name, active, i.isCompleted, i.isCancelled, i.isFailed);
  }

  /** Setting an output twice keeps the second; adding then removing an inactive
      state restores the active set. */
  lemma SetOutputOverwrites(i: WorkflowInstance, state: string, a: Value, b: Value)
    ensures TryGetOutput(SetOutput(SetOutput(i, state, a), state, b), state) == Some(b)
    ensures state !in i.active ==> RemoveActiveState(AddActiveState(i, state), state) == i
  {
  }
}
