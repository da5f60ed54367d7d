# statevia, modelled in Dafny

statevia is a workflow engine. A workflow definition names states. Each state has `on` transitions keyed by facts (Completed, Failed, Cancelled, Joined), an optional `wait` for an external event, and an optional `join` over other states. The .NET core loads such a definition from YAML, validates it at two levels, compiles it into lookup tables and runs it. It schedules states, records facts in a join tracker, resumes waits when events are published, and records an execution graph of nodes and edges. A TypeScript core API keeps an event-sourced execution state that a reducer folds from events. Commands check guards and emit those events, and an orchestrator converges cancel requests. A web UI merges a graph definition with the runtime state, builds fallback edges and fork/join groups, and picks styles for statuses and node types.

This project models that core as immutable datatypes and pure functions:

- the FSM table lookup and its result constructors (`fsm.dfy`);
- the join tracker (`join_tracker.dfy`);
- the event provider's waiters (`event_provider.dfy`);
- the append-only execution graph (`execution_graph.dfy`);
- the per-workflow instance (`workflow_instance.dfy`);
- the engine's scheduling and fact-processing steps (`workflow_engine.dfy`);
- the definition loader over a YAML value tree (`definition_loader.dfy`), the compiler (`definition.dfy`) and both validators (`validation.dfy`);
- the core API's reducer, commands, guards and orchestrators (`reducer.dfy`, `commands.dfy`, `guards.dfy`, `domain_guards.dfy`, `orchestrators.dfy`);
- the UI helpers (`graph_layout.dfy`, `grouping.dfy`, `merge_graph.dfy`, `status_style.dfy`, `node_appearance.dfy`, `page_helpers.dfy`, `ui_text.dfy`).

Ordered .NET dictionaries and JavaScript objects are modelled as sequences of key/value pairs with distinct keys (`common.dfy`). Each `lock` block of the engine is one atomic step. Each task the engine would launch is returned as an `Action` value.

Where the code and its own tests or design notes disagree, the model follows the code:

- In `reduce`, NODE_RESUMED cannot move a WAITING node back to RUNNING, because WAITING outranks RUNNING in the status order (`Reducer.ResumedKeepsWaiting`). The domain-layer tests expect RUNNING.
- `cmdCancelExecution` on an ACTIVE execution with no recorded request emits two events: a request, then the cancellation (`Commands.CancelTwoEvents`).
- When a state fails or is cancelled outside any join, the engine marks the workflow both failed and cancelled (`Engine.FailureStops`).
- The level-2 validator's "Could not determine initial state" error is never produced. Its initial-state search takes the first key, which throws on an empty definition. `Validation.Level2` returns an error there, and the composed validator never reaches it, because level 1 rejects an empty definition first.
- The guards test a cancel request by truthiness, while the reducer tests whether the field is present. An empty request time therefore passes the guards but blocks progress in the reducer (`Commands.EmptyCancelRequestGap`).

## Model

| member | source | states |
|---|---|---|
| Fsm.NoTransition | core/Statevia.Core/FSM/TransitionResult.cs:17 | no transition, and none of next, fork or end set |
| Fsm.ToNext | core/Statevia.Core/FSM/TransitionResult.cs:18 | a transition that sets only next |
| Fsm.ToFork | core/Statevia.Core/FSM/TransitionResult.cs:19 | a transition that sets only fork |
| Fsm.ToEnd | core/Statevia.Core/FSM/TransitionResult.cs:20 | a transition that sets only end; each constructor yields at most one of the three, with a transition exactly when one is set |
| Fsm.Evaluate | src/Statevia.Core/FSM/TransitionTable.cs:16-24 | a missing state or fact gives no transition; End wins over Next and Next over Fork; Fork only when non-empty; the result is always well formed |
| Fsm.EvaluateHasTransition | src/Statevia.Core/FSM/TransitionTable.cs:18-23 | a transition exists exactly when the stored target is End, has a Next or has a non-empty Fork |
| Fsm.EvaluateLocal | src/Statevia.Core/FSM/TransitionTable.cs:10-24 | the result depends only on the one (state, fact) entry: two tables agreeing there evaluate alike |
| Join.NewTracker | src/Statevia.Core/Join/JoinTracker.cs:13-20 | a new tracker holds the compiled join table and no accumulator |
| Join.RecordFrom | src/Statevia.Core/Join/JoinTracker.cs:39-42 | the scan over the table never returns a join for a Failed or Cancelled fact |
| Join.RecordFromUntouched | src/Statevia.Core/Join/JoinTracker.cs:29-32 | joins that do not list the state from this position on keep their accumulators (present or absent) |
| Join.RecordFromKeeps | src/Statevia.Core/Join/JoinTracker.cs:33-38 | recorded participants are never removed, and entries of other participants never change |
| Join.RecordFromReturned | src/Statevia.Core/Join/JoinTracker.cs:43-46 | a returned join lists the state, is at or after the scan position, and its accumulator is ready |
| Join.RecordFromRecorded | src/Statevia.Core/Join/JoinTracker.cs:33-38 | when nothing is returned, every listing join holds the new (fact, output) for the state |
| Join.RecordFact | src/Statevia.Core/Join/JoinTracker.cs:23-50 | the table is unchanged, and a Failed or Cancelled fact returns no join |
| Join.RecordFactSpec | src/Statevia.Core/Join/JoinTracker.cs:27-49 | a state no join lists changes nothing and returns nothing; a returned join lists the state and is ready; non-listing joins are untouched; without a return every listing join records the fact, and, with distinct join names, none of them is ready; no recorded participant is lost or, other than the state, changed |
| Join.GetJoinInputs | src/Statevia.Core/Join/JoinTracker.cs:53-63 | empty without an accumulator; otherwise exactly the Completed participants, each with its recorded output |
| Join.FailedParticipantBlocks | src/Statevia.Core/Join/JoinTracker.cs:38-46 | once a participant's latest fact is not Completed, a call for another participant cannot return that join and leaves the blocking entry as it was |
| Join.DuplicatesNeverFire | src/Statevia.Core/Join/JoinTracker.cs:43 | a join whose allOf repeats a name is never returned, because its accumulator holds fewer distinct names than the list's length |
| Join.RecordFromConsistent | src/Statevia.Core/Join/JoinTracker.cs:27-38 | the scan records a participant only under joins that list it |
| Join.FirstReadyStops | src/Statevia.Core/Join/JoinTracker.cs:27-45 | when a join is returned, joins later in the table do not see this fact |
| Join.NthCallFires | src/Statevia.Core/Join/JoinTracker.cs:43-46 | with N distinct participants each completing once, in any order, the N-th call returns the join and no earlier call does |
| Join.NthStep | src/Statevia.Core/Join/JoinTracker.cs:33-46 | one more Completed participant extends the accumulator by one entry and returns the join exactly at the last one |
| Join.SingleJoinStep | src/Statevia.Core/Join/JoinTracker.cs:33-46 | on a one-join table a Completed fact for a listed participant is recorded and the join is returned exactly when it became ready |
| Join.RefiresAfterFired | src/Statevia.Core/Join/JoinTracker.cs:38-43 | accumulators are never cleared: recording Completed again for a participant of a ready join returns the join again |
| Events.NewProvider | src/Statevia.Core/Engine/EventProvider.cs:11-14 | a new provider has no waiter lists and no waiters |
| Events.Wait | src/Statevia.Core/Engine/EventProvider.cs:16-23 | appends exactly one new pending waiter to the event's list (creating the list if needed); other names and waiters are untouched |
| Events.CancelWaiter | src/Statevia.Core/Engine/EventProvider.cs:24-27 | only a pending waiter becomes cancelled; every list is unchanged, so the cancelled waiter stays listed |
| Events.ResolveAll | src/Statevia.Core/Engine/EventProvider.cs:38-41 | listed pending waiters become resolved; unlisted waiters and settled waiters are unchanged |
| Events.Publish | src/Statevia.Core/Engine/EventProvider.cs:32-45 | with no list nothing changes; otherwise the pending listed waiters are resolved, the list is removed, and other names and waiters are untouched |
| Events.WaitThenPublishResolves | src/Statevia.Core/Engine/EventProvider.cs:16-45 | a waiter registered before a publish of its name is resolved by it |
| Events.PublishBeforeWaitMisses | src/Statevia.Core/Engine/EventProvider.cs:36 | a publish with no listed waiter is not remembered: a later waiter stays pending |
| Events.CancelThenPublish | src/Statevia.Core/Engine/EventProvider.cs:24-42 | a cancelled waiter stays listed until the next publish, and that publish leaves it cancelled |
| Events.PublishIsolated | src/Statevia.Core/Engine/EventProvider.cs:36-42 | publishing one name changes neither the waiters nor the list of another name |
| Trace.EmptyGraph | core/Statevia.Core/ExecutionGraph/ExecutionGraph.cs:12-13 | a new graph has no nodes and no edges |
| Trace.FindNode | core/Statevia.Core/ExecutionGraph/ExecutionGraph.cs:34 | the index of the first node with the id, and -1 exactly when no node has it |
| Trace.AddNode | core/Statevia.Core/ExecutionGraph/ExecutionGraph.cs:22-27 | appends one started, not yet completed node with the given id and returns that id; earlier nodes and all edges are kept |
| Trace.CompleteNode | core/Statevia.Core/ExecutionGraph/ExecutionGraph.cs:30-37 | an unknown id changes nothing; otherwise only the first node with the id gets completion time, fact and output, keeping id, state name and start time |
| Trace.AddEdge | core/Statevia.Core/ExecutionGraph/ExecutionGraph.cs:39-42 | appends the edge as given, without checking its endpoints; nodes are unchanged |
| Trace.ExtendsTrans | core/Statevia.Core/ExecutionGraph/ExecutionGraph.cs:12-13 | the "only grows" relation between graphs is transitive |
| Trace.MutatorsExtend | core/Statevia.Core/ExecutionGraph/ExecutionGraph.cs:22-42 | each of the three mutators only extends the graph: no node or edge is removed, reordered or re-identified |
| Trace.CompleteTwice | core/Statevia.Core/ExecutionGraph/ExecutionGraph.cs:34-35 | completing the same node twice keeps only the second record |
| Trace.FindNodeStable | core/Statevia.Core/ExecutionGraph/ExecutionGraph.cs:34 | the lookup depends only on the node ids, so completing a node never moves the node later lookups find |
| Instance.NewInstance | src/Statevia.Core/Engine/WorkflowEngine.cs:32-39 | a started instance holds the definition, a tracker over its join table, an empty graph, no outputs, no active states and no flag |
| Instance.SetOutput | core/Statevia.Core/Engine/WorkflowInstance.cs:36 | afterwards the state's output is the given one, every other state's lookup is unchanged, and nothing else in the instance changes |
| Instance.TryGetOutput | core/Statevia.Core/Engine/WorkflowInstance.cs:37 | nothing exactly when the state never recorded an output; otherwise a recorded output of the state |
| Instance.AddActiveState | core/Statevia.Core/Engine/WorkflowInstance.cs:38 | the active set gains the state and nothing else changes |
| Instance.RemoveActiveState | core/Statevia.Core/Engine/WorkflowInstance.cs:39 | the active set loses the state (absent or not) and nothing else changes |
| Instance.MarkCompleted | core/Statevia.Core/Engine/WorkflowInstance.cs:41 | sets only the completed flag |
| Instance.MarkCancelled | core/Statevia.Core/Engine/WorkflowInstance.cs:42 | sets only the cancelled flag |
| Instance.MarkFailed | core/Statevia.Core/Engine/WorkflowInstance.cs:43 | sets only the failed flag |
| Instance.GetActiveStates | core/Statevia.Core/Engine/WorkflowInstance.cs:40 | lists exactly the active states, each once |
| Instance.ToSnapshot | src/Statevia.Core/Engine/WorkflowSnapshotExtensions.cs:11-23 | the snapshot copies id, definition name and the three flags, and lists exactly the active states once each |
| Instance.SetOutputOverwrites | core/Statevia.Core/Engine/WorkflowInstance.cs:36-39 | a second output for a state replaces the first; adding then removing a state that was not active restores the instance |
| Engine.AddLinkedNode | src/Statevia.Core/Engine/WorkflowEngine.cs:84-85 | appends the state's node, and an edge from the source node only when both source node and edge type are given |
| Engine.RunJoinState | src/Statevia.Core/Engine/WorkflowEngine.cs:121-133 | the join gets a node completed at once with Joined and no output; a Next transition on Joined schedules its target with the join inputs, End completes the workflow, anything else schedules nothing; tracker, outputs, active set and the other flags are untouched |
| Engine.JoinedGraph | src/Statevia.Core/Engine/WorkflowEngine.cs:125-127 | the join node is the last node, already completed with the Joined fact |
| Engine.ScheduleBegin | src/Statevia.Core/Engine/WorkflowEngine.cs:72-86 | a join state goes to the join path without any readiness check; a state without executor changes nothing; otherwise a running node is linked and the state becomes active, nothing else changes |
| Engine.FactOf | src/Statevia.Core/Engine/WorkflowEngine.cs:96-114 | a normal return yields Completed, an OperationCanceledException Cancelled and any other exception Failed, and conversely |
| Engine.ProcessFact | src/Statevia.Core/Engine/WorkflowEngine.cs:135-150 | the fact is recorded in the join tracker first; a join it makes ready runs with a Join edge and nothing else changes; otherwise Failed or Cancelled marks the workflow failed and cancelled and schedules nothing; otherwise the FSM decides: no transition does nothing more, an end marks the workflow completed, a fork schedules each branch with a Fork edge, and a next state is scheduled with a Next edge; graph, outputs and active set are never touched and no flag is cleared |
| Engine.ForkActions | src/Statevia.Core/Engine/WorkflowEngine.cs:145-147 | one schedule per fork entry, in list order, each from the state's node with a Fork edge and no input |
| Engine.FinishState | src/Statevia.Core/Engine/WorkflowEngine.cs:96-118 | the state is no longer active, a success stores its output (a failure keeps the outputs), the node is completed with the run's fact and output, and then the fact is processed |
| Engine.StepsKeepFlags | src/Statevia.Core/Engine/WorkflowEngine.cs:72-150 | no step ever clears the completed, cancelled or failed flag |
| Engine.FailureStops | src/Statevia.Core/Engine/WorkflowEngine.cs:140 | a failing or cancelled state that no join lists marks the workflow failed and cancelled and schedules nothing |
| Engine.ForkFansOut | src/Statevia.Core/Engine/WorkflowEngine.cs:142-147 | a completed state whose transition forks schedules every fork entry, in order |
| Engine.Start | src/Statevia.Core/Engine/WorkflowEngine.cs:28-44 | registers a fresh instance and a fresh event provider under the new id, leaves every other id's provider as it was, and schedules the initial state with no source node |
| Engine.PublishEvent | src/Statevia.Core/Engine/WorkflowEngine.cs:47-50 | every instance's provider is published to; afterwards no provider holds a list for the name and the lists of other names are unchanged |
| Engine.PublishEventResolves | src/Statevia.Core/Engine/WorkflowEngine.cs:47-50 | a pending listed waiter of any instance is resolved by the broadcast |
| Engine.CancelWorkflow | src/Statevia.Core/Engine/WorkflowEngine.cs:53-57 | sets only the cancelled flag of a known instance; an unknown id changes nothing |
| Engine.GetSnapshot | src/Statevia.Core/Engine/WorkflowEngine.cs:59-60 | nothing exactly for an unknown id; otherwise the instance's snapshot |
| Engine.ExportExecutionGraph | src/Statevia.Core/Engine/WorkflowEngine.cs:63-64 | the empty JSON object exactly for an unknown id; otherwise the instance's graph |
| Definition.TransitionRefs | src/Statevia.Core/Definition/DefinitionCompiler.cs:92-93 | exactly the transition's next and its fork entries |
| Definition.StateRefs | src/Statevia.Core/Definition/DefinitionCompiler.cs:89-96 | exactly the names a state's transitions and its `allOf` list mention |
| Definition.Referenced | src/Statevia.Core/Definition/DefinitionCompiler.cs:86-97 | a name is referenced exactly when some state mentions it |
| Definition.FirstUnreferenced | src/Statevia.Core/Definition/DefinitionCompiler.cs:98 | the first state outside the referenced set, all earlier ones referenced; -1 exactly when every state is referenced |
| Definition.InitialState | src/Statevia.Core/Definition/DefinitionCompiler.cs:84-101 | none exactly for a definition without states; otherwise a declared state: the first unreferenced one when there is one, else the first state |
| Definition.StateTransitions | src/Statevia.Core/Definition/DefinitionCompiler.cs:36-43 | a fact has a compiled target exactly when one of its transitions is kept (next is not the state itself and something is set), and that target is the written one |
| Definition.TransitionTable | src/Statevia.Core/Definition/DefinitionCompiler.cs:30-47 | a state has a row exactly when it is declared and keeps at least one transition, and the row is its compiled transitions |
| Definition.CompiledTarget | src/Statevia.Core/Definition/DefinitionCompiler.cs:30-47 | querying the compiled table with a written (state, fact) pair gives the written transition when it is kept and nothing otherwise |
| Definition.NoSelfNext | src/Statevia.Core/Definition/DefinitionCompiler.cs:39 | no compiled transition names its own state as next |
| Definition.StateTransitionsFrom | src/Statevia.Core/Definition/DefinitionCompiler.cs:37-43 | every compiled fact comes from a kept written transition |
| Definition.FirstFork | src/Statevia.Core/Definition/DefinitionCompiler.cs:55-58 | the first non-empty fork list in `on` order, and none exactly when there is none |
| Definition.ForkTableLookup | src/Statevia.Core/Definition/DefinitionCompiler.cs:49-61 | the fork table names only declared states, and each state finds its first non-empty fork list there |
| Definition.JoinTable | src/Statevia.Core/Definition/DefinitionCompiler.cs:63-72 | exactly the states with a non-empty `allOf`, each with that list |
| Definition.WaitTable | src/Statevia.Core/Definition/DefinitionCompiler.cs:74-82 | exactly the states that wait, each with its event name |
| Definition.JoinTableAppend | src/Statevia.Core/Definition/DefinitionCompiler.cs:63-72 | the join table lists its states in the definition's order: the table of two concatenated state lists is the concatenation of their tables |
| Definition.WaitTableAppend | src/Statevia.Core/Definition/DefinitionCompiler.cs:74-82 | the wait table lists its states in the definition's order: the table of two concatenated state lists is the concatenation of their tables |
| Definition.Compile | src/Statevia.Core/Definition/DefinitionCompiler.cs:16-28 | fails exactly for a definition without states; otherwise carries the name, the four tables and the initial state |
| Validation.UnknownIn | src/Statevia.Core/Definition/Validation/Level1Validator.cs:36-39 | no message exactly when every listed name is a state, and at most one message per listed name |
| Validation.TransitionErrors | src/Statevia.Core/Definition/Validation/Level1Validator.cs:23-40 | no message exactly when next is neither the state itself nor unknown and every fork entry is a state |
| Validation.OnErrors | src/Statevia.Core/Definition/Validation/Level1Validator.cs:19-42 | no message exactly when no transition of the state has one |
| Validation.StateErrors | src/Statevia.Core/Definition/Validation/Level1Validator.cs:18-49 | a blank name yields only the empty-name message and stops there |
| Validation.StatesErrors | src/Statevia.Core/Definition/Validation/Level1Validator.cs:16-50 | no message exactly when no state has one |
| Validation.Level1 | src/Statevia.Core/Definition/Validation/Level1Validator.cs:9-52 | a definition without states gets only the at-least-one-state message; otherwise the messages of its states in order |
| Validation.Level1Accepts | src/Statevia.Core/Definition/Validation/Level1Validator.cs:9-61 | Level 1 reports nothing exactly when there is a state, no state name is blank, no next is the state itself, and every next, fork entry and `allOf` entry names a declared state |
| Validation.StateAccepts | src/Statevia.Core/Definition/Validation/Level1Validator.cs:18-49 | one state yields no message exactly when it is clean in that sense |
| Validation.TargetList | src/Statevia.Core/Definition/Validation/Level2Validator.cs:56-60 | exactly the next and fork targets of the transitions |
| Validation.ComputeReachable | src/Statevia.Core/Definition/Validation/Level2Validator.cs:45-64 | the returned set is exactly the states reachable from the start along next and fork targets of declared states |
| Validation.Search | src/Statevia.Core/Definition/Validation/Level2Validator.cs:47-62 | the breadth-first search marks exactly the reachable states |
| Validation.CircularIffLasso | src/Statevia.Core/Definition/Validation/Level2Validator.cs:66-77 | the depth-first join search reports a cycle exactly when a walk through declared join states from the join ends in a visited or repeated state |
| Validation.LassoIsCircular | src/Statevia.Core/Definition/Validation/Level2Validator.cs:66-77 | every such walk is found by the search |
| Validation.CircularMessages | src/Statevia.Core/Definition/Validation/Level2Validator.cs:21-25 | no message exactly when the search finds no cycle from any join state |
| Validation.Outside | src/Statevia.Core/Definition/Validation/Level2Validator.cs:18 | exactly the declared states outside the reached set |
| Validation.OutsideIsUnreachable | src/Statevia.Core/Definition/Validation/Level2Validator.cs:17-18 | the states outside the search's result are exactly the declared states the initial state does not reach |
| Validation.UnreachableMessages | src/Statevia.Core/Definition/Validation/Level2Validator.cs:19 | no message exactly when no state is unreachable |
| Validation.Level2 | src/Statevia.Core/Definition/Validation/Level2Validator.cs:9-27 | fails (the source throws) exactly for a definition without states; otherwise the unreachable-states message, if any, then one message per circular join state |
| Validation.UnreachableEmpty | src/Statevia.Core/Definition/Validation/Level2Validator.cs:17-19 | no state is unreachable exactly when the initial state reaches every declared state |
| Validation.Level2Accepts | src/Statevia.Core/Definition/Validation/Level2Validator.cs:9-27 | Level 2 reports nothing exactly when every state is reachable from the initial state and no join state leads to a join cycle |
| Validation.Validate | src/Statevia.Core/Definition/Validation/DefinitionValidator.cs:13-24 | Level 1's messages when there are any, else Level 2's; no message exactly when both levels accept |
| Loader.ToStringDict | src/Statevia.Core/Definition/DefinitionLoader.cs:135-154 | the result has distinct keys, and anything that is not a mapping gives the empty mapping |
| Loader.PutAllKeys | src/Statevia.Core/Definition/DefinitionLoader.cs:146-152 | the keys of the converted mapping are exactly the rendered keys of its entries |
| Loader.GetChildDict | src/Statevia.Core/Definition/DefinitionLoader.cs:126-133 | a missing or null child is the empty mapping; the result has distinct keys |
| Loader.GetStr | src/Statevia.Core/Definition/DefinitionLoader.cs:156-157 | nothing exactly when the key is missing or null; otherwise the value's rendering |
| Loader.GetBool | src/Statevia.Core/Definition/DefinitionLoader.cs:159-170 | missing or null is false, a boolean is itself, and a string spelled "true" in any ASCII case is true |
| Loader.GetStrList | src/Statevia.Core/Definition/DefinitionLoader.cs:172-183 | nothing exactly when the key is missing or its value is not enumerable; a list gives its rendered items and a string its characters |
| Loader.ParseTransition | src/Statevia.Core/Definition/DefinitionLoader.cs:119-124 | next, fork and end are read with the lenient getters |
| Loader.ParseOn | src/Statevia.Core/Definition/DefinitionLoader.cs:102-117 | only keys of the input appear, and distinct input keys stay distinct |
| Loader.ParseState | src/Statevia.Core/Definition/DefinitionLoader.cs:66-100 | `wait` is present exactly when its mapping has an event, `join` exactly when its `allOf` is enumerable; `on` keys are distinct |
| Loader.ParseStates | src/Statevia.Core/Definition/DefinitionLoader.cs:49-64 | only keys of the input appear, state names and every state's `on` keys are distinct |
| Loader.Load | src/Statevia.Core/Definition/DefinitionLoader.cs:24-47 | a null document fails with the invalid-document message and nothing else fails; the name is the workflow's name or "Unnamed"; every loaded state is a key of the states mapping |
| Loader.EmittedDict | src/Statevia.Core/Definition/DefinitionLoader.cs:135-154 | a mapping with string keys converts back to the same dictionary |
| Loader.LoadEmit | src/Statevia.Core/Definition/DefinitionLoader.cs:24-183 | a definition that a document can express loads back unchanged from its written-out form |
| Loader.ParseEmittedStates | src/Statevia.Core/Definition/DefinitionLoader.cs:49-64 | the written-out states mapping parses back to the states |
| Loader.ParseEmittedState | src/Statevia.Core/Definition/DefinitionLoader.cs:66-100 | one written-out state is a non-empty mapping and parses back to itself |
| Loader.ParseEmittedOn | src/Statevia.Core/Definition/DefinitionLoader.cs:102-117 | a written-out `on` mapping parses back to itself |
| Loader.ParseEmittedTransition | src/Statevia.Core/Definition/DefinitionLoader.cs:119-124 | a written-out transition is a non-empty mapping and parses back to itself |
| Reducer.RanksInjective | services/core-api/src/core/reducer.ts:3-18 | different statuses have different ranks, so "outranks" is a total order on each status kind |
| Reducer.ChooseExecStatus | services/core-api/src/core/reducer.ts:20-22 | one of the two statuses, at least as high as both |
| Reducer.ChooseNodeStatus | services/core-api/src/core/reducer.ts:24-26 | one of the two statuses, at least as high as both |
| Reducer.Normalize | services/core-api/src/core/reducer.ts:56-69 | the result is normalised (a cancelled execution has no IDLE, READY, RUNNING or WAITING node); a non-cancelled state is unchanged; only open nodes of a cancelled execution change, becoming CANCELED and marked as cancelled by the execution |
| Reducer.NormalizeFixedPoint | services/core-api/src/core/reducer.ts:56-69 | normalising changes nothing exactly when the state is already normalised, so normalising twice is normalising once |
| Reducer.UpdateNodeStatus | services/core-api/src/core/reducer.ts:49-54 | only the named node can change, and its status becomes the higher-ranked of its own and the candidate; a missing node leaves the state unchanged |
| Reducer.StartNode | services/core-api/src/core/reducer.ts:138-156 | the node's status is at least RUNNING, its attempt is the larger of its own and the payload's (1 when absent), its worker is replaced only when the payload names one; nothing else changes |
| Reducer.WaitNode | services/core-api/src/core/reducer.ts:158-166 | the node's status is at least WAITING and its wait key is replaced only when the payload has one |
| Reducer.SucceedNode | services/core-api/src/core/reducer.ts:172-178 | the node's status is at least SUCCEEDED and its output is replaced only by a non-null payload output |
| Reducer.FailNode | services/core-api/src/core/reducer.ts:180-193 | NODE_FAILED raises the status to at least FAILED, NODE_FAIL_REPORTED keeps it; both replace the error only with a non-null payload error |
| Reducer.CreateNode | services/core-api/src/core/reducer.ts:116-132 | an existing node is kept as is; otherwise a new IDLE node at attempt 0 with the payload's id and type is added |
| Reducer.ExecutionStep | services/core-api/src/core/reducer.ts:79-114 | nodes are untouched; a set timestamp is never overwritten; EXECUTION_CREATED sets ACTIVE and the graph id; every other execution event keeps or raises the status rank, and each terminal event sets its timestamp and reaches at least its status rank |
| Reducer.NodeStep | services/core-api/src/core/reducer.ts:116-197 | only the named node can change; NODE_CREATED adds a node, every other node event keeps or raises that node's status rank |
| Reducer.StepCases | services/core-api/src/core/reducer.ts:78-202 | execution events take the execution branch, node events the node branch, and audit-only events change nothing |
| Reducer.Reduce | services/core-api/src/core/reducer.ts:71-204 | another schema version and progress events after a cancel request change nothing; an applied event leaves the state normalised; the execution id, version and node ids are kept |
| Reducer.TimestampsFirstWriteWins | services/core-api/src/core/reducer.ts:88-114 | a timestamp that is set is never overwritten by any event |
| Reducer.TimestampsSet | services/core-api/src/core/reducer.ts:88-114 | each applied execution event sets its timestamp; EXECUTION_CANCELED ends CANCELED |
| Reducer.ExecRankMonotone | services/core-api/src/core/reducer.ts:79-114 | the execution status never loses rank, except that EXECUTION_CREATED resets it to ACTIVE |
| Reducer.NodesOnlyGrow | services/core-api/src/core/reducer.ts:116-132 | no node ever disappears, and only NODE_CREATED adds one, the one it names |
| Reducer.NodeRankMonotone | services/core-api/src/core/reducer.ts:49-69 | no node's status ever loses rank |
| Reducer.ResumedKeepsWaiting | services/core-api/src/core/reducer.ts:168-170 | NODE_RESUMED does not lower a WAITING node to RUNNING, because WAITING outranks RUNNING |
| Reducer.MissingNodeNoop | services/core-api/src/core/reducer.ts:49-51 | in a normalised state, a node event (other than NODE_CREATED) for a missing node and any audit-only event change nothing |
| Reducer.CreatedNeverOverwrites | services/core-api/src/core/reducer.ts:116-132 | after NODE_CREATED the node exists; an existing node is only normalised, a new one starts IDLE at attempt 0 unless the execution is cancelled |
| Reducer.StartedAttempt | services/core-api/src/core/reducer.ts:138-156 | NODE_STARTED raises the attempt to the payload's (1 when absent), never lowers it, and keeps the worker when the payload names none |
| Commands.MkEvent | services/core-api/src/core/commands.ts:9-20 | the event carries the execution id, type, actor, payload and correlation id given, the supplied id and time, and schema version 1 |
| Commands.CmdCreateExecution | services/core-api/src/core/commands.ts:25-37 | exactly one EXECUTION_CREATED event of the execution, carrying the graph id and input |
| Commands.ExecutionGuards | services/core-api/src/core/commands.ts:40-41 | a 409 error exactly when the execution is terminal or a cancel request is recorded (by truthiness) |
| Commands.CmdStartExecution | services/core-api/src/core/commands.ts:39-43 | fails with 409 exactly when the guards fail; otherwise one EXECUTION_STARTED event |
| Commands.CmdCancelExecution | services/core-api/src/core/commands.ts:45-56 | no event for a terminal execution; otherwise EXECUTION_CANCELED, preceded by EXECUTION_CANCEL_REQUESTED when no request is recorded yet; every event carries the reason |
| Commands.NodeGuards | services/core-api/src/core/commands.ts:59-62 | passes exactly when the execution is live, not cancel-requested, and the node exists with an allowed status; 404 exactly when only the node is missing |
| Commands.CmdPutNodeWaiting | services/core-api/src/core/commands.ts:58-66 | accepted exactly for a RUNNING node of a live execution; then one NODE_WAITING event for the node with the wait key |
| Commands.CmdResumeNode | services/core-api/src/core/commands.ts:68-77 | accepted exactly for a WAITING node of a live execution; then one NODE_RESUMED event for the node |
| Commands.CmdCreateNode | services/core-api/src/core/commands.ts:80-87 | fails exactly when the execution guards fail; an existing node yields no event, a new one one NODE_CREATED event with its id and type |
| Commands.CmdStartNode | services/core-api/src/core/commands.ts:90-98 | accepted exactly for an IDLE or READY node of a live execution; then one NODE_STARTED event with the attempt and worker |
| Commands.ApplyEvents | services/core-api/src/core/commands.ts:101-102 | folding keeps the execution id, keeps a normalised state normalised and never loses a node |
| Commands.ApplyEventsAppend | services/core-api/src/core/commands.ts:101-102 | applying a concatenation applies the parts in turn |
| Commands.CancelConverges | services/core-api/src/core/commands.ts:45-56 | cancelling a live execution and applying the events leaves it CANCELED with cancel-request and cancellation times set and no open node |
| Commands.CancelTwoEvents | services/core-api/src/core/commands.ts:49-55 | the request-then-cancel pair on an ACTIVE execution settles it as CANCELED with no open node |
| Commands.StartNodeRuns | services/core-api/src/core/commands.ts:90-98 | an accepted start, once applied, makes the node RUNNING with its attempt raised to the requested one |
| Commands.ResumeLeavesWaiting | services/core-api/src/core/commands.ts:68-77 | an accepted resume, once applied, leaves the node WAITING |
| Commands.EmptyCancelRequestGap | services/core-api/src/core/commands.ts:41 | with an empty-string cancel-request time the guards accept a node command whose event the reducer then ignores |
| Guards.EnsureNotTerminalExecution | services/core-api/src/core/guards.ts:4-8 | a 409 error exactly when the execution is COMPLETED, FAILED or CANCELED |
| Guards.EnsureCancelNotRequested | services/core-api/src/core/guards.ts:10-14 | a 409 error exactly when the cancel-request time is present and non-empty (JavaScript truthiness) |
| Guards.GetNodeOrThrow | services/core-api/src/core/guards.ts:16-20 | the node itself when it exists, else a 404 error |
| Guards.EnsureNodeStatus | services/core-api/src/core/guards.ts:22-25 | a 409 error exactly when the status is not among the allowed ones |
| DomainGuards.EnsureNotTerminalExecution | services/core-api/src/domain/domain-services/guards.ts:9-13 | an EXECUTION_TERMINAL error exactly when the execution is not ACTIVE |
| DomainGuards.EnsureCancelNotRequested | services/core-api/src/domain/domain-services/guards.ts:15-19 | an EXECUTION_CANCEL_REQUESTED error exactly when the cancel-request time is present and non-empty |
| DomainGuards.GetNodeOrThrow | services/core-api/src/domain/domain-services/guards.ts:21-25 | the node itself when it exists, else a NODE_NOT_FOUND error |
| DomainGuards.EnsureNodeStatus | services/core-api/src/domain/domain-services/guards.ts:27-31 | a NODE_STATUS_INVALID error exactly when the status is not among the allowed ones |
| Orchestrators.ConvergeDecision | services/core-api/src/core/orchestrator.ts:42-66 | an event exactly when the execution is live, a cancel is requested (by truthiness), no node is RUNNING or WAITING and no cancellation time is set; the event is EXECUTION_CANCELED of that execution with the reason |
| Orchestrators.ConvergeCancel | services/core-api/src/core/orchestrator.ts:33-82 | emits under the same condition, folds the event in with the core reducer, and the new state is CANCELED with a cancellation time and no open node |
| Orchestrators.ConvergeCancelWith | services/core-api/src/application/services/orchestrator.ts:38-86 | emits under the same condition and folds the event in with the given reducer |
| Orchestrators.OrchestratorsAgree | services/core-api/src/application/services/orchestrator.ts:38-86 | with the core reducer plugged in, the application-layer orchestrator decides and produces exactly what the core one does |
| Orchestrators.ConvergeOnce | services/core-api/src/core/orchestrator.ts:42-45 | converging again after an emission emits nothing: the execution is then terminal |
| GraphLayout.SizeOfType | services/ui/app/lib/graphLayout.ts:30-42 | 180x70 exactly for START, SUCCESS, COMPLETED and SUCCEEDED, 240x150 exactly for WAIT and WAITING, 200x120 exactly for JOIN, 240x120 exactly for every other type |
| GraphLayout.WeightOfType | services/ui/app/lib/graphLayout.ts:44-54 | 10 exactly for START, 20 exactly for TASK, WAIT and WAITING, 30 for FORK, 40 for JOIN, 50 exactly for the five terminal types, 35 exactly for every other type |
| GraphLayout.SizeAndWeightNormalized | services/ui/app/lib/graphLayout.ts:26-54 | size and weight depend only on the trimmed, upper-cased type |
| GraphLayout.InsertByPermutes | services/ui/app/lib/graphLayout.ts:57 | inserting one element adds exactly that element |
| GraphLayout.InsertBySorted | services/ui/app/lib/graphLayout.ts:57 | inserting into a sorted sequence keeps it sorted |
| GraphLayout.SortBy | services/ui/app/lib/graphLayout.ts:57 | the result is sorted by the key and a permutation of the input |
| GraphLayout.SortStable | services/ui/app/lib/graphLayout.ts:57 | elements with equal keys keep their input order, as in the stable built-in array sort |
| GraphLayout.SortByWeight | services/ui/app/lib/graphLayout.ts:57 | the nodes sorted by fallback weight: sorted, a permutation, and stable |
| GraphLayout.ChainEdges | services/ui/app/lib/graphLayout.ts:58-66 | one fewer edge than nodes (none for no nodes); edge i runs from node i to node i+1, is "normal" and has the fallback id |
| GraphLayout.FirstOfType | services/ui/app/lib/graphLayout.ts:68-69 | the first node of the type, or -1 exactly when there is none |
| GraphLayout.OtherThanMembers | services/ui/app/lib/graphLayout.ts:72 | exactly the nodes with another id |
| GraphLayout.BranchEdges | services/ui/app/lib/graphLayout.ts:70-86 | nothing without a FORK node or without two nodes of another id; otherwise fork edges to the first two such nodes, then join edges from them when a JOIN node exists |
| GraphLayout.FirstIdOfType | services/ui/app/lib/graphLayout.ts:68-69 | an id exactly when some node has the type, and then the first such node's id |
| GraphLayout.BuildFallbackEdges | services/ui/app/lib/graphLayout.ts:56-87 | one chain edge fewer than nodes plus at most four branch edges; without a FORK node among the inputs only the chain |
| GraphLayout.ChainFollowsWeight | services/ui/app/lib/graphLayout.ts:57-66 | the first edges are normal edges chaining the nodes in weight order, each from a node to the next sorted one, which weighs at least as much |
| GraphLayout.FallbackBranches | services/ui/app/lib/graphLayout.ts:69-86 | after the chain: nothing more without a FORK node or without two other nodes; otherwise two fork edges from the first FORK node to the first two other nodes in weight order, followed, when there is a JOIN node, by two join edges from those nodes to the first JOIN node |
| GraphLayout.FallbackEndpoints | services/ui/app/lib/graphLayout.ts:56-87 | every fallback edge runs between ids of input nodes |
| Grouping.FindIndex | services/ui/app/lib/grouping.ts:20-21 | the first id containing the fragment, or -1 exactly when none does |
| Grouping.NodeIds | services/ui/app/lib/grouping.ts:19 | the node ids in list order |
| Grouping.BuildGroups | services/ui/app/lib/grouping.ts:15-33 | no group (and an empty index) exactly when there is no fork id, no join id, or the first join id does not come after the first fork id; otherwise one fallback group holding the ids from the first fork id to the first join id, and exactly those ids indexed to it |
| Grouping.BlockGroup | services/ui/app/lib/grouping.ts:26-31 | one "Fork-Join Block" group of the block, and exactly the block's ids mapped to it |
| Grouping.BuildGroupsWhen | services/ui/app/lib/grouping.ts:20-24 | a group is built exactly when some fork id comes before any join id and a join id follows it |
| Grouping.BuildGroupsBlock | services/ui/app/lib/grouping.ts:26 | the block has at least two ids, starts at a fork id and ends at its only join id |
| Grouping.Forks | services/ui/app/lib/grouping.ts:37-39 | only input nodes whose id contains "fork-" or whose normalised type is FORK |
| Grouping.JoinIds | services/ui/app/lib/grouping.ts:40-44 | exactly the ids of nodes whose id contains "join-" or whose normalised type is JOIN |
| Grouping.Outgoing | services/ui/app/lib/grouping.ts:47-52 | at most one target per edge |
| Grouping.OutgoingMembers | services/ui/app/lib/grouping.ts:47-52 | a target is listed exactly when some edge from the node leads to it |
| Grouping.WalkFrom | services/ui/app/lib/grouping.ts:59-71 | from any visited list and queue where every edge out of an expanded visited node leads to a visited or queued id, the finished walk starts with the fork, holds distinct positioned non-empty ids after it, is closed under the edges of its expanded nodes, and has every id after the fork fed by an earlier expanded id |
| Grouping.Walk | services/ui/app/lib/grouping.ts:56-71 | the walk's ids are distinct positioned ids starting with the fork; every non-empty positioned target of an edge out of the fork or a visited non-join node is visited; and every visited id after the fork is the target of an edge from the fork or a non-join node visited before it, so each is reachable from the fork |
| Grouping.PresentIds | services/ui/app/lib/grouping.ts:73 | the visited ids that are positioned, unchanged when all are |
| Grouping.InferGroupsFromGraph | services/ui/app/lib/grouping.ts:35-83 | no group without a fork or a join; otherwise exactly the groups the forks give, in fork order; at most one group per fork, and no two groups share an id; each group has at least three ids, is closed under and reached by the walk from its fork, and is numbered after that fork's position |
| Grouping.ForkGroupInferred | services/ui/app/lib/grouping.ts:56-80 | the group a fork gives starts with that fork, has at least three positioned ids, the "Parallel Block" label and the fork's number, and is closed under and reached by its walk |
| Grouping.GroupsFromInferred | services/ui/app/lib/grouping.ts:54-82 | every group the forks give is such an inferred group |
| Grouping.GroupsFromMembers | services/ui/app/lib/grouping.ts:54-82 | a fork gives a group exactly when its walk holds at least three positioned ids, and that group holds exactly those ids under the "Parallel Block" label |
| Grouping.GroupsFromHas | services/ui/app/lib/grouping.ts:74-82 | a fork whose walk holds three positioned ids keeps its group in the result |
| Grouping.GroupIdsDistinct | services/ui/app/lib/grouping.ts:54-82 | no two inferred groups share an id |
| Common.NatToStringInjective | services/ui/app/lib/grouping.ts:77 | distinct group numbers render as distinct decimal strings |
| Grouping.LastById | services/ui/app/lib/grouping.ts:100 | a node exactly when some node has the id, and then one with that id |
| Grouping.Members | services/ui/app/lib/grouping.ts:104 | at most one member per listed id |
| Grouping.MembersComplete | services/ui/app/lib/grouping.ts:104 | every listed id that is positioned contributes its node |
| Grouping.MinX | services/ui/app/lib/grouping.ts:106 | the least x of the members, attained by one of them |
| Grouping.MinY | services/ui/app/lib/grouping.ts:107 | the least y of the members, attained by one of them |
| Grouping.MaxRight | services/ui/app/lib/grouping.ts:108 | the largest right edge of the members, attained by one of them |
| Grouping.MaxBottom | services/ui/app/lib/grouping.ts:109 | the largest bottom edge of the members, attained by one of them |
| Grouping.PaddingOf | services/ui/app/lib/grouping.ts:97-99 | the hinted padding, else 40, 30 and a 28 header |
| Grouping.BoundsOf | services/ui/app/lib/grouping.ts:103-120 | nothing exactly when no id of the group is positioned; otherwise a box with the group's id, label and ids that encloses every member with the padding and header and touches the padded extremes |
| Grouping.AllBounds | services/ui/app/lib/grouping.ts:102-121 | at most one box per group, each the box of one of the groups |
| Grouping.ResolveGroupBounds | services/ui/app/lib/grouping.ts:85-122 | the boxes of the definition's groups when there are any; otherwise the boxes of the inferred groups, which are none without a fork or a join; every box has a positioned member and encloses all its members with the padding |
| MergeGraph.AsIdleNode | services/ui/app/lib/mergeGraph.ts:31-41 | a stand-in node with the given id and type, IDLE, attempt 0, no worker, no wait key, not cancelled by the execution |
| MergeGraph.ToEdge | services/ui/app/lib/mergeGraph.ts:43-50 | the edge keeps its ends and kind and is identified by both ends and its position |
| MergeGraph.RuntimeNode | services/ui/app/lib/mergeGraph.ts:53 | a runtime node exactly when one has the id, and then the last one with it |
| MergeGraph.MergeNode | services/ui/app/lib/mergeGraph.ts:73-85 | a definition node keeps its id, type and branch, is labelled by its label or else its id, and shows the status, attempt, wait key and cancel flag of its runtime node, or of an idle one when there is none |
| MergeGraph.MergeGraph | services/ui/app/lib/mergeGraph.ts:52-95 | without a definition every runtime node is drawn, labelled by its id, with no edges, no groups and left-to-right hints; with one, exactly the definition's nodes (merged) and edges (numbered) are drawn, in its order, with its groups (none when absent) and hints |
| MergeGraph.DefinitionDecidesNodes | services/ui/app/lib/mergeGraph.ts:73-85 | with a definition, an id is drawn exactly when the definition has a node with it |
| MergeGraph.RuntimeStatusShown | services/ui/app/lib/mergeGraph.ts:74-83 | a definition node the execution has not created is drawn idle at attempt 0; one it has created shows the last such runtime node's status and attempt |
| StatusStyle.OfExecution | services/ui/app/lib/statusStyle.ts:3 | execution statuses map to ACTIVE, COMPLETED, FAILED or CANCELED |
| StatusStyle.OfNode | services/ui/app/lib/statusStyle.ts:3 | node statuses never map to ACTIVE or COMPLETED |
| StatusStyle.GetStatusStyle | services/ui/app/lib/statusStyle.ts:14-91 | every emphasis rank lies in 10..100; 100 exactly for CANCELED and 10 exactly for IDLE |
| StatusStyle.EmphasisExtremes | services/ui/app/lib/statusStyle.ts:14-87 | CANCELED is emphasised strictly more, and IDLE strictly less, than any other status |
| StatusStyle.SharedStyles | services/ui/app/lib/statusStyle.ts:14-87 | ACTIVE is styled like READY and COMPLETED like SUCCEEDED; the failed and cancelled statuses of executions and nodes share one entry each |
| StatusStyle.GetNodeSortWeight | services/ui/app/lib/statusStyle.ts:93-104 | weights lie in 1..7; 1 exactly for WAITING and 7 exactly for IDLE |
| StatusStyle.NodeSortWeightBijective | services/ui/app/lib/statusStyle.ts:93-104 | the weight is a bijection from the seven node statuses onto 1..7 |
| NodeAppearance.AppearanceOf | services/ui/app/lib/nodeAppearance.ts:14-36 | drawn as a diamond exactly for JOIN; a known type gets a known label; any other type gets the box icon, the rounded shape, and its own name as label (TASK when empty) |
| NodeAppearance.GetNodeAppearance | services/ui/app/lib/nodeAppearance.ts:12-37 | diamond exactly when the normalised type is JOIN; an unknown normalised type is its own label, TASK when empty |
| NodeAppearance.AppearanceNormalized | services/ui/app/lib/nodeAppearance.ts:8-13 | the appearance depends only on the trimmed, upper-cased type |
| NodeAppearance.SharedRows | services/ui/app/lib/nodeAppearance.ts:17-27 | SUCCESS, SUCCEEDED and COMPLETED look alike and are labelled SUCCESS; WAIT and WAITING look alike and are labelled WAIT |
| UiText.TrimStartShape | services/ui/app/lib/graphLayout.ts:26-28 | trimming the start drops exactly a white-space prefix and stops at the first other character |
| UiText.TrimEndShape | services/ui/app/lib/graphLayout.ts:26-28 | trimming the end drops exactly a white-space suffix and stops at the last other character |
| UiText.TrimIsInfix | services/ui/app/lib/graphLayout.ts:26-28 | trimming keeps an infix with no white space at either end, dropping only white space on both sides |
| UiText.Upper | services/ui/app/lib/graphLayout.ts:26-28 | same length, each character upper-cased |
| UiText.NormalizeTypeIdempotent | services/ui/app/lib/graphLayout.ts:26-28 | a normalised type has no surrounding white space and no lower-case letter, and normalising it again changes nothing |
| PageHelpers.IsTerminalExecution | services/ui/app/page.tsx:17-21 | true exactly for COMPLETED, FAILED and CANCELED |
| PageHelpers.TerminalAgrees | services/ui/app/page.tsx:17-21 | the page's terminal set agrees with the core API's and is everything but ACTIVE |
| PageHelpers.ToToastError | services/ui/app/page.tsx:23-39 | always an error toast; 409, 422 and 500 get their own prefix before code and message, every other status reads code: message, with UNKNOWN and Unknown error standing in for missing fields |
| PageHelpers.ToastEndsWithMessage | services/ui/app/page.tsx:23-39 | every toast ends with the error's message; a missing error reads UNKNOWN: Unknown error |
| PageHelpers.GetResumeDisabledReason | services/ui/app/page.tsx:41-48 | no reason exactly when an execution and node are loaded, the execution is neither terminal nor cancel-requested and the node is WAITING; otherwise the first failing check, in that order, names the reason |
| PageHelpers.CanCancel | services/ui/app/page.tsx:59-60 | true exactly when an execution is loaded and it is ACTIVE |
| PageHelpers.ResumeImpliesCancel | services/ui/app/page.tsx:41-60 | whenever Resume is enabled Cancel is offered too |

## Left out

- Case-insensitive comparison: names, facts and event names are compared with plain equality, as if already case-folded. The source compares them with OrdinalIgnoreCase in the join tracker, the event provider, the instance's output and active-state keys, the loader's state and transition dictionaries (`ParseStates` and `ParseOn` in DefinitionLoader.cs, lines 51 and 104), the compiler's tables and the validators.
- Concurrency: the `lock` blocks, `ExecutionLimiter`, the schedulers and the fire-and-forget tasks are not modelled. Each locked section is one step, and each launch is an `Action` returned to the caller.
- `RunWorkflowAsync` and the state executors are not modelled: how an executor's run ended is an input to `Engine.FinishState`, and the executor factory is a lookup table in the definition.
- Generated ids and clocks: GUID node ids, workflow ids, `DateTime.UtcNow`, `crypto.randomUUID` and `new Date()` are parameters.
- Engine.ScheduleBegin, Engine.RunJoinState and Engine.StepsKeepFlags assume the node id passed in is not yet in the graph. The source relies on a fresh GUID for this.
- Reducer.CreateNode, Reducer.UpdateNodeStatus, Reducer.MissingNodeNoop and Reducer.NodesOnlyGrow treat node ids as own keys of the node record. In JavaScript a lookup such as `state.nodes["toString"]` finds an `Object.prototype` member, so an id naming one is taken as present; such ids are not modelled.
- Events.Wait assumes a fresh waiter id; the source creates a new task completion source each time.
- `ExportJson` serialisation of the execution graph is not modelled: `Engine.ExportExecutionGraph` returns the graph itself, or the empty-object text for an unknown id.
- YamlDotNet deserialisation and its scalar type resolution are not modelled. The loader starts from an already-deserialised value tree with null, boolean, integer, float, string, sequence and mapping nodes. A float is kept as the text the runtime renders for it.
- The compiled fork table is built by `Definition.ForkTableLookup`, but the engine never reads it: forks come from the transition table.
- dagre's `layoutGraph`, `applyBranchOffsets` (its `localeCompare` depends on the locale) and node size overrides are not modelled. Only the size and weight tables and `buildFallbackEdges` are.
- Coordinates, widths and heights in the UI are integers; the source uses JavaScript numbers.
- Trimming and upper-casing are ASCII-only. JavaScript's `trim` also strips Unicode white space, and `toUpperCase` maps non-ASCII letters.
- State outputs are opaque values: null or an abstract token. What an output object contains is not modelled.
- The domain-layer reducer used by the application orchestrator is not part of this model. `Orchestrators.ConvergeCancelWith` takes the reducer as a parameter.
- Error payloads are not modelled: guards return the error's status or code and message, but not its `details` object.
- Event payload fields that the reducer never reads are not modelled, nor are audit-only event types beyond their no-op effect.
- The React components, `fetch`, the persistence layer, the HTTP routes, idempotency, request hashing and zod validation are not modelled.
- That inputs are not mutated needs no statement: every value in the model is immutable.
