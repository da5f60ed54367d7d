/** The cancel-convergence decision of the two orchestrators
    (services/core-api/src/core/orchestrator.ts and
    services/core-api/src/application/services/orchestrator.ts): once a cancel has
    been requested and no node is still running or waiting, emit the one
    EXECUTION_CANCELED event and fold it into the state. Loading, locking and
    persisting are left out. */
module Orchestrators {
  import opened Common
  import opened Executions
  import opened Reducer
  import opened Commands

  /** Some node is RUNNING or WAITING. */
  predicate HasRunningNodes(s: ExecutionState) {
    exists id :: id in s.nodes && (s.nodes[id].status == Running || s.nodes[id].status == Waiting)
  }

  /** The emitted event and the state it leads to, or nothing to do. */
  datatype Convergence = NoChange | Emit(event: Event, newState: ExecutionState)

  /** The decision shared by both orchestrators: live, cancel requested (by
      truthiness), no running or waiting node, and not yet cancelled. */
  function ConvergeDecision(s: ExecutionState, actor: Actor, reason: Option<string>,
                            correlationId: Option<string>, stamp: Stamp): (e: Option<Event>)
    ensures e.Some? <==> !IsTerminal(s.status) && Truthy(s.cancelRequestedAt)
                         && !HasRunningNodes(s) && !Truthy(s.canceledAt)
    ensures e.Some? ==> e.value.eventType == ExecutionCanceled && e.value.schemaVersion == 1
                        && e.value.executionId == s.executionId && e.value.payload.reason == reason
  {
    if IsTerminal(s.status) then None
    else if !Truthy(s.cancelRequestedAt) then None
    else if !HasRunningNodes(s) && !Truthy(s.canceledAt) then
      Some(MkEvent(s.executionId, ExecutionCanceled, actor, EMPTY_PAYLOAD.(reason := reason), correlationId, stamp))
    else None
  }

  /** `convergeCancelAsync` of the core module: the new state is the event folded
      in with `applyEvents`. */
  function ConvergeCancel(s: ExecutionState, actor: Actor, reason: Option<string>,
                          correlationId: Option<string>, stamp: Stamp): (r: Convergence)
    ensures r.Emit? <==> !IsTerminal(s.status) && Truthy(s.cancelRequestedAt)
                         && !HasRunningNodes(s) && !Truthy(s.canceledAt)
    ensures r.Emit? ==> r.event.eventType == ExecutionCanceled && r.newState == ApplyEvents(s, [r.event])
    ensures r.Emit? ==> r.newState.status == ExecutionStatus.Canceled && r.newState.canceledAt.Some?
                        && forall id :: id in r.newState.nodes ==> !IsOpen(r.newState.nodes[id].status)
  {
    var e := ConvergeDecision(s, actor, reason, correlationId, stamp);
    if e.None? then NoChange
    else
      assert [e.value][1..] == [];
      Emit(e.value, ApplyEvents(s, [e.value]))
  }

  /** `convergeCancelAsync` of the application layer: the same decision, the
      event folded in with the domain reducer, which is a parameter here. */
  function ConvergeCancelWith(reduce: (ExecutionState, Event) -> ExecutionState, s: ExecutionState, actor: Actor,
                              reason: Option<string>, correlationId: Option<string>, stamp: Stamp): (r: Convergence)
    ensures r.Emit? <==> !IsTerminal(s.status) && Truthy(s.cancelRequestedAt)
                         && !HasRunningNodes(s) && !Truthy(s.canceledAt)
    ensures r.Emit? ==> r.event.eventType == ExecutionCanceled && r.newState == reduce(s, r.event)
  {
    var e := ConvergeDecision(s, actor, reason, correlationId, stamp);
    if e.None? then NoChange else Emit(e.value, reduce(s, e.value))
  }

  /** With the core reducer plugged in, the two orchestrators agree. */
  lemma OrchestratorsAgree(s: ExecutionState, actor: Actor, reason: Option<string>,
                           correlationId: Option<string>, stamp: Stamp)
    ensures ConvergeCancelWith(Reduce, s, actor, reason, correlationId, stamp)
            == ConvergeCancel(s, actor, reason, correlationId, stamp)
  {
    var e := ConvergeDecision(s, actor, reason, correlationId, stamp);
    if e.Some? {
      assert [e.value][1..] == [];
      assert ApplyEvents(s, [e.value]) == Reduce(s, e.value);
      var f: (ExecutionState, Event) -> ExecutionState := Reduce;
      assert f(s, e.value) == Reduce(s, e.value);
    }
  }

  /** Converging twice emits nothing the second time. */
  lemma ConvergeOnce(s: ExecutionState, actor: Actor, reason: Option<string>,
                     correlationId: Option<string>, stamp: Stamp, stamp2: Stamp)
    requires ConvergeCancel(s, actor, reason, correlationId, stamp).Emit?
    ensures ConvergeCancel(ConvergeCancel(s, actor, reason, correlationId, stamp).newState,
                           actor, reason, correlationId, stamp2).NoChange?
  {
  }
}
