/** The event-sourced execution state of the core API: statuses, node records,
    event envelopes and the execution aggregate they fold into. */
module Executions {
  import opened Common

  datatype ExecutionStatus = Active | Completed | Failed | Canceled

  datatype NodeStatus = Idle | Ready | Running | Waiting | Succeeded | Failed | Canceled

  datatype ActorKind = System | User | Scheduler | External

  datatype Actor = Actor(kind: ActorKind, id: Option<string>)

  /** The event types the reducer and its ignore list name; `Other` stands for
      every other type string (audit-only events). */
  datatype EventType =
    | ExecutionCreated | ExecutionStarted | ExecutionCancelRequested | ExecutionCanceled
    | ExecutionFailed | ExecutionCompleted
    | NodeCreated | NodeReady | NodeStarted | NodeWaiting | NodeResumed | NodeSucceeded
    | NodeFailReported | NodeFailed | NodeCanceled
    | NodeProgressReported | NodeResumeRequested | JoinPassed | JoinGateUpdated | ForkOpened
    | Other(name: string)

  /** The payload fields any event type reads or writes; a field an event does not
      carry is `None` / `Null` (JavaScript's `null` and `undefined` alike). */
  datatype Payload = Payload(
    graphId: string,
    input: Value,
    reason: Option<string>,
    nodeId: string,
    nodeType: string,
    attempt: Option<int>,
    workerId: Option<string>,
    waitKey: Option<string>,
    prompt: Value,
    resumeKey: Option<string>,
    output: Value,
    error: Value)

  const EMPTY_PAYLOAD := Payload("", Null, None, "", "", None, None, None, Null, None, Null, Null)

  /** An event envelope; `eventId` and `occurredAt` are supplied by the caller. */
  datatype Event = Event(
    eventId: string,
    executionId: string,
    eventType: EventType,
    occurredAt: string,
    actor: Actor,
    correlationId: Option<string>,
    schemaVersion: int,
    payload: Payload)

  datatype NodeState = NodeState(
    nodeId: string,
    nodeType: string,
    status: NodeStatus,
    attempt: int,
    workerId: Option<string>,
    waitKey: Option<string>,
    output: Value,
    error: Value,
    canceledByExecution: Option<bool>)

  datatype ExecutionState = ExecutionState(
    executionId: string,
    graphId: string,
    status: ExecutionStatus,
    cancelRequestedAt: Option<string>,
    canceledAt: Option<string>,
    failedAt: Option<string>,
    completedAt: Option<string>,
    version: int,
    nodes: map<string, NodeState>)

  predicate IsTerminal(status: ExecutionStatus) {
    status == ExecutionStatus.Completed || status == ExecutionStatus.Failed || status == ExecutionStatus.Canceled
  }

  /** JavaScript truthiness of an optional string: present and non-empty. */
  predicate Truthy(s: Option<string>) {
    s.Some? && s.value != ""
  }

  /** A node the execution still has to settle. */
  predicate IsOpen(status: NodeStatus) {
    status == Idle || status == Ready || status == Running || status == Waiting
  }
}
