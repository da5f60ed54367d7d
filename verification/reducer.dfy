/** The event reducer of the core API: status merging by rank, first-write-wins
    timestamps, cancel-request filtering and cancel normalisation
    (services/core-api/src/core/reducer.ts). */
module Reducer {
  import opened Common
  import opened Executions

  // ---------------------------------------------------------------------------
  // Status ranks: a status only ever moves to a higher rank

  function ExecRank(status: ExecutionStatus): int {
    match status
    case Canceled => 400
    case Failed => 300
    case Completed => 200
    case Active => 100
  }

  function NodeRank(status: NodeStatus): int {
    match status
    case Canceled => 700
    case Failed => 600
    case Succeeded => 500
    case Waiting => 400
    case Running => 300
    case Ready => 200
    case Idle => 100
  }

  /** Different statuses have different ranks, so rank order is a total order. */
  lemma RanksInjective()
    ensures forall a: ExecutionStatus, b: ExecutionStatus :: ExecRank(a) == ExecRank(b) ==> a == b
    ensures forall a: NodeStatus, b: NodeStatus :: NodeRank(a) == NodeRank(b) ==> a == b
  {
  }

  /** The higher-ranked of the current and the candidate status. */
  function ChooseExecStatus(current: ExecutionStatus, candidate: ExecutionStatus): (r: ExecutionStatus)
    ensures r == current || r == candidate
    ensures ExecRank(r) >= ExecRank(current) && ExecRank(r) >= ExecRank(candidate)
  {
    if ExecRank(candidate) > ExecRank(current) then candidate else current
  }

  function ChooseNodeStatus(current: NodeStatus, candidate: NodeStatus): (r: NodeStatus)
    ensures r == current || r == candidate
    ensures NodeRank(r) >= NodeRank(current) && NodeRank(r) >= NodeRank(candidate)
  {
    if NodeRank(candidate) > NodeRank(current) then candidate else current
  }

  // ---------------------------------------------------------------------------
  // Cancel filtering and normalisation

  /** `isCancelRequested` tests for `null`, not truthiness: an empty string counts. */
  predicate IsCancelRequested(s: ExecutionState) {
    s.cancelRequestedAt.Some?
  }

  /** The progress events that a cancel request silences. */
  predicate IsProgress(t: EventType) {
    t.NodeReady? || t.NodeStarted? || t.NodeProgressReported? || t.NodeWaiting?
    || t.NodeResumeRequested? || t.NodeResumed? || t.JoinPassed? || t.JoinGateUpdated?
    || t.ForkOpened? || t.ExecutionCompleted? || t.ExecutionFailed?
  }

  predicate ShouldIgnoreProgressEvent(s: ExecutionState, t: EventType) {
    IsCancelRequested(s) && IsProgress(t)
  }

  /** A cancelled execution has no node left open. */
  predicate Normalized(s: ExecutionState) {
    s.status == ExecutionStatus.Canceled ==> forall id :: id in s.nodes ==> !IsOpen(s.nodes[id].status)
  }

  function CancelNode(n: NodeState): NodeState {
    if IsOpen(n.status) then n.(status := ChooseNodeStatus(n.status, NodeStatus.Canceled), canceledByExecution := Some(true))
    else n
  }

  /** `normalize`: in a cancelled execution every open node becomes CANCELED and is
      flagged as cancelled by the execution; settled nodes are kept. */
  function Normalize(s: ExecutionState): (r: ExecutionState)
    ensures Normalized(r)
    ensures s.status != ExecutionStatus.Canceled ==> r == s
    ensures r.nodes.Keys == s.nodes.Keys && r.(nodes := s.nodes) == s
    ensures forall id :: id in s.nodes && !IsOpen(s.nodes[id].status) ==> r.nodes[id] == s.nodes[id]
    ensures forall id :: id in s.nodes && IsOpen(s.nodes[id].status) && s.status == ExecutionStatus.Canceled ==>
      r.nodes[id].status == NodeStatus.Canceled && r.nodes[id].canceledByExecution == Some(true)
    ensures forall id :: id in s.nodes ==>
      r.nodes[id].(status := s.nodes[id].status, canceledByExecution := s.nodes[id].canceledByExecution) == s.nodes[id]
  {
    if s.status != ExecutionStatus.Canceled then s
    else s.(nodes := map id | id in s.nodes :: CancelNode(s.nodes[id]))
  }

  /** A state is normalised exactly when `normalize` leaves it alone, so
      `normalize` is idempotent. */
  lemma NormalizeFixedPoint(s: ExecutionState)
    ensures Normalize(s) == s <==> Normalized(s)
    ensures Normalize(Normalize(s)) == Normalize(s)
  {
    if Normalized(s) && s.status == ExecutionStatus.Canceled {
      assert Normalize(s).nodes == s.nodes;
    }
  }

  // ---------------------------------------------------------------------------
  // Node updates

  /** Raises one node's status to the candidate when that outranks it. */
  function UpdateNodeStatus(s: ExecutionState, nodeId: string, candidate: NodeStatus): (r: ExecutionState)
    ensures NodeFrame(s, r, nodeId)
    ensures nodeId in s.nodes ==>
      var n, n' := s.nodes[nodeId], r.nodes[nodeId];
      && n'.(status := n.status) == n
      && (n'.status == n.status || n'.status == candidate)
      && NodeRank(n'.status) >= NodeRank(candidate)
  {
    if nodeId !in s.nodes then s
    else
      var n := s.nodes[nodeId];
      s.(nodes := s.nodes[nodeId := n.(status := ChooseNodeStatus(n.status, candidate))])
  }

  /** `a ?? b` */
  function Coalesce<T>(a: Option<T>, b: Option<T>): Option<T> {
    if a.Some? then a else b
  }

  function CoalesceValue(a: Value, b: Value): Value {
    if a.Null? then b else a
  }

  function Max(a: int, b: int): int {
    if a >= b then a else b
  }

  /** `r` differs from `s` at most in the node `nodeId`, which keeps or raises its
      status rank; a missing node changes nothing. */
  predicate NodeFrame(s: ExecutionState, r: ExecutionState, nodeId: string) {
    && r.nodes.Keys == s.nodes.Keys
    && r.(nodes := s.nodes) == s
    && (nodeId !in s.nodes ==> r == s)
    && (forall id :: id in s.nodes && id != nodeId ==> r.nodes[id] == s.nodes[id])
    && (nodeId in s.nodes ==> NodeRank(r.nodes[nodeId].status) >= NodeRank(s.nodes[nodeId].status))
  }

  /** Sets one existing node. */
  function SetNode(s: ExecutionState, nodeId: string, n: NodeState): ExecutionState
    requires nodeId in s.nodes
  {
    s.(nodes := s.nodes[nodeId := n])
  }

  /** NODE_STARTED: at least RUNNING, attempt raised to the payload's (1 when
      absent), worker replaced only when the payload names one. */
  function StartNode(s: ExecutionState, p: Payload): (r: ExecutionState)
    ensures NodeFrame(s, r, p.nodeId)
    ensures p.nodeId in s.nodes ==>
      var n, n' := s.nodes[p.nodeId], r.nodes[p.nodeId];
      n' == n.(status := n'.status, attempt := n'.attempt, workerId := n'.workerId)
      && NodeRank(n'.status) >= NodeRank(Running)
      && n'.attempt == Max(n.attempt, p.attempt.GetOr(1))
      && n'.workerId == (if p.workerId.Some? then p.workerId else n.workerId)
  {
    var s1 := UpdateNodeStatus(s, p.nodeId, Running);
    if p.nodeId in s1.nodes then
      var n := s1.nodes[p.nodeId];
      SetNode(s1, p.nodeId, n.(attempt := Max(n.attempt, p.attempt.GetOr(1)), workerId := Coalesce(p.workerId, n.workerId)))
    else s1
  }

  function WaitNode(s: ExecutionState, p: Payload): (r: ExecutionState)
    ensures NodeFrame(s, r, p.nodeId)
    ensures p.nodeId in s.nodes ==>
      var n, n' := s.nodes[p.nodeId], r.nodes[p.nodeId];
      n' == n.(status := n'.status, waitKey := n'.waitKey)
      && NodeRank(n'.status) >= NodeRank(Waiting)
      && n'.waitKey == (if p.waitKey.Some? then p.waitKey else n.waitKey)
  {
    var s1 := UpdateNodeStatus(s, p.nodeId, Waiting);
    if p.nodeId in s1.nodes then
      var n := s1.nodes[p.nodeId];
      SetNode(s1, p.nodeId, n.(waitKey := Coalesce(p.waitKey, n.waitKey)))
    else s1
  }

  function SucceedNode(s: ExecutionState, p: Payload): (r: ExecutionState)
    ensures NodeFrame(s, r, p.nodeId)
    ensures p.nodeId in s.nodes ==>
      var n, n' := s.nodes[p.nodeId], r.nodes[p.nodeId];
      n' == n.(status := n'.status, output := n'.output)
      && NodeRank(n'.status) >= NodeRank(Succeeded)
      && n'.output == (if p.output.Null? then n.output else p.output)
  {
    var s1 := UpdateNodeStatus(s, p.nodeId, Succeeded);
    if p.nodeId in s1.nodes then
      var n := s1.nodes[p.nodeId];
      SetNode(s1, p.nodeId, n.(output := CoalesceValue(p.output, n.output)))
    else s1
  }

  /** NODE_FAIL_REPORTED (status kept) and NODE_FAILED (at least FAILED) both
      record the payload's error when it has one. */
  function FailNode(s: ExecutionState, p: Payload, setStatus: bool): (r: ExecutionState)
    ensures NodeFrame(s, r, p.nodeId)
    ensures p.nodeId in s.nodes ==>
      var n, n' := s.nodes[p.nodeId], r.nodes[p.nodeId];
      n' == n.(status := n'.status, error := n'.error)
      && (if setStatus then NodeRank(n'.status) >= NodeRank(NodeStatus.Failed) else n'.status == n.status)
      && n'.error == (if p.error.Null? then n.error else p.error)
  {
    var s1 := if setStatus then UpdateNodeStatus(s, p.nodeId, NodeStatus.Failed) else s;
    if p.nodeId in s1.nodes then
      var n := s1.nodes[p.nodeId];
      SetNode(s1, p.nodeId, n.(error := CoalesceValue(p.error, n.error)))
    else s1
  }

  function NewNode(p: Payload): NodeState {
    NodeState(p.nodeId, p.nodeType, Idle, 0, None, None, Null, Null, None)
  }

  /** NODE_CREATED adds an IDLE node at attempt 0 unless the id is taken. */
  function CreateNode(s: ExecutionState, p: Payload): (r: ExecutionState)
    ensures r.(nodes := s.nodes) == s
    ensures r.nodes.Keys == s.nodes.Keys + {p.nodeId}
    ensures forall id :: id in s.nodes ==> r.nodes[id] == s.nodes[id]
    ensures p.nodeId !in s.nodes ==>
      r.nodes[p.nodeId].nodeId == p.nodeId && r.nodes[p.nodeId].nodeType == p.nodeType
      && r.nodes[p.nodeId].status == Idle && r.nodes[p.nodeId].attempt == 0
  {
    if p.nodeId in s.nodes then s else s.(nodes := s.nodes[p.nodeId := NewNode(p)])
  }

  predicate IsExecutionEvent(t: EventType) {
    t.ExecutionCreated? || t.ExecutionStarted? || t.ExecutionCancelRequested? || t.ExecutionCanceled?
    || t.ExecutionFailed? || t.ExecutionCompleted?
  }

  /** Node-targeted events: everything from NODE_CREATED to NODE_CANCELED. */
  predicate IsNodeEvent(t: EventType) {
    t.NodeCreated? || t.NodeReady? || t.NodeStarted? || t.NodeWaiting? || t.NodeResumed?
    || t.NodeSucceeded? || t.NodeFailReported? || t.NodeFailed? || t.NodeCanceled?
  }

  /** The execution-level cases of the `switch`: nodes are untouched, set
      timestamps stay, and the status only rises, except on EXECUTION_CREATED. */
  function ExecutionStep(s: ExecutionState, e: Event): (r: ExecutionState)
    requires IsExecutionEvent(e.eventType)
    ensures r.nodes == s.nodes && r.executionId == s.executionId && r.version == s.version
    ensures s.cancelRequestedAt.Some? ==> r.cancelRequestedAt == s.cancelRequestedAt
    ensures s.canceledAt.Some? ==> r.canceledAt == s.canceledAt
    ensures s.failedAt.Some? ==> r.failedAt == s.failedAt
    ensures s.completedAt.Some? ==> r.completedAt == s.completedAt
    ensures e.eventType.ExecutionCreated? ==> r.status == Active && r.graphId == e.payload.graphId
    ensures !e.eventType.ExecutionCreated? ==> ExecRank(r.status) >= ExecRank(s.status) && r.graphId == s.graphId
    ensures e.eventType.ExecutionCancelRequested? ==> r.cancelRequestedAt.Some? && r.status == s.status
    ensures e.eventType.ExecutionCanceled? ==> r.canceledAt.Some? && ExecRank(r.status) >= ExecRank(ExecutionStatus.Canceled)
    ensures e.eventType.ExecutionFailed? ==> r.failedAt.Some? && ExecRank(r.status) >= ExecRank(ExecutionStatus.Failed)
    ensures e.eventType.ExecutionCompleted? ==> r.completedAt.Some? && ExecRank(r.status) >= ExecRank(Completed)
  {
    match e.eventType
    case ExecutionCreated => s.(graphId := e.payload.graphId, status := Active)
    case ExecutionStarted => s.(status := ChooseExecStatus(s.status, Active))
    case ExecutionCancelRequested => s.(cancelRequestedAt := Some(s.cancelRequestedAt.GetOr(e.occurredAt)))
    case ExecutionCanceled =>
      s.(canceledAt := Some(s.canceledAt.GetOr(e.occurredAt)),
         status := ChooseExecStatus(s.status, ExecutionStatus.Canceled))
    case ExecutionFailed =>
      s.(failedAt := Some(s.failedAt.GetOr(e.occurredAt)), status := ChooseExecStatus(s.status, ExecutionStatus.Failed))
    case ExecutionCompleted =>
      s.(completedAt := Some(s.completedAt.GetOr(e.occurredAt)), status := ChooseExecStatus(s.status, Completed))
  }

  /** The node cases of the `switch`: only the named node changes, and no status
      loses rank. */
  function NodeStep(s: ExecutionState, e: Event): (r: ExecutionState)
    requires IsNodeEvent(e.eventType)
    ensures r.(nodes := s.nodes) == s
    ensures e.eventType.NodeCreated? ==> r == CreateNode(s, e.payload)
    ensures !e.eventType.NodeCreated? ==> NodeFrame(s, r, e.payload.nodeId)
  {
    var p := e.payload;
    match e.eventType
    case NodeCreated => CreateNode(s, p)
    case NodeReady => UpdateNodeStatus(s, p.nodeId, Ready)
    case NodeStarted => StartNode(s, p)
    case NodeWaiting => WaitNode(s, p)
    case NodeResumed => UpdateNodeStatus(s, p.nodeId, Running)
    case NodeSucceeded => SucceedNode(s, p)
    case NodeFailReported => FailNode(s, p, false)
    case NodeFailed => FailNode(s, p, true)
    case NodeCanceled => UpdateNodeStatus(s, p.nodeId, NodeStatus.Canceled)
  }

  /** The `switch` of `reduce`, before normalisation; audit-only events fall
      through unchanged. */
  function Step(s: ExecutionState, e: Event): ExecutionState {
    if IsExecutionEvent(e.eventType) then ExecutionStep(s, e)
    else if IsNodeEvent(e.eventType) then NodeStep(s, e)
    else s
  }

  /** The three arms of the `switch`. */
  lemma StepCases(s: ExecutionState, e: Event)
    ensures IsExecutionEvent(e.eventType) ==> Step(s, e) == ExecutionStep(s, e)
    ensures IsNodeEvent(e.eventType) ==> Step(s, e) == NodeStep(s, e)
    ensures !IsExecutionEvent(e.eventType) && !IsNodeEvent(e.eventType) ==> Step(s, e) == s
  {
  }

  /** The execution-level fields other than the status survive a step. */
  lemma StepKeepsStamps(s: ExecutionState, e: Event)
    ensures var r := Step(s, e);
      && (s.cancelRequestedAt.Some? ==> r.cancelRequestedAt == s.cancelRequestedAt)
      && (s.canceledAt.Some? ==> r.canceledAt == s.canceledAt)
      && (s.failedAt.Some? ==> r.failedAt == s.failedAt)
      && (s.completedAt.Some? ==> r.completedAt == s.completedAt)
  {
    StepCases(s, e);
  }

  /** `reduce`: events of another schema version and progress events after a
      cancel request are dropped unnormalised; everything else is applied and
      normalised. */
  function Reduce(s: ExecutionState, e: Event): (r: ExecutionState)
    ensures e.schemaVersion != 1 ==> r == s
    ensures IsCancelRequested(s) && IsProgress(e.eventType) ==> r == s
    ensures e.schemaVersion == 1 && !ShouldIgnoreProgressEvent(s, e.eventType) ==> Normalized(r)
    ensures Normalized(s) ==> Normalized(r)
    ensures r.executionId == s.executionId && r.version == s.version
    ensures s.nodes.Keys <= r.nodes.Keys
  {
    if e.schemaVersion != 1 then s
    else if ShouldIgnoreProgressEvent(s, e.eventType) then s
    else Normalize(Step(s, e))
  }

  /** Execution-level fields other than the status are never reset. */
  lemma TimestampsFirstWriteWins(s: ExecutionState, e: Event)
    ensures var r := Reduce(s, e);
      && (s.cancelRequestedAt.Some? ==> r.cancelRequestedAt == s.cancelRequestedAt)
      && (s.canceledAt.Some? ==> r.canceledAt == s.canceledAt)
      && (s.failedAt.Some? ==> r.failedAt == s.failedAt)
      && (s.completedAt.Some? ==> r.completedAt == s.completedAt)
  {
    if e.schemaVersion == 1 && !ShouldIgnoreProgressEvent(s, e.eventType) {
      StepKeepsStamps(s, e);
      assert Reduce(s, e) == Normalize(Step(s, e));
    }
  }

  /** The stamps each execution event sets, when it is applied. */
  lemma TimestampsSet(s: ExecutionState, e: Event)
    requires e.schemaVersion == 1 && !ShouldIgnoreProgressEvent(s, e.eventType)
    ensures var r := Reduce(s, e);
      && (e.eventType.ExecutionCancelRequested? ==> r.cancelRequestedAt.Some?)
      && (e.eventType.ExecutionCanceled? ==> r.canceledAt.Some? && r.status == ExecutionStatus.Canceled)
      && (e.eventType.ExecutionFailed? ==> r.failedAt.Some? && ExecRank(r.status) >= 300)
      && (e.eventType.ExecutionCompleted? ==> r.completedAt.Some? && ExecRank(r.status) >= 200)
  {
  }

  /** The execution status never loses rank, except that EXECUTION_CREATED
      resets it to ACTIVE. */
  lemma ExecRankMonotone(s: ExecutionState, e: Event)
    ensures !e.eventType.ExecutionCreated? ==> ExecRank(Reduce(s, e).status) >= ExecRank(s.status)
    ensures e.eventType.ExecutionCreated? && e.schemaVersion == 1 ==> Reduce(s, e).status == Active
  {
  }

  lemma StepNodeRank(s: ExecutionState, e: Event, id: string)
    requires id in s.nodes
    ensures id in Step(s, e).nodes && NodeRank(Step(s, e).nodes[id].status) >= NodeRank(s.nodes[id].status)
  {
  }

  /** Nodes are never removed, and only NODE_CREATED's node can be added. */
  lemma NodesOnlyGrow(s: ExecutionState, e: Event)
    ensures s.nodes.Keys <= Reduce(s, e).nodes.Keys
    ensures e.eventType.NodeCreated? ==> Reduce(s, e).nodes.Keys <= s.nodes.Keys + {e.payload.nodeId}
    ensures !e.eventType.NodeCreated? ==> Reduce(s, e).nodes.Keys == s.nodes.Keys
  {
  }

  /** No node's status ever loses rank, and no node disappears. */
  lemma NodeRankMonotone(s: ExecutionState, e: Event)
    ensures forall id :: id in s.nodes ==>
      id in Reduce(s, e).nodes && NodeRank(Reduce(s, e).nodes[id].status) >= NodeRank(s.nodes[id].status)
  {
    forall id | id in s.nodes
      ensures id in Reduce(s, e).nodes && NodeRank(Reduce(s, e).nodes[id].status) >= NodeRank(s.nodes[id].status)
    {
      if e.schemaVersion == 1 && !ShouldIgnoreProgressEvent(s, e.eventType) {
        StepNodeRank(s, e, id);
      }
    }
  }

  /** NODE_RESUMED does not lower a WAITING node to RUNNING. */
  lemma ResumedKeepsWaiting(s: ExecutionState, e: Event)
    requires e.eventType.NodeResumed? && s.status != ExecutionStatus.Canceled
    requires e.payload.nodeId in s.nodes && s.nodes[e.payload.nodeId].status == Waiting
    ensures Reduce(s, e).nodes[e.payload.nodeId].status == Waiting
  {
  }

  /** A node event naming a missing node (other than NODE_CREATED), and any
      audit-only event, leaves a normalised state unchanged. */
  lemma MissingNodeNoop(s: ExecutionState, e: Event)
    requires Normalized(s)
    requires (IsNodeEvent(e.eventType) && !e.eventType.NodeCreated? && e.payload.nodeId !in s.nodes)
             || !(IsNodeEvent(e.eventType) || e.eventType.ExecutionCreated? || e.eventType.ExecutionStarted?
                  || e.eventType.ExecutionCancelRequested? || e.eventType.ExecutionCanceled?
                  || e.eventType.ExecutionFailed? || e.eventType.ExecutionCompleted?)
    ensures Reduce(s, e) == s
  {
    NormalizeFixedPoint(s);
    StepCases(s, e);
    assert !IsExecutionEvent(e.eventType);
    if IsNodeEvent(e.eventType) {
      assert NodeFrame(s, NodeStep(s, e), e.payload.nodeId);
    }
    assert Step(s, e) == s;
  }

  /** NODE_CREATED never replaces an existing node, and a new node starts IDLE at
      attempt 0 unless the execution is already cancelled. */
  lemma CreatedNeverOverwrites(s: ExecutionState, e: Event)
    requires e.eventType.NodeCreated? && e.schemaVersion == 1
    ensures e.payload.nodeId in Reduce(s, e).nodes
    ensures e.payload.nodeId in s.nodes ==> Reduce(s, e).nodes[e.payload.nodeId] == CancelledIfDue(s, s.nodes[e.payload.nodeId])
    ensures e.payload.nodeId !in s.nodes ==>
      var n := Reduce(s, e).nodes[e.payload.nodeId];
      n.nodeId == e.payload.nodeId && n.nodeType == e.payload.nodeType && n.attempt == 0
      && n.status == (if s.status == ExecutionStatus.Canceled then NodeStatus.Canceled else Idle)
  {
    var t := CreateNode(s, e.payload);
    ReduceCreated(s, e);
    assert t.nodes.Keys == s.nodes.Keys + {e.payload.nodeId};
  }

  lemma ReduceCreated(s: ExecutionState, e: Event)
    requires e.eventType.NodeCreated? && e.schemaVersion == 1
    ensures Reduce(s, e) == Normalize(CreateNode(s, e.payload))
  {
    StepCases(s, e);
    assert !IsProgress(e.eventType);
  }

  /** What normalisation makes of a node in this execution. */
  function CancelledIfDue(s: ExecutionState, n: NodeState): NodeState {
    if s.status == ExecutionStatus.Canceled then CancelNode(n) else n
  }

  /** NODE_STARTED raises the attempt to the payload's attempt (1 when absent)
      and keeps the worker when the payload names none. */
  lemma StartedAttempt(s: ExecutionState, e: Event)
    requires e.eventType.NodeStarted? && e.schemaVersion == 1 && !IsCancelRequested(s)
    requires e.payload.nodeId in s.nodes
    ensures var n, n' := s.nodes[e.payload.nodeId], Reduce(s, e).nodes[e.payload.nodeId];
      && n'.attempt == Max(n.attempt, e.payload.attempt.GetOr(1))
      && n'.attempt >= n.attempt
      && n'.workerId == (if e.payload.workerId.Some? then e.payload.workerId else n.workerId)
  {
    var t := StartNode(s, e.payload);
    StepOfStarted(s, e);
    assert Reduce(s, e) == Normalize(t);
  }

  /** NODE_STARTED goes to the node branch of the `switch`. */
  lemma StepOfStarted(s: ExecutionState, e: Event)
    requires e.eventType.NodeStarted?
    ensures Step(s, e) == StartNode(s, e.payload)
  {
    assert !IsExecutionEvent(e.eventType) && IsNodeEvent(e.eventType);
  }
}
