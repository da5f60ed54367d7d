/** The command handlers of the core API: each checks its guards against the
    current state and returns the events to append
    (services/core-api/src/core/commands.ts). Event ids and timestamps are
    parameters. */
module Commands {
  import opened Common
  import opened Executions
  import opened Reducer
  import opened Guards

  /** The id and timestamp a freshly made event receives. */
  datatype Stamp = Stamp(eventId: string, occurredAt: string)

  /** `mkEvent`: always schema version 1. */
  function MkEvent(executionId: string, t: EventType, actor: Actor, payload: Payload,
                   correlationId: Option<string>, stamp: Stamp): (e: Event)
    ensures e.executionId == executionId && e.eventType == t && e.schemaVersion == 1
    ensures e.payload == payload && e.actor == actor && e.correlationId == correlationId
    ensures e.eventId == stamp.eventId && e.occurredAt == stamp.occurredAt
  {
    Event(stamp.eventId, executionId, t, stamp.occurredAt, actor, correlationId, 1, payload)
  }

  /** Every event belongs to the execution and uses schema version 1. */
  predicate Stamped(events: seq<Event>, executionId: string) {
    forall i :: 0 <= i < |events| ==> events[i].executionId == executionId && events[i].schemaVersion == 1
  }

  function CmdCreateExecution(executionId: string, graphId: string, input: Value, actor: Actor,
                              correlationId: Option<string>, stamp: Stamp): (events: seq<Event>)
    ensures |events| == 1 && Stamped(events, executionId)
    ensures events[0].eventType == ExecutionCreated && events[0].payload.graphId == graphId
    ensures events[0].payload.input == input
  {
    [MkEvent(executionId, ExecutionCreated, actor, EMPTY_PAYLOAD.(graphId := graphId, input := input), correlationId, stamp)]
  }

  /** The first of two guard outcomes that fails. */
  function FirstFailure(a: Option<HttpError>, b: Option<HttpError>): Option<HttpError> {
    if a.Some? then a else b
  }

  /** The two execution guards every command but create and cancel starts with. */
  function ExecutionGuards(s: ExecutionState): (r: Option<HttpError>)
    ensures r.Some? <==> IsTerminal(s.status) || Truthy(s.cancelRequestedAt)
    ensures r.Some? ==> r.value.status == CONFLICT
  {
    FirstFailure(EnsureNotTerminalExecution(s), EnsureCancelNotRequested(s))
  }

  function CmdStartExecution(s: ExecutionState, actor: Actor, correlationId: Option<string>, stamp: Stamp)
    : (r: Result<seq<Event>, HttpError>)
    ensures r.Failure? <==> IsTerminal(s.status) || Truthy(s.cancelRequestedAt)
    ensures r.Failure? ==> r.error.status == CONFLICT
    ensures r.Success? ==> |r.value| == 1 && Stamped(r.value, s.executionId) && r.value[0].eventType == ExecutionStarted
  {
    var g := ExecutionGuards(s);
    if g.Some? then Failure(g.value)
    else Success([MkEvent(s.executionId, ExecutionStarted, actor, EMPTY_PAYLOAD, correlationId, stamp)])
  }

  /** `cmdCancelExecution`: a no-op on a terminal execution; otherwise a cancel
      request (unless one is already recorded, by truthiness) followed by the
      cancellation. `stamps(i)` is the i-th event's id and time. */
  function CmdCancelExecution(s: ExecutionState, actor: Actor, reason: Option<string>,
                              correlationId: Option<string>, stamps: nat -> Stamp): (events: seq<Event>)
    ensures IsTerminal(s.status) ==> events == []
    ensures !IsTerminal(s.status) ==>
      && |events| == (if Truthy(s.cancelRequestedAt) then 1 else 2)
      && events[|events| - 1].eventType == ExecutionCanceled
      && (|events| == 2 ==> events[0].eventType == ExecutionCancelRequested)
    ensures Stamped(events, s.executionId)
    ensures forall i :: 0 <= i < |events| ==> events[i].payload.reason == reason
  {
    if IsTerminal(s.status) then []
    else
      var p := EMPTY_PAYLOAD.(reason := reason);
      if Truthy(s.cancelRequestedAt) then
        [MkEvent(s.executionId, ExecutionCanceled, actor, p, correlationId, stamps(0))]
      else
        [MkEvent(s.executionId, ExecutionCancelRequested, actor, p, correlationId, stamps(0)),
         MkEvent(s.executionId, ExecutionCanceled, actor, p, correlationId, stamps(1))]
  }

  /** The guard chain of the node commands: execution guards, then the node must
      exist, then its status must be allowed. */
  function NodeGuards(s: ExecutionState, nodeId: string, allowed: seq<NodeStatus>): (r: Option<HttpError>)
    ensures r.None? <==> !IsTerminal(s.status) && !Truthy(s.cancelRequestedAt)
                         && nodeId in s.nodes && s.nodes[nodeId].status in allowed
    ensures r.Some? && r.value.status == NOT_FOUND <==>
      !IsTerminal(s.status) && !Truthy(s.cancelRequestedAt) && nodeId !in s.nodes
  {
    var g := ExecutionGuards(s);
    if g.Some? then g
    else
      var n := GetNodeOrThrow(s, nodeId);
      if n.Failure? then Some(n.error)
      else EnsureNodeStatus(n.value.status, allowed)
  }

  function CmdPutNodeWaiting(s: ExecutionState, actor: Actor, nodeId: string, waitKey: Option<string>,
                             prompt: Value, correlationId: Option<string>, stamp: Stamp)
    : (r: Result<seq<Event>, HttpError>)
    ensures r.Success? <==> !IsTerminal(s.status) && !Truthy(s.cancelRequestedAt)
                            && nodeId in s.nodes && s.nodes[nodeId].status == Running
    ensures r.Success? ==>
      |r.value| == 1 && Stamped(r.value, s.executionId) && r.value[0].eventType == NodeWaiting
      && r.value[0].payload.nodeId == nodeId && r.value[0].payload.waitKey == waitKey
  {
    var g := NodeGuards(s, nodeId, [Running]);
    if g.Some? then Failure(g.value)
    else
      var p := EMPTY_PAYLOAD.(nodeId := nodeId, waitKey := waitKey, prompt := prompt);
      Success([MkEvent(s.executionId, NodeWaiting, actor, p, correlationId, stamp)])
  }

  function CmdResumeNode(s: ExecutionState, actor: Actor, nodeId: string, resumeKey: Option<string>,
                         correlationId: Option<string>, stamp: Stamp): (r: Result<seq<Event>, HttpError>)
    ensures r.Success? <==> !IsTerminal(s.status) && !Truthy(s.cancelRequestedAt)
                            && nodeId in s.nodes && s.nodes[nodeId].status == Waiting
    ensures r.Success? ==>
      |r.value| == 1 && Stamped(r.value, s.executionId) && r.value[0].eventType == NodeResumed
      && r.value[0].payload.nodeId == nodeId
  {
    var g := NodeGuards(s, nodeId, [Waiting]);
    if g.Some? then Failure(g.value)
    else
      var p := EMPTY_PAYLOAD.(nodeId := nodeId, resumeKey := resumeKey);
      Success([MkEvent(s.executionId, NodeResumed, actor, p, correlationId, stamp)])
  }

  /** `cmdCreateNode`: guards first, then nothing to do when the node exists. */
  function CmdCreateNode(s: ExecutionState, actor: Actor, nodeId: string, nodeType: string,
                         correlationId: Option<string>, stamp: Stamp): (r: Result<seq<Event>, HttpError>)
    ensures r.Failure? <==> IsTerminal(s.status) || Truthy(s.cancelRequestedAt)
    ensures r.Success? ==> (r.value == [] <==> nodeId in s.nodes)
    ensures r.Success? && r.value != [] ==>
      |r.value| == 1 && Stamped(r.value, s.executionId) && r.value[0].eventType == NodeCreated
      && r.value[0].payload.nodeId == nodeId && r.value[0].payload.nodeType == nodeType
  {
    var g := ExecutionGuards(s);
    if g.Some? then Failure(g.value)
    else if nodeId in s.nodes then Success([])
    else
      var p := EMPTY_PAYLOAD.(nodeId := nodeId, nodeType := nodeType);
      Success([MkEvent(s.executionId, NodeCreated, actor, p, correlationId, stamp)])
  }

  function CmdStartNode(s: ExecutionState, actor: Actor, nodeId: string, attempt: int, workerId: Option<string>,
                        correlationId: Option<string>, stamp: Stamp): (r: Result<seq<Event>, HttpError>)
    ensures r.Success? <==> !IsTerminal(s.status) && !Truthy(s.cancelRequestedAt)
                            && nodeId in s.nodes && s.nodes[nodeId].status in {Ready, Idle}
    ensures r.Success? ==>
      |r.value| == 1 && Stamped(r.value, s.executionId) && r.value[0].eventType == NodeStarted
      && r.value[0].payload.nodeId == nodeId && r.value[0].payload.attempt == Some(attempt)
  {
    var g := NodeGuards(s, nodeId, [Ready, Idle]);
    if g.Some? then Failure(g.value)
    else
      var p := EMPTY_PAYLOAD.(nodeId := nodeId, attempt := Some(attempt), workerId := workerId);
      Success([MkEvent(s.executionId, NodeStarted, actor, p, correlationId, stamp)])
  }

  /** `applyEvents`: `reduce` folded from the left. */
  function ApplyEvents(s: ExecutionState, events: seq<Event>): (r: ExecutionState)
    ensures r.executionId == s.executionId
    ensures Normalized(s) ==> Normalized(r)
    ensures s.nodes.Keys <= r.nodes.Keys
    decreases |events|
  {
    if events == [] then s else ApplyEvents(Reduce(s, events[0]), events[1..])
  }

  /** Folding a concatenation folds the parts in turn. */
  lemma {:induction false} ApplyEventsAppend(s: ExecutionState, a: seq<Event>, b: seq<Event>)
    ensures ApplyEvents(s, a + b) == ApplyEvents(ApplyEvents(s, a), b)
    decreases |a|
  {
    if a == [] {
      assert a + b == b;
    } else {
      assert (a + b)[1..] == a[1..] + b;
      ApplyEventsAppend(Reduce(s, a[0]), a[1..], b);
    }
  }

  /** Cancelling a live execution converges at once: the status becomes
      CANCELED with a cancellation time, and no node is left open. */
  lemma CancelConverges(s: ExecutionState, actor: Actor, reason: Option<string>,
                        correlationId: Option<string>, stamps: nat -> Stamp)
    requires !IsTerminal(s.status)
    ensures var t := ApplyEvents(s, CmdCancelExecution(s, actor, reason, correlationId, stamps));
      && t.status == ExecutionStatus.Canceled && t.canceledAt.Some?
      && t.cancelRequestedAt.Some?
      && forall id :: id in t.nodes ==> !IsOpen(t.nodes[id].status)
  {
    var events := CmdCancelExecution(s, actor, reason, correlationId, stamps);
    if |events| == 2 {
      CancelTwoEvents(s, events[0], events[1]);
      assert events == [events[0], events[1]];
    } else {
      ApplyEventsOne(s, events[0]);
      CanceledStep(s, events[0]);
      assert events == [events[0]];
    }
  }

  /** A cancel request followed by the cancellation. */
  lemma CancelTwoEvents(s: ExecutionState, q: Event, c: Event)
    requires s.status == Active
    requires q.schemaVersion == 1 && q.eventType == ExecutionCancelRequested
    requires c.schemaVersion == 1 && c.eventType == ExecutionCanceled
    ensures var t := ApplyEvents(s, [q, c]);
      && t.status == ExecutionStatus.Canceled && t.canceledAt.Some? && t.cancelRequestedAt.Some?
      && forall id :: id in t.nodes ==> !IsOpen(t.nodes[id].status)
  {
    var s1 := Reduce(s, q);
    RequestStep(s, q);
    ApplyEventsAppend(s, [q], [c]);
    assert [q, c] == [q] + [c];
    ApplyEventsOne(s, q);
    ApplyEventsOne(s1, c);
    CanceledStep(s1, c);
  }

  lemma ApplyEventsOne(s: ExecutionState, e: Event)
    ensures ApplyEvents(s, [e]) == Reduce(s, e)
  {
    assert [e][1..] == [];
  }

  /** A cancel request keeps an ACTIVE execution ACTIVE and records the request. */
  lemma RequestStep(s: ExecutionState, q: Event)
    requires s.status == Active && q.schemaVersion == 1 && q.eventType == ExecutionCancelRequested
    ensures Reduce(s, q).status == Active && Reduce(s, q).cancelRequestedAt.Some?
  {
    TimestampsSet(s, q);
  }

  /** The cancellation itself settles the execution and all of its nodes. */
  lemma CanceledStep(s: ExecutionState, c: Event)
    requires s.status == Active && s.cancelRequestedAt.Some?
    requires c.schemaVersion == 1 && c.eventType == ExecutionCanceled
    ensures var t := Reduce(s, c);
      && t.status == ExecutionStatus.Canceled && t.canceledAt.Some? && t.cancelRequestedAt.Some?
      && forall id :: id in t.nodes ==> !IsOpen(t.nodes[id].status)
  {
    TimestampsSet(s, c);
    TimestampsFirstWriteWins(s, c);
  }

  /** An accepted NODE_STARTED command makes the node RUNNING with its attempt
      raised, once applied. */
  lemma StartNodeRuns(s: ExecutionState, actor: Actor, nodeId: string, attempt: int, workerId: Option<string>,
                      correlationId: Option<string>, stamp: Stamp)
    requires s.cancelRequestedAt.None?
    requires CmdStartNode(s, actor, nodeId, attempt, workerId, correlationId, stamp).Success?
    ensures var t := ApplyEvents(s, CmdStartNode(s, actor, nodeId, attempt, workerId, correlationId, stamp).value);
      && t.nodes[nodeId].status == Running
      && t.nodes[nodeId].attempt == Max(s.nodes[nodeId].attempt, attempt)
  {
    var e := CmdStartNode(s, actor, nodeId, attempt, workerId, correlationId, stamp).value[0];
    ApplyEventsOne(s, e);
    StartedAttempt(s, e);
    StepOfStarted(s, e);
    assert Reduce(s, e) == StartNode(s, e.payload);
  }

  /** An accepted resume is applied as NODE_RESUMED, which cannot lower the
      WAITING node: the node stays WAITING. */
  lemma ResumeLeavesWaiting(s: ExecutionState, actor: Actor, nodeId: string, resumeKey: Option<string>,
                            correlationId: Option<string>, stamp: Stamp)
    requires CmdResumeNode(s, actor, nodeId, resumeKey, correlationId, stamp).Success?
    ensures ApplyEvents(s, CmdResumeNode(s, actor, nodeId, resumeKey, correlationId, stamp).value).nodes[nodeId].status
            == Waiting
  {
    var e := CmdResumeNode(s, actor, nodeId, resumeKey, correlationId, stamp).value[0];
    ApplyEventsOne(s, e);
  }

  /** The guards test the cancel request by truthiness and the reducer by
      presence: with an empty request time a node command is accepted and its
      event then ignored. */
  lemma EmptyCancelRequestGap(s: ExecutionState, actor: Actor, nodeId: string, attempt: int,
                              correlationId: Option<string>, stamp: Stamp)
    requires s.cancelRequestedAt == Some("") && s.status == Active
    requires nodeId in s.nodes && s.nodes[nodeId].status == Idle
    ensures CmdStartNode(s, actor, nodeId, attempt, None, correlationId, stamp).Success?
    ensures ApplyEvents(s, CmdStartNode(s, actor, nodeId, attempt, None, correlationId, stamp).value) == s
  {
    var e := CmdStartNode(s, actor, nodeId, attempt, None, correlationId, stamp).value[0];
    assert ApplyEvents(s, [e]) == Reduce(s, e);
  }
}
