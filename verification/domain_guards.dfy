/** The domain-layer copy of the command guards, failing with coded domain errors
    (services/core-api/src/domain/domain-services/guards.ts). A guard that passes
    returns `None`. */
module DomainGuards {
  import opened Common
  import opened Executions

  datatype ErrorCode = ExecutionTerminal | ExecutionCancelRequested | NodeNotFound | NodeStatusInvalid

  /** A `DomainError`: code and message; the details record is not modelled. */
  datatype DomainError = DomainError(code: ErrorCode, message: string)

  function EnsureNotTerminalExecution(s: ExecutionState): (r: Option<DomainError>)
    ensures r.Some? <==> s.status != Active
    ensures r.Some? ==> r.value.code == ExecutionTerminal
  {
    if IsTerminal(s.status) then Some(DomainError(ExecutionTerminal, "Execution is terminal")) else None
  }

  function EnsureCancelNotRequested(s: ExecutionState): (r: Option<DomainError>)
    ensures r.Some? <==> s.cancelRequestedAt.Some? && s.cancelRequestedAt.value != ""
    ensures r.Some? ==> r.value.code == ErrorCode.ExecutionCancelRequested
  {
    if Truthy(s.cancelRequestedAt) then Some(DomainError(ErrorCode.ExecutionCancelRequested, "Execution is cancel-requested"))
    else None
  }

  function GetNodeOrThrow(s: ExecutionState, nodeId: string): (r: Result<NodeState, DomainError>)
    ensures r.Success? <==> nodeId in s.nodes
    ensures r.Success? ==> r.value == s.nodes[nodeId]
    ensures r.Failure? ==> r.error.code == NodeNotFound
  {
    if nodeId in s.nodes then Success(s.nodes[nodeId]) else Failure(DomainError(NodeNotFound, "Node not found"))
  }

  function EnsureNodeStatus(status: NodeStatus, allowed: seq<NodeStatus>): (r: Option<DomainError>)
    ensures r.Some? <==> status !in allowed
    ensures r.Some? ==> r.value.code == NodeStatusInvalid
  {
    if status !in allowed then Some(DomainError(NodeStatusInvalid, "Node status invalid for this command")) else None
  }
}
