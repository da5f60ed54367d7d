/** The command guards of the core API, failing with HTTP errors
    (services/core-api/src/core/guards.ts). A guard that passes returns `None`. */
module Guards {
  import opened Common
  import opened Executions

  /** An `HttpError`: status code and message; the details record is not modelled. */
  datatype HttpError = HttpError(status: int, message: string)

  const CONFLICT := 409
  const NOT_FOUND := 404

  function EnsureNotTerminalExecution(s: ExecutionState): (r: Option<HttpError>)
    ensures r.Some? <==> IsTerminal(s.status)
    ensures r.Some? ==> r.value.status == CONFLICT
  {
    if IsTerminal(s.status) then Some(HttpError(CONFLICT, "Execution is terminal")) else None
  }

  /** Truthiness, unlike the reducer's null test: an empty timestamp passes. */
  function EnsureCancelNotRequested(s: ExecutionState): (r: Option<HttpError>)
    ensures r.Some? <==> s.cancelRequestedAt.Some? && s.cancelRequestedAt.value != ""
    ensures r.Some? ==> r.value.status == CONFLICT
  {
    if Truthy(s.cancelRequestedAt) then Some(HttpError(CONFLICT, "Execution is cancel-requested")) else None
  }

  function GetNodeOrThrow(s: ExecutionState, nodeId: string): (r: Result<NodeState, HttpError>)
    ensures r.Success? <==> nodeId in s.nodes
    ensures r.Success? ==> r.value == s.nodes[nodeId]
    ensures r.Failure? ==> r.error.status == NOT_FOUND
  {
    if nodeId in s.nodes then Success(s.nodes[nodeId]) else Failure(HttpError(NOT_FOUND, "Node not found"))
  }

  function EnsureNodeStatus(status: NodeStatus, allowed: seq<NodeStatus>): (r: Option<HttpError>)
    ensures r.Some? <==> status !in allowed
    ensures r.Some? ==> r.value.status == CONFLICT
  {
    if status !in allowed then Some(HttpError(CONFLICT, "Node status invalid for this command")) else None
  }
}
