/** The data the UI receives from the core API (services/ui/app/lib/types.ts).
    Statuses are those of the execution state. */
module UiTypes {
  import opened Common
  import opened Executions

  datatype ExecutionNodeDto = ExecutionNodeDto(nodeId: string, nodeType: string, status: NodeStatus, attempt: int,
                                               workerId: Option<string>, waitKey: Option<string>,
                                               canceledByExecution: bool)

  datatype ExecutionDto = ExecutionDto(executionId: string, status: ExecutionStatus, graphId: string,
                                       cancelRequestedAt: Option<string>, canceledAt: Option<string>,
                                       failedAt: Option<string>, completedAt: Option<string>,
                                       nodes: seq<ExecutionNodeDto>)

  /** A thrown error as the page reads it: any of the fields of `ApiError` may
      be missing, since the value caught is not checked; the details record is
      not modelled. */
  datatype ApiError = ApiError(status: Option<int>, code: Option<string>, message: Option<string>)
}
