/** The pure helpers of the execution page (services/ui/app/page.tsx): the
    terminal test, the error toast text, the reason the Resume button is
    disabled, and whether Cancel is offered. */
module PageHelpers {
  import opened Common
  import opened Executions
  import opened UiTypes

  /** `isTerminalExecution`: membership in the terminal set. */
  function IsTerminalExecution(status: ExecutionStatus): (b: bool)
    ensures b <==> status in {Completed, ExecutionStatus.Failed, ExecutionStatus.Canceled}
  {
    status == Completed || status == ExecutionStatus.Failed || status == ExecutionStatus.Canceled
  }

  /** The page and the core API agree on which execution statuses are terminal. */
  lemma TerminalAgrees(status: ExecutionStatus)
    ensures IsTerminalExecution(status) <==> IsTerminal(status)
    ensures IsTerminalExecution(status) <==> status != Active
  {
  }

  datatype Tone = ErrorTone | InfoTone | SuccessTone

  datatype ToastState = ToastState(tone: Tone, message: string)

  /** The code of a caught error, "UNKNOWN" when absent. */
  function CodeOf(e: Option<ApiError>): string {
    if e.Some? && e.value.code.Some? then e.value.code.value else "UNKNOWN"
  }

  /** The message of a caught error, "Unknown error" when absent. */
  function MessageOf(e: Option<ApiError>): string {
    if e.Some? && e.value.message.Some? then e.value.message.value else "Unknown error"
  }

  function StatusOf(e: Option<ApiError>): Option<int> {
    if e.Some? then e.value.status else None
  }

  /** `toToastError`: always an error toast; conflicts, invalid input and
      server errors get a status prefix, everything else is `code: message`. */
  function ToToastError(e: Option<ApiError>): (t: ToastState)
    ensures t.tone == ErrorTone
    ensures StatusOf(e) == Some(409) ==> t.message == "409 状態競合: " + CodeOf(e) + " - " + MessageOf(e)
    ensures StatusOf(e) == Some(422) ==> t.message == "422 入力不正: " + CodeOf(e) + " - " + MessageOf(e)
    ensures StatusOf(e) == Some(500) ==> t.message == "500 サーバーエラー: " + CodeOf(e) + " - " + MessageOf(e)
    ensures StatusOf(e) !in {Some(409), Some(422), Some(500)} ==> t.message == CodeOf(e) + ": " + MessageOf(e)
  {
    var code := CodeOf(e);
    var message := MessageOf(e);
    var status := StatusOf(e);
    if status == Some(409) then ToastState(ErrorTone, "409 状態競合: " + code + " - " + message)
    else if status == Some(422) then ToastState(ErrorTone, "422 入力不正: " + code + " - " + message)
    else if status == Some(500) then ToastState(ErrorTone, "500 サーバーエラー: " + code + " - " + message)
    else ToastState(ErrorTone, code + ": " + message)
  }

  /** Whatever was thrown, the toast ends with the error's message, and an
      error with no fields reads "UNKNOWN: Unknown error". */
  lemma ToastEndsWithMessage(e: Option<ApiError>)
    ensures var t := ToToastError(e).message;
            |t| >= |MessageOf(e)| && t[|t| - |MessageOf(e)|..] == MessageOf(e)
    ensures e.None? ==> ToToastError(e).message == "UNKNOWN: Unknown error"
  {
    var m := MessageOf(e);
    var t := ToToastError(e).message;
    assert t == t[..|t| - |m|] + m;
  }

  const NO_EXECUTION := "Execution が未読込です"
  const NO_NODE := "Node を選択してください"
  const EXECUTION_TERMINAL := "Executionは終了しています"
  const CANCEL_REQUESTED := "Cancel要求済みのため、Resumeなど進行系操作はできません"
  const NOT_WAITING := "WAITING 状態のノードのみ Resume できます"

  /** `getResumeDisabledReason`: the first failing check names the reason, in
      the order execution, node, terminal, cancel requested, WAITING. */
  function GetResumeDisabledReason(execution: Option<ExecutionDto>, node: Option<ExecutionNodeDto>): (r: Option<string>)
    ensures r.None? <==> execution.Some? && node.Some? && !IsTerminalExecution(execution.value.status)
                         && !Truthy(execution.value.cancelRequestedAt) && node.value.status == Waiting
    ensures execution.None? ==> r == Some(NO_EXECUTION)
    ensures execution.Some? && node.None? ==> r == Some(NO_NODE)
    ensures execution.Some? && node.Some? && IsTerminalExecution(execution.value.status) ==> r == Some(EXECUTION_TERMINAL)
    ensures (execution.Some? && node.Some? && !IsTerminalExecution(execution.value.status)
             && Truthy(execution.value.cancelRequestedAt)) ==> r == Some(CANCEL_REQUESTED)
    ensures r == Some(NOT_WAITING) <==> execution.Some? && node.Some? && !IsTerminalExecution(execution.value.status)
                                        && !Truthy(execution.value.cancelRequestedAt) && node.value.status != Waiting
  {
    if execution.None? then Some(NO_EXECUTION)
    else if node.None? then Some(NO_NODE)
    else if IsTerminalExecution(execution.value.status) then Some(EXECUTION_TERMINAL)
    else if Truthy(execution.value.cancelRequestedAt) then Some(CANCEL_REQUESTED)
    else if node.value.status != Waiting then Some(NOT_WAITING)
    else None
  }

  /** `canCancel`: an execution is loaded and it is not terminal. */
  function CanCancel(execution: Option<ExecutionDto>): (b: bool)
    ensures b <==> execution.Some? && execution.value.status == Active
  {
    var terminal := if execution.Some? then IsTerminalExecution(execution.value.status) else false;
    execution.Some? && !terminal
  }

  /** Whenever Resume is offered, so is Cancel. */
  lemma ResumeImpliesCancel(execution: Option<ExecutionDto>, node: Option<ExecutionNodeDto>)
    ensures GetResumeDisabledReason(execution, node).None? ==> CanCancel(execution)
    ensures !CanCancel(execution) ==> GetResumeDisabledReason(execution, node).Some?
  {
  }
}
