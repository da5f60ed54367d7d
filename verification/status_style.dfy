/** The status colour table of the UI (services/ui/app/lib/statusStyle.ts): one
    style per execution or node status, and the order in which the node list
    sorts node statuses. */
module StatusStyle {
  import Executions

  /** `StatusLike`: the union of execution and node statuses. FAILED and
      CANCELED are spelled the same in both and share one entry. */
  datatype StatusLike = Active | Completed | Failed | Canceled | Idle | Ready | Running | Waiting | Succeeded

  function OfExecution(s: Executions.ExecutionStatus): (r: StatusLike)
    ensures r in {Active, Completed, Failed, Canceled}
  {
    match s
    case Active => Active
    case Completed => Completed
    case Failed => Failed
    case Canceled => Canceled
  }

  function OfNode(s: Executions.NodeStatus): (r: StatusLike)
    ensures r !in {Active, Completed}
  {
    match s
    case Idle => Idle
    case Ready => Ready
    case Running => Running
    case Waiting => Waiting
    case Succeeded => Succeeded
    case Failed => Failed
    case Canceled => Canceled
  }

  datatype Style = Style(badgeClass: string, borderClass: string, bgClass: string, textClass: string,
                         icon: string, emphasisRank: int)

  const BLUE := Style("bg-blue-600 text-white", "border-blue-300", "bg-blue-50", "text-blue-900", "\U{2022}", 20)
  const EMERALD := Style("bg-emerald-600 text-white", "border-emerald-300", "bg-emerald-50", "text-emerald-900", "\U{2713}", 40)

  /** `getStatusStyle`: the table entry of the status. */
  function GetStatusStyle(s: StatusLike): (r: Style)
    ensures 10 <= r.emphasisRank <= 100
    ensures r.emphasisRank == 100 <==> s == Canceled
    ensures r.emphasisRank == 10 <==> s == Idle
  {
    match s
    case Active => BLUE
    case Completed => EMERALD
    case Failed => Style("bg-red-500 text-white", "border-red-400", "bg-red-50", "text-red-900", "\U{26A0}", 80)
    case Canceled => Style("bg-red-600 text-white", "border-red-600", "bg-red-50", "text-red-900", "\U{2715}", 100)
    case Idle => Style("bg-zinc-300 text-zinc-800", "border-zinc-200", "bg-white", "text-zinc-800", "\U{25CB}", 10)
    case Ready => BLUE
    case Running => Style("bg-zinc-200 text-zinc-800", "border-zinc-200", "bg-white", "text-zinc-600", "\U{25B6}", 30)
    case Waiting => Style("bg-amber-500 text-white", "border-amber-400", "bg-amber-50", "text-amber-900", "\U{23F8}", 70)
    case Succeeded => EMERALD
  }

  /** CANCELED is emphasised most and IDLE least. */
  lemma EmphasisExtremes(s: StatusLike)
    ensures GetStatusStyle(Idle).emphasisRank <= GetStatusStyle(s).emphasisRank <= GetStatusStyle(Canceled).emphasisRank
    ensures s != Idle ==> GetStatusStyle(Idle).emphasisRank < GetStatusStyle(s).emphasisRank
    ensures s != Canceled ==> GetStatusStyle(s).emphasisRank < GetStatusStyle(Canceled).emphasisRank
  {
  }

  /** ACTIVE looks like READY and COMPLETED like SUCCEEDED; the failed and
      cancelled statuses of executions and nodes share their styles. */
  lemma SharedStyles()
    ensures GetStatusStyle(Active) == GetStatusStyle(Ready)
    ensures GetStatusStyle(Completed) == GetStatusStyle(Succeeded)
    ensures OfExecution(Executions.ExecutionStatus.Failed) == OfNode(Executions.NodeStatus.Failed)
    ensures OfExecution(Executions.ExecutionStatus.Canceled) == OfNode(Executions.NodeStatus.Canceled)
  {
  }

  /** `getNodeSortWeight`: WAITING first, then CANCELED, FAILED, RUNNING, READY,
      SUCCEEDED and IDLE last. */
  function GetNodeSortWeight(s: Executions.NodeStatus): (w: int)
    ensures 1 <= w <= 7
    ensures w == 1 <==> s == Executions.Waiting
    ensures w == 7 <==> s == Executions.Idle
  {
    match s
    case Waiting => 1
    case Canceled => 2
    case Failed => 3
    case Running => 4
    case Ready => 5
    case Succeeded => 6
    case Idle => 7
  }

  /** The inverse of `GetNodeSortWeight` on 1..7. */
  function StatusOfWeight(w: int): (s: Executions.NodeStatus)
    requires 1 <= w <= 7
  {
    if w == 1 then Executions.Waiting
    else if w == 2 then Executions.NodeStatus.Canceled
    else if w == 3 then Executions.NodeStatus.Failed
    else if w == 4 then Executions.Running
    else if w == 5 then Executions.Ready
    else if w == 6 then Executions.Succeeded
    else Executions.Idle
  }

  /** The sort weight is a bijection from the seven node statuses onto 1..7. */
  lemma NodeSortWeightBijective(s: Executions.NodeStatus, t: Executions.NodeStatus, w: int)
    ensures GetNodeSortWeight(s) == GetNodeSortWeight(t) ==> s == t
    ensures StatusOfWeight(GetNodeSortWeight(s)) == s
    ensures 1 <= w <= 7 ==> GetNodeSortWeight(StatusOfWeight(w)) == w
  {
  }
}
