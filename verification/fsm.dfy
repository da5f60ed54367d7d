/** The fact-driven state machine: transition targets, transition results and
    the lookup that maps (state, fact) to a result
    (src/Statevia.Core/FSM/TransitionTable.cs, core/Statevia.Core/FSM/TransitionResult.cs). */
module Fsm {
  import opened Common

  /** The standard fact names (src/Statevia.Core/FSM/Fact.cs). */
  const COMPLETED: string := "Completed"
  const FAILED: string := "Failed"
  const CANCELLED: string := "Cancelled"
  const JOINED: string := "Joined"

  /** One compiled transition: a next state, a fork list and/or the end flag. */
  datatype TransitionTarget = TransitionTarget(next: Option<string>, fork: Option<seq<string>>, end: bool)

  /** The transition table: state name -> fact name -> target. */
  type Table = map<string, map<string, TransitionTarget>>

  /** The outcome of evaluating the table. */
  datatype TransitionResult = TransitionResult(
    hasTransition: bool,
    next: Option<string>,
    fork: Option<seq<string>>,
    end: bool)
  {
    /** How many of next / fork / end are set. */
    function SetCount(): nat {
      (if next.Some? then 1 else 0) + (if fork.Some? then 1 else 0) + (if end then 1 else 0)
    }

    /** The shape every constructor below produces: at most one of next / fork / end,
        and a transition exactly when one of them is set. */
    predicate WellFormed() {
      SetCount() <= 1 && (hasTransition <==> SetCount() == 1)
    }
  }

  function NoTransition(): (r: TransitionResult)
    ensures !r.hasTransition && r.next.None? && r.fork.None? && !r.end
    ensures r.WellFormed()
  {
    TransitionResult(false, None, None, false)
  }

  function ToNext(n: string): (r: TransitionResult)
    ensures r.hasTransition && r.next == Some(n) && r.fork.None? && !r.end
    ensures r.WellFormed()
  {
    TransitionResult(true, Some(n), None, false)
  }

  function ToFork(f: seq<string>): (r: TransitionResult)
    ensures r.hasTransition && r.next.None? && r.fork == Some(f) && !r.end
    ensures r.WellFormed()
  {
    TransitionResult(true, None, Some(f), false)
  }

  function ToEnd(): (r: TransitionResult)
    ensures r.hasTransition && r.next.None? && r.fork.None? && r.end
    ensures r.WellFormed()
  {
    TransitionResult(true, None, None, true)
  }

  /** The target stored for (state, fact), if any. */
  function TargetOf(table: Table, state: string, fact: string): Option<TransitionTarget> {
    if state in table && fact in table[state] then Some(table[state][fact]) else None
  }

  /** A non-empty fork list. */
  predicate HasFork(t: TransitionTarget) {
    t.fork.Some? && |t.fork.value| > 0
  }

  /** `TransitionTable.Evaluate`: End wins over Next, Next wins over Fork, and an
      empty or missing fork list with neither End nor Next is no transition. */
  function Evaluate(table: Table, state: string, fact: string): (r: TransitionResult)
    ensures r.WellFormed()
    ensures TargetOf(table, state, fact).None? ==> r == NoTransition()
    ensures r.end <==> TargetOf(table, state, fact).Some? && TargetOf(table, state, fact).value.end
    ensures r.next.Some? <==>
      TargetOf(table, state, fact).Some? && !TargetOf(table, state, fact).value.end
      && TargetOf(table, state, fact).value.next.Some?
    ensures r.next.Some? ==> r.next == TargetOf(table, state, fact).value.next
    ensures r.fork.Some? <==>
      TargetOf(table, state, fact).Some? && !TargetOf(table, state, fact).value.end
      && TargetOf(table, state, fact).value.next.None? && HasFork(TargetOf(table, state, fact).value)
    ensures r.fork.Some? ==> r.fork == TargetOf(table, state, fact).value.fork && |r.fork.value| > 0
  {
    if state !in table then NoTransition()
    else if fact !in table[state] then NoTransition()
    else
      var target := table[state][fact];
      if target.end then ToEnd()
      else if target.next.Some? then ToNext(target.next.value)
      else if target.fork.Some? && |target.fork.value| > 0 then ToFork(target.fork.value)
      else NoTransition()
  }

  /** A result has a transition exactly when the target exists and is End, has a
      Next, or has a non-empty Fork. */
  lemma EvaluateHasTransition(table: Table, state: string, fact: string)
    ensures Evaluate(table, state, fact).hasTransition <==>
      (state in table && fact in table[state]
       && (table[state][fact].end || table[state][fact].next.Some? || HasFork(table[state][fact])))
  {
  }

  /** Evaluation only looks at the one entry it is asked about: two tables that agree
      on (state, fact) give the same result. */
  lemma EvaluateLocal(t1: Table, t2: Table, state: string, fact: string)
    requires TargetOf(t1, state, fact) == TargetOf(t2, state, fact)
    ensures Evaluate(t1, state, fact) == Evaluate(t2, state, fact)
  {
  }
}
