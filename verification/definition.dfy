/** The loaded workflow definition (src/Statevia.Core/Definition/WorkflowDefinition.cs)
    and its compilation into the tables the engine runs
    (src/Statevia.Core/Definition/DefinitionCompiler.cs). Dictionaries keep their
    insertion order; their keys are distinct, as in any .NET dictionary. */
module Definition {
  import opened Common
  import Fsm
  import Join
  import Instance

  /** `TransitionDefinition`: next, fork and end as written in the document. */
  datatype TransitionDef = TransitionDef(next: Option<string>, fork: Option<seq<string>>, end: bool)

  /** `StateDefinition`: `on` (fact -> transition), the waited event name and the
      join's `allOf` list. */
  datatype StateDef = StateDef(on: Option<Entries<TransitionDef>>, wait: Option<string>, join: Option<seq<string>>)

  /** `WorkflowDefinition`: the workflow name and the states in document order. */
  datatype WorkflowDefinition = WorkflowDefinition(name: string, states: Entries<StateDef>)

  /** The dictionaries of a definition have distinct keys. */
  predicate WellKeyed(def: WorkflowDefinition) {
    DistinctKeys(def.states)
    && forall k :: 0 <= k < |def.states| && def.states[k].1.on.Some? ==> DistinctKeys(def.states[k].1.on.value)
  }

  function OnOf(s: StateDef): Entries<TransitionDef> {
    if s.on.Some? then s.on.value else []
  }

  /** The state names one transition mentions: its next and its fork entries. */
  function TransitionRefs(t: TransitionDef): (r: set<string>)
    ensures forall n :: n in r <==> t.next == Some(n) || (t.fork.Some? && n in t.fork.value)
  {
    (if t.next.Some? then {t.next.value} else {}) + (if t.fork.Some? then Elems(t.fork.value) else {})
  }

  /** The names a state mentions: every next and fork target and every `allOf` entry. */
  function StateRefs(s: StateDef): (r: set<string>)
    ensures forall n :: n in r <==>
      (exists k :: 0 <= k < |OnOf(s)| && n in TransitionRefs(OnOf(s)[k].1))
      || (s.join.Some? && n in s.join.value)
  {
    var on := OnOf(s);
    (set k, n | 0 <= k < |on| && n in TransitionRefs(on[k].1) :: n)
    + (if s.join.Some? then Elems(s.join.value) else {})
  }

  /** Every name referenced anywhere in the definition. */
  function Referenced(def: WorkflowDefinition): (r: set<string>)
    ensures forall n :: n in r <==> exists k :: 0 <= k < |def.states| && n in StateRefs(def.states[k].1)
  {
    set k, n | 0 <= k < |def.states| && n in StateRefs(def.states[k].1) :: n
  }

  /** Index of the first state no state references, or -1. */
  function FirstUnreferenced(states: Entries<StateDef>, refs: set<string>): (i: int)
    ensures -1 <= i < |states|
    ensures i >= 0 ==> states[i].0 !in refs && forall j :: 0 <= j < i ==> states[j].0 in refs
    ensures i == -1 ==> forall j :: 0 <= j < |states| ==> states[j].0 in refs
  {
    if states == [] then -1
    else if states[0].0 !in refs then 0
    else
      var j := FirstUnreferenced(states[1..], refs);
      if j < 0 then -1 else j + 1
  }

  /** `DetermineInitialState` (and Level 2's `FindInitialState`): the first state in
      document order that nothing references, else the first state. With no states
      the source throws; that is `None` here. */
  function InitialState(def: WorkflowDefinition): (r: Option<string>)
    ensures r.None? <==> |def.states| == 0
    ensures r.Some? ==> HasKey(def.states, r.value)
    ensures r.Some? && r.value !in Referenced(def) ==>
      forall k :: 0 <= k < IndexOf(def.states, r.value) ==> def.states[k].0 in Referenced(def)
    ensures (exists k :: 0 <= k < |def.states| && def.states[k].0 !in Referenced(def)) ==>
      r.Some? && r.value !in Referenced(def)
    ensures (forall k :: 0 <= k < |def.states| ==> def.states[k].0 in Referenced(def)) && r.Some? ==>
      r.value == def.states[0].0
  {
    var i := FirstUnreferenced(def.states, Referenced(def));
    if |def.states| == 0 then None
    else if i >= 0 then
      assert IndexOf(def.states, def.states[i].0) == i;
      Some(def.states[i].0)
    else
      assert IndexOf(def.states, def.states[0].0) == 0;
      Some(def.states[0].0)
  }

  // ---------------------------------------------------------------------------
  // The compiler's tables

  /** A transition is compiled unless its next is the state itself, and only when
      it has a next, a fork list (even an empty one) or end. */
  predicate Kept(state: string, t: TransitionDef) {
    t.next != Some(state) && (t.next.Some? || t.fork.Some? || t.end)
  }

  function TargetOf(t: TransitionDef): Fsm.TransitionTarget {
    Fsm.TransitionTarget(t.next, t.fork, t.end)
  }

  /** The compiled transitions of one state. */
  function StateTransitions(state: string, on: Entries<TransitionDef>): (m: map<string, Fsm.TransitionTarget>)
    ensures forall f :: f in m <==> exists k :: 0 <= k < |on| && on[k].0 == f && Kept(state, on[k].1)
    ensures DistinctKeys(on) ==>
      forall k :: 0 <= k < |on| && Kept(state, on[k].1) ==> m[on[k].0] == TargetOf(on[k].1)
  {
    if on == [] then map[]
    else
      var rest := StateTransitions(state, on[1..]);
      assert DistinctKeys(on) ==> DistinctKeys(on[1..]);
      if Kept(state, on[0].1) && !(exists k :: 0 <= k < |on[1..]| && on[1..][k].0 == on[0].0 && Kept(state, on[1..][k].1))
      then rest[on[0].0 := TargetOf(on[0].1)]
      else rest
  }

  /** The `on` entries of the named state (empty for an unknown state). */
  function OnOfState(def: WorkflowDefinition, s: string): Entries<TransitionDef> {
    var st := Lookup(def.states, s);
    if st.Some? then OnOf(st.value) else []
  }

  /** `BuildTransitionTable`: a state is present exactly when at least one of its
      transitions is kept, and then holds exactly the kept ones. */
  function TransitionTable(def: WorkflowDefinition): (t: Fsm.Table)
    ensures forall s :: s in t <==> HasKey(def.states, s) && |StateTransitions(s, OnOfState(def, s))| > 0
    ensures forall s :: s in t ==> t[s] == StateTransitions(s, OnOfState(def, s))
  {
    map s | s in KeySet(def.states) && |StateTransitions(s, OnOfState(def, s))| > 0
      :: StateTransitions(s, OnOfState(def, s))
  }

  /** The compiled table answers a (state, fact) query exactly with the written
      transition when it is kept, and with nothing otherwise. */
  lemma CompiledTarget(def: WorkflowDefinition, k: nat, j: nat)
    requires WellKeyed(def) && k < |def.states| && j < |OnOf(def.states[k].1)|
    ensures var s := def.states[k].0;
      var t := OnOf(def.states[k].1)[j];
      Fsm.TargetOf(TransitionTable(def), s, t.0) == if Kept(s, t.1) then Some(TargetOf(t.1)) else None
  {
    var s := def.states[k].0;
    assert IndexOf(def.states, s) == k;
    var on := OnOf(def.states[k].1);
    assert OnOfState(def, s) == on;
    TableRow(def, s, on[j].0);
    RowEntry(s, on, j);
  }

  /** A query of the compiled table reads the row of the state's transitions. */
  lemma TableRow(def: WorkflowDefinition, s: string, f: string)
    requires HasKey(def.states, s)
    ensures var m := StateTransitions(s, OnOfState(def, s));
      Fsm.TargetOf(TransitionTable(def), s, f) == if f in m then Some(m[f]) else None
  {
    var m := StateTransitions(s, OnOfState(def, s));
    if f in m {
      assert |m| > 0;
    }
  }

  /** With distinct keys, an `on` entry is in the row exactly when it is kept. */
  lemma RowEntry(s: string, on: Entries<TransitionDef>, j: nat)
    requires DistinctKeys(on) && j < |on|
    ensures var m := StateTransitions(s, on);
      (on[j].0 in m <==> Kept(s, on[j].1))
      && (Kept(s, on[j].1) ==> m[on[j].0] == TargetOf(on[j].1))
  {
  }

  /** A compiled transition never names its own state as next. */
  lemma NoSelfNext(def: WorkflowDefinition, s: string, f: string)
    requires Fsm.TargetOf(TransitionTable(def), s, f).Some?
    ensures Fsm.TargetOf(TransitionTable(def), s, f).value.next != Some(s)
  {
    var m := StateTransitions(s, OnOfState(def, s));
    assert f in m;
    var on := OnOfState(def, s);
    var k :| 0 <= k < |on| && on[k].0 == f && Kept(s, on[k].1);
    StateTransitionsFrom(s, on, f);
  }

  /** Every compiled target of a state comes from one of its kept transitions. */
  lemma {:induction false} StateTransitionsFrom(state: string, on: Entries<TransitionDef>, f: string)
    requires f in StateTransitions(state, on)
    ensures exists k :: 0 <= k < |on| && on[k].0 == f && Kept(state, on[k].1)
                        && StateTransitions(state, on)[f] == TargetOf(on[k].1)
  {
    var rest := StateTransitions(state, on[1..]);
    if Kept(state, on[0].1) && !(exists k :: 0 <= k < |on[1..]| && on[1..][k].0 == on[0].0 && Kept(state, on[1..][k].1))
       && f == on[0].0 {
    } else {
      StateTransitionsFrom(state, on[1..], f);
      var k :| 0 <= k < |on[1..]| && on[1..][k].0 == f && Kept(state, on[1..][k].1) && rest[f] == TargetOf(on[1..][k].1);
      assert on[k + 1] == on[1..][k];
    }
  }

  /** The first non-empty fork list among a state's transitions, in `on` order. */
  function FirstFork(on: Entries<TransitionDef>): (r: Option<seq<string>>)
    ensures r.None? <==> forall k :: 0 <= k < |on| ==> !(on[k].1.fork.Some? && |on[k].1.fork.value| > 0)
    ensures r.Some? ==> |r.value| > 0 && exists k :: (0 <= k < |on| && on[k].1.fork == r
      && forall j :: 0 <= j < k ==> !(on[j].1.fork.Some? && |on[j].1.fork.value| > 0))
  {
    if on == [] then None
    else if on[0].1.fork.Some? && |on[0].1.fork.value| > 0 then
      assert on[0].1.fork == Some(on[0].1.fork.value);
      on[0].1.fork
    else
      var r := FirstFork(on[1..]);
      assert forall k :: 1 <= k < |on| ==> on[k] == on[1..][k - 1];
      r
  }

  /** `BuildForkTable`: the states (in document order) that have a non-empty fork,
      each with its first one. The engine does not read this table. */
  function ForkTable(states: Entries<StateDef>): Entries<seq<string>> {
    if states == [] then []
    else
      var rest := ForkTable(states[1..]);
      var f := FirstFork(OnOf(states[0].1));
      if f.Some? then [(states[0].0, f.value)] + rest else rest
  }

  /** The fork table lists only declared states, and with distinct state names
      each state finds its first non-empty fork there (or nothing). */
  lemma {:induction false} ForkTableLookup(states: Entries<StateDef>)
    ensures forall s :: HasKey(ForkTable(states), s) ==> HasKey(states, s)
    ensures DistinctKeys(states) ==> forall k :: 0 <= k < |states| ==>
      Lookup(ForkTable(states), states[k].0) == FirstFork(OnOf(states[k].1))
  {
    if states != [] {
      var tail := states[1..];
      var rest := ForkTable(tail);
      var f := FirstFork(OnOf(states[0].1));
      ForkTableLookup(tail);
      forall s ensures HasKey(states, s) <==> states[0].0 == s || HasKey(tail, s)
        ensures Lookup(states, s) == if states[0].0 == s then Some(states[0].1) else Lookup(tail, s)
      {
        LookupCons(states[0], tail, s);
        assert [states[0]] + tail == states;
      }
      var r := ForkTable(states);
      forall s ensures HasKey(r, s) <==> (f.Some? && states[0].0 == s) || HasKey(rest, s)
        ensures Lookup(r, s) == if f.Some? && states[0].0 == s then f else Lookup(rest, s)
      {
        if f.Some? {
          LookupCons((states[0].0, f.value), rest, s);
        }
      }
      if DistinctKeys(states) {
        assert DistinctKeys(tail);
        assert !HasKey(rest, states[0].0);
        forall k | 0 <= k < |states|
          ensures Lookup(r, states[k].0) == FirstFork(OnOf(states[k].1))
        {
          if k > 0 {
            assert states[k] == tail[k - 1];
          }
        }
      }
    }
  }

  /** `BuildJoinTable`: the states with a non-empty `allOf`, in document order. */
  function JoinTable(states: Entries<StateDef>): (r: Join.JoinTable)
    ensures forall e :: e in r <==> exists k :: (0 <= k < |states| && states[k].1.join.Some?
      && |states[k].1.join.value| > 0 && e == (states[k].0, states[k].1.join.value))
  {
    if states == [] then []
    else
      var rest := JoinTable(states[1..]);
      assert forall k :: 1 <= k < |states| ==> states[k] == states[1..][k - 1];
      var j := states[0].1.join;
      if j.Some? && |j.value| > 0 then [(states[0].0, j.value)] + rest else rest
  }

  /** `BuildWaitTable`: the states that wait, each with its event name. */
  function WaitTable(states: Entries<StateDef>): (r: Entries<string>)
    ensures forall e :: e in r <==> exists k :: (0 <= k < |states| && states[k].1.wait.Some?
      && e == (states[k].0, states[k].1.wait.value))
  {
    if states == [] then []
    else
      var rest := WaitTable(states[1..]);
      assert forall k :: 1 <= k < |states| ==> states[k] == states[1..][k - 1];
      var w := states[0].1.wait;
      if w.Some? then [(states[0].0, w.value)] + rest else rest
  }

  /** The join table keeps the states' order: the table of two runs of states
      is the first run's table followed by the second's. */
  lemma {:induction false} JoinTableAppend(s1: Entries<StateDef>, s2: Entries<StateDef>)
    ensures JoinTable(s1 + s2) == JoinTable(s1) + JoinTable(s2)
  {
    if s1 != [] {
      assert (s1 + s2)[1..] == s1[1..] + s2;
      JoinTableAppend(s1[1..], s2);
    } else {
      assert s1 + s2 == s2;
    }
  }

  /** The wait table keeps the states' order in the same way. */
  lemma {:induction false} WaitTableAppend(s1: Entries<StateDef>, s2: Entries<StateDef>)
    ensures WaitTable(s1 + s2) == WaitTable(s1) + WaitTable(s2)
  {
    if s1 != [] {
      assert (s1 + s2)[1..] == s1[1..] + s2;
      WaitTableAppend(s1[1..], s2);
    } else {
      assert s1 + s2 == s2;
    }
  }

  /** `Compile` fails (the source throws) only for a definition without states. */
  datatype CompileError = NoStates

  /** `Compile`: the name, the four tables, the initial state and the executor
      factory (reduced to the names it has executors for). */
  function Compile(def: WorkflowDefinition, executors: set<string>): (r: Result<Instance.CompiledWorkflow, CompileError>)
    ensures r.Failure? <==> |def.states| == 0
    ensures r.Success? ==>
      && r.value.name == def.name && r.value.executors == executors
      && r.value.transitions == TransitionTable(def)
      && r.value.forkTable == ForkTable(def.states)
      && r.value.joinTable == JoinTable(def.states)
      && r.value.waitTable == WaitTable(def.states)
      && Some(r.value.initialState) == InitialState(def)
  {
    var init := InitialState(def);
    if init.None? then Failure(NoStates)
    else Success(Instance.CompiledWorkflow(def.name, TransitionTable(def), ForkTable(def.states),
                                           JoinTable(def.states), WaitTable(def.states), init.value, executors))
  }
}
