/** Definition validation (src/Statevia.Core/Definition/Validation/): Level 1 checks
    names and references, Level 2 checks reachability and circular joins, and the
    aggregate validator runs Level 2 only when Level 1 passes. Errors are the
    source's messages; a definition is valid when the list is empty. */
module Validation {
  import opened Common
  import opened Definition

  // ---------------------------------------------------------------------------
  // Strings

  /** `char.IsWhiteSpace`: the Unicode space separators plus tab, line feed,
      vertical tab, form feed, carriage return, next line, line and paragraph
      separators. */
  predicate IsWhiteSpace(c: char) {
    c == ' ' || ('\t' <= c <= '\r') || c == '\U{85}' || c == '\U{A0}' || c == '\U{1680}'
    || ('\U{2000}' <= c <= '\U{200A}') || c == '\U{2028}' || c == '\U{2029}' || c == '\U{202F}'
    || c == '\U{205F}' || c == '\U{3000}'
  }

  /** `string.IsNullOrWhiteSpace` on a non-null string. */
  predicate IsBlank(s: string) {
    forall i :: 0 <= i < |s| ==> IsWhiteSpace(s[i])
  }

  /** `string.Join(sep, parts)`. */
  function JoinStrings(sep: string, parts: seq<string>): (r: string)
    ensures |parts| == 1 ==> r == parts[0]
    ensures |parts| == 0 ==> r == ""
  {
    if |parts| == 0 then ""
    else if |parts| == 1 then parts[0]
    else parts[0] + sep + JoinStrings(sep, parts[1..])
  }

  // ---------------------------------------------------------------------------
  // Level 1

  const AT_LEAST_ONE_STATE := "At least one state is required."
  const EMPTY_STATE_NAME := "State name cannot be empty."

  function SelfTransitionMessage(state: string): string {
    "Self-transition not allowed: " + state + " -> " + state
  }
  function UnknownNextMessage(next: string): string { "Reference to unknown state: " + next }
  function UnknownForkMessage(s: string): string { "Fork references unknown state: " + s }
  function UnknownJoinMessage(s: string): string { "Join references unknown state: " + s }

  /** One message per listed name that is not a state, in list order. */
  function UnknownIn(names: set<string>, list: seq<string>, message: string -> string): (r: seq<string>)
    ensures |r| == 0 <==> forall i :: 0 <= i < |list| ==> list[i] in names
    ensures |r| <= |list|
  {
    if list == [] then []
    else (if list[0] in names then [] else [message(list[0])]) + UnknownIn(names, list[1..], message)
  }

  /** The messages for one transition of `state`. */
  function TransitionErrors(names: set<string>, state: string, t: TransitionDef): (r: seq<string>)
    ensures |r| == 0 <==>
      (t.next.Some? ==> t.next.value != state && t.next.value in names)
      && (t.fork.Some? ==> forall i :: 0 <= i < |t.fork.value| ==> t.fork.value[i] in names)
  {
    (if t.next.Some? && t.next.value == state then [SelfTransitionMessage(state)] else [])
    + (if t.next.Some? && t.next.value !in names then [UnknownNextMessage(t.next.value)] else [])
    + (if t.fork.Some? then UnknownIn(names, t.fork.value, UnknownForkMessage) else [])
  }

  function OnErrors(names: set<string>, state: string, on: Entries<TransitionDef>): (r: seq<string>)
    ensures |r| == 0 <==> forall k :: 0 <= k < |on| ==> |TransitionErrors(names, state, on[k].1)| == 0
  {
    if on == [] then []
    else
      assert forall k :: 1 <= k < |on| ==> on[k] == on[1..][k - 1];
      TransitionErrors(names, state, on[0].1) + OnErrors(names, state, on[1..])
  }

  /** The messages for one state: a blank name stops there; otherwise its
      transitions, then its join list. */
  function StateErrors(names: set<string>, name: string, s: StateDef): (r: seq<string>)
    ensures IsBlank(name) ==> r == [EMPTY_STATE_NAME]
  {
    if IsBlank(name) then [EMPTY_STATE_NAME]
    else OnErrors(names, name, OnOf(s))
         + (if s.join.Some? then UnknownIn(names, s.join.value, UnknownJoinMessage) else [])
  }

  function StatesErrors(names: set<string>, states: Entries<StateDef>): (r: seq<string>)
    ensures |r| == 0 <==> forall k :: 0 <= k < |states| ==> |StateErrors(names, states[k].0, states[k].1)| == 0
  {
    if states == [] then []
    else
      assert forall k :: 1 <= k < |states| ==> states[k] == states[1..][k - 1];
      StateErrors(names, states[0].0, states[0].1) + StatesErrors(names, states[1..])
  }

  /** `Level1Validator.Validate`. */
  function Level1(def: WorkflowDefinition): (errors: seq<string>)
    ensures |def.states| == 0 ==> errors == [AT_LEAST_ONE_STATE]
    ensures |def.states| > 0 ==> errors == StatesErrors(KeySet(def.states), def.states)
  {
    if |def.states| == 0 then [AT_LEAST_ONE_STATE]
    else StatesErrors(KeySet(def.states), def.states)
  }

  /** What Level 1 accepts, stated directly: at least one state, no blank name, no
      next naming its own state, and every next, fork and join entry a declared
      state. */
  ghost predicate Level1Clean(def: WorkflowDefinition) {
    |def.states| > 0
    && forall k :: 0 <= k < |def.states| ==> StateClean(def, def.states[k].0, def.states[k].1)
  }

  ghost predicate StateClean(def: WorkflowDefinition, name: string, s: StateDef) {
    && !IsBlank(name)
    && (forall j :: 0 <= j < |OnOf(s)| ==>
          var t := OnOf(s)[j].1;
          && (t.next.Some? ==> t.next.value != name && HasKey(def.states, t.next.value))
          && (t.fork.Some? ==> forall i :: 0 <= i < |t.fork.value| ==> HasKey(def.states, t.fork.value[i])))
    && (s.join.Some? ==> forall i :: 0 <= i < |s.join.value| ==> HasKey(def.states, s.join.value[i]))
  }

  lemma Level1Accepts(def: WorkflowDefinition)
    ensures |Level1(def)| == 0 <==> Level1Clean(def)
  {
    var names := KeySet(def.states);
    if |def.states| > 0 {
      forall k | 0 <= k < |def.states|
        ensures |StateErrors(names, def.states[k].0, def.states[k].1)| == 0
                <==> StateClean(def, def.states[k].0, def.states[k].1)
      {
        StateAccepts(def, def.states[k].0, def.states[k].1);
      }
    }
  }

  /** One state produces no message exactly when it is clean. */
  lemma StateAccepts(def: WorkflowDefinition, name: string, s: StateDef)
    ensures |StateErrors(KeySet(def.states), name, s)| == 0 <==> StateClean(def, name, s)
  {
    var names := KeySet(def.states);
    if !IsBlank(name) {
      var on := OnErrors(names, name, OnOf(s));
      var join := if s.join.Some? then UnknownIn(names, s.join.value, UnknownJoinMessage) else [];
      assert StateErrors(names, name, s) == on + join;
    }
  }

  // ---------------------------------------------------------------------------
  // Level 2: reachability

  /** The states a transition list leads to: next first, then fork entries, per
      transition in `on` order. */
  function TargetList(on: Entries<TransitionDef>): (r: seq<string>)
    ensures forall n :: n in r <==> exists k :: 0 <= k < |on| && n in TransitionRefs(on[k].1)
  {
    if on == [] then []
    else
      assert forall k :: 1 <= k < |on| ==> on[k] == on[1..][k - 1];
      (if on[0].1.next.Some? then [on[0].1.next.value] else [])
      + (if on[0].1.fork.Some? then on[0].1.fork.value else [])
      + TargetList(on[1..])
  }

  /** One reachability step: the next and fork targets of a declared state. A join
      state's `allOf` is not followed, and an undeclared name leads nowhere. */
  function Successors(def: WorkflowDefinition, s: string): seq<string> {
    TargetList(OnOfState(def, s))
  }

  /** Every name any transition mentions. */
  function AllTargets(def: WorkflowDefinition): (r: set<string>)
    ensures forall s, n :: n in Successors(def, s) ==> n in r
  {
    var r := set k, n | 0 <= k < |def.states| && n in TargetList(OnOf(def.states[k].1)) :: n;
    assert forall s, n :: n in Successors(def, s) ==> n in r by {
      forall s, n | n in Successors(def, s) ensures n in r {
        var i := IndexOf(def.states, s);
        assert 0 <= i && OnOfState(def, s) == OnOf(def.states[i].1);
      }
    }
    r
  }

  /** A step relation given as each node's successor list. */
  type Graph = string -> seq<string>

  function StepsOf(def: WorkflowDefinition): Graph {
    s => Successors(def, s)
  }

  /** A walk along successor steps. */
  ghost predicate IsPath(g: Graph, p: seq<string>) {
    |p| > 0 && forall i :: 0 <= i < |p| - 1 ==> p[i + 1] in g(p[i])
  }

  ghost predicate Reaches(g: Graph, from: string, to: string) {
    exists p :: IsPath(g, p) && p[0] == from && p[|p| - 1] == to
  }

  lemma ReachStep(g: Graph, from: string, mid: string, to: string)
    requires Reaches(g, from, mid) && to in g(mid)
    ensures Reaches(g, from, to)
  {
    var p :| IsPath(g, p) && p[0] == from && p[|p| - 1] == mid;
    var q := p + [to];
    assert forall i :: 0 <= i < |p| ==> q[i] == p[i];
    assert IsPath(g, q);
  }

  predicate Closed(g: Graph, r: set<string>) {
    forall s, n :: s in r && n in g(s) ==> n in r
  }

  /** A set closed under successors holds the end of every walk that starts in it. */
  lemma {:induction false} PathStaysInClosed(g: Graph, r: set<string>, p: seq<string>)
    requires IsPath(g, p) && p[0] in r && Closed(g, r)
    ensures p[|p| - 1] in r
  {
    if |p| > 1 {
      var q := p[..|p| - 1];
      assert IsPath(g, q);
      PathStaysInClosed(g, r, q);
      assert p[|p| - 1] in g(q[|q| - 1]);
    }
  }

  /** A closed set that holds `start` holds everything `start` reaches. */
  lemma ClosedHoldsReachable(g: Graph, start: string, r: set<string>)
    requires start in r && Closed(g, r)
    ensures forall s :: Reaches(g, start, s) ==> s in r
  {
    forall s | Reaches(g, start, s) ensures s in r {
      var p :| IsPath(g, p) && p[0] == start && p[|p| - 1] == s;
      PathStaysInClosed(g, r, p);
    }
  }

  /** `ComputeReachableStates`: the states reachable from `start` along next and
      fork transitions. The source's join clause re-adds the current state, which
      is always marked already, so it never enqueues anything and is omitted. */
  method ComputeReachable(def: WorkflowDefinition, start: string) returns (reached: set<string>)
    ensures forall s :: s in reached <==> Reaches(StepsOf(def), start, s)
  {
    reached := Search(StepsOf(def), start, AllTargets(def) + {start});
  }

  /** Breadth-first search from `start`, marking a node when it is enqueued. */
  method Search(g: Graph, start: string, ghost universe: set<string>) returns (reached: set<string>)
    requires start in universe && forall s, n :: n in g(s) ==> n in universe
    ensures forall s :: s in reached <==> Reaches(g, start, s)
  {
    reached := {start};
    var queue := [start];
    assert IsPath(g, [start]);
    while queue != []
      invariant start in reached && reached <= universe
      invariant Distinct(queue) && forall s :: s in queue ==> s in reached
      invariant forall s, n :: s in reached && s !in queue && n in g(s) ==> n in reached
      invariant forall s :: s in reached ==> Reaches(g, start, s)
      decreases |universe - reached|, |queue|
    {
      var current := queue[0];
      queue := queue[1..];
      var reached', queue' := EnqueueTargets(g, start, universe, current, reached, queue);
      if reached' != reached {
        assert universe - reached' < universe - reached;
        StrictSubsetCard(universe - reached', universe - reached);
      }
      reached, queue := reached', queue';
    }
    ClosedHoldsReachable(g, start, reached);
  }

  /** The loop body of the search: marks and enqueues the current node's unmarked
      successors, in list order. */
  method EnqueueTargets(g: Graph, start: string, ghost universe: set<string>, current: string,
                        reached: set<string>, queue: seq<string>)
    returns (reached': set<string>, queue': seq<string>)
    requires reached <= universe && forall n :: n in g(current) ==> n in universe
    requires Distinct(queue) && forall s :: s in queue ==> s in reached
    requires current in reached && current !in queue
    requires forall s :: s in reached ==> Reaches(g, start, s)
    ensures reached <= reached' <= universe
    ensures forall n :: n in g(current) ==> n in reached'
    ensures Distinct(queue') && forall s :: s in queue' <==> s in queue || (s in reached' && s !in reached)
    ensures forall s :: s in reached' ==> Reaches(g, start, s)
    ensures reached' == reached ==> queue' == queue
  {
    var targets := g(current);
    reached', queue' := reached, queue;
    var i := 0;
    while i < |targets|
      invariant 0 <= i <= |targets|
      invariant reached <= reached' <= universe
      invariant Distinct(queue') && forall s :: s in queue' <==> s in queue || (s in reached' && s !in reached)
      invariant forall k :: 0 <= k < i ==> targets[k] in reached'
      invariant forall s :: s in reached' ==> Reaches(g, start, s)
      invariant reached' == reached ==> queue' == queue
    {
      var t := targets[i];
      ghost var q0 := queue';
      if t !in reached' {
        reached', queue' := Mark(g, start, current, t, reached', queue');
        assert forall s :: s in queue' <==> s in q0 || s == t;
      }
      i := i + 1;
    }
  }

  /** Marks one unmarked successor and puts it at the back of the queue. */
  method Mark(g: Graph, start: string, current: string, t: string, reached: set<string>, queue: seq<string>)
    returns (reached': set<string>, queue': seq<string>)
    requires t !in reached && t in g(current) && Reaches(g, start, current)
    requires Distinct(queue) && forall s :: s in queue ==> s in reached
    ensures reached' == reached + {t} && queue' == queue + [t]
    ensures Distinct(queue') && Reaches(g, start, t)
  {
    ReachStep(g, start, current, t);
    reached', queue' := reached + {t}, queue + [t];
  }

  lemma StrictSubsetCard(a: set<string>, b: set<string>)
    requires a < b
    ensures |a| < |b|
  {
    var x :| x in b && x !in a;
    SubsetCard(a, b - {x});
  }

  // ---------------------------------------------------------------------------
  // Level 2: circular joins

  /** The `allOf` list of a declared join state (`TryGetValue` then `Join != null`). */
  function JoinDeps(def: WorkflowDefinition, s: string): (r: Option<seq<string>>)
    ensures r.Some? ==> s in KeySet(def.states)
  {
    var st := Lookup(def.states, s);
    if st.Some? then st.value.join else None
  }

  /** The search measure: undeclared-and-unvisited states left, plus one while the
      current name is not itself a declared state. */
  function CircMeasure(def: WorkflowDefinition, j: string, visited: set<string>): nat {
    |KeySet(def.states) - visited| + (if j in KeySet(def.states) then 0 else 1)
  }

  lemma CircMeasureDrops(def: WorkflowDefinition, j: string, dep: string, visited: set<string>)
    requires j !in visited && dep in KeySet(def.states)
    ensures CircMeasure(def, dep, visited + {j}) < CircMeasure(def, j, visited)
  {
    var keys := KeySet(def.states);
    if j in keys {
      assert keys - (visited + {j}) < keys - visited;
      StrictSubsetCard(keys - (visited + {j}), keys - visited);
    } else {
      assert keys - (visited + {j}) == keys - visited;
    }
  }

  /** `HasCircularJoin`: depth-first search through `allOf` lists of declared join
      states, with the states on the current search path in `visited`; meeting a
      state already on the path is a cycle. The source's shared set is restored on
      every `false` return, so each dependency sees the same path. */
  predicate HasCircularJoin(def: WorkflowDefinition, j: string, allOf: seq<string>, visited: set<string>)
    decreases CircMeasure(def, j, visited)
  {
    j in visited
    || exists k :: 0 <= k < |allOf| && JoinDeps(def, allOf[k]).Some?
         && (CircMeasureDrops(def, j, allOf[k], visited);
             HasCircularJoin(def, allOf[k], JoinDeps(def, allOf[k]).value, visited + {j}))
  }

  /** One step of the join dependency graph: `b` is in the `allOf` of join state `a`
      and is itself a join state. */
  ghost predicate JoinStep(def: WorkflowDefinition, a: string, b: string) {
    JoinDeps(def, a).Some? && b in JoinDeps(def, a).value && JoinDeps(def, b).Some?
  }

  /** A walk through join states whose last state is in `visited` or occurred
      earlier on the walk. */
  ghost predicate Lasso(def: WorkflowDefinition, p: seq<string>, visited: set<string>) {
    |p| > 0
    && (forall i :: 0 <= i < |p| - 1 ==> JoinStep(def, p[i], p[i + 1]))
    && (p[|p| - 1] in visited || exists i :: 0 <= i < |p| - 1 && p[i] == p[|p| - 1])
  }

  /** The search finds a cycle exactly when such a walk exists from the join state. */
  lemma CircularIffLasso(def: WorkflowDefinition, j: string, visited: set<string>)
    requires JoinDeps(def, j).Some?
    ensures HasCircularJoin(def, j, JoinDeps(def, j).value, visited) <==>
            exists p :: Lasso(def, p, visited) && p[0] == j
  {
    if HasCircularJoin(def, j, JoinDeps(def, j).value, visited) {
      var p := CircularHasLasso(def, j, visited);
    }
    if exists p :: Lasso(def, p, visited) && p[0] == j {
      var p :| Lasso(def, p, visited) && p[0] == j;
      LassoIsCircular(def, p, visited);
    }
  }

  /** The walk the search found, built along its successful branch. */
  lemma {:induction false} CircularHasLasso(def: WorkflowDefinition, j: string, visited: set<string>)
    returns (p: seq<string>)
    requires JoinDeps(def, j).Some? && HasCircularJoin(def, j, JoinDeps(def, j).value, visited)
    ensures Lasso(def, p, visited) && p[0] == j
    decreases CircMeasure(def, j, visited)
  {
    var allOf := JoinDeps(def, j).value;
    if j in visited {
      p := [j];
    } else {
      var k :| 0 <= k < |allOf| && JoinDeps(def, allOf[k]).Some?
               && HasCircularJoin(def, allOf[k], JoinDeps(def, allOf[k]).value, visited + {j});
      var dep := allOf[k];
      CircMeasureDrops(def, j, dep, visited);
      var q := CircularHasLasso(def, dep, visited + {j});
      LassoPrepend(def, j, q, visited);
      p := [j] + q;
    }
  }

  /** A lasso from a dependency, found with `j` on the path, extends to one from `j`. */
  lemma LassoPrepend(def: WorkflowDefinition, j: string, q: seq<string>, visited: set<string>)
    requires Lasso(def, q, visited + {j}) && JoinStep(def, j, q[0])
    ensures Lasso(def, [j] + q, visited)
  {
    var p := [j] + q;
    assert forall i :: 0 <= i < |q| ==> p[i + 1] == q[i];
    if q[|q| - 1] in visited {
    } else if q[|q| - 1] == j {
      assert p[0] == p[|p| - 1];
    } else {
      var i :| 0 <= i < |q| - 1 && q[i] == q[|q| - 1];
      assert p[i + 1] == p[|p| - 1];
    }
  }

  lemma {:induction false} LassoIsCircular(def: WorkflowDefinition, p: seq<string>, visited: set<string>)
    requires Lasso(def, p, visited) && JoinDeps(def, p[0]).Some?
    ensures HasCircularJoin(def, p[0], JoinDeps(def, p[0]).value, visited)
    decreases |p|
  {
    var j := p[0];
    var allOf := JoinDeps(def, j).value;
    if j !in visited {
      assert |p| > 1;
      var dep := p[1];
      assert JoinStep(def, j, dep);
      var k :| 0 <= k < |allOf| && allOf[k] == dep;
      var q := p[1..];
      assert forall i :: 0 <= i < |q| ==> q[i] == p[i + 1];
      if p[|p| - 1] !in visited {
        var i :| 0 <= i < |p| - 1 && p[i] == p[|p| - 1];
        if i > 0 {
          assert q[i - 1] == q[|q| - 1];
        }
      }
      assert Lasso(def, q, visited + {j});
      LassoIsCircular(def, q, visited + {j});
      CircMeasureDrops(def, j, dep, visited);
      assert HasCircularJoin(def, allOf[k], JoinDeps(def, allOf[k]).value, visited + {j});
    }
  }

  function CircularMessage(state: string): string { "Circular join detected involving: " + state }

  /** One message per join state (in document order) from which the search finds a
      cycle. */
  function CircularMessages(def: WorkflowDefinition, states: Entries<StateDef>): (r: seq<string>)
    ensures |r| == 0 <==> forall k :: 0 <= k < |states| && states[k].1.join.Some? ==>
      !HasCircularJoin(def, states[k].0, states[k].1.join.value, {})
  {
    if states == [] then []
    else
      assert forall k :: 1 <= k < |states| ==> states[k] == states[1..][k - 1];
      var st := states[0];
      (if st.1.join.Some? && HasCircularJoin(def, st.0, st.1.join.value, {}) then [CircularMessage(st.0)] else [])
      + CircularMessages(def, states[1..])
  }

  // ---------------------------------------------------------------------------
  // Level 2

  /** The declared states outside `reached`, in document order. */
  function Outside(states: Entries<StateDef>, reached: set<string>): (r: seq<string>)
    ensures forall n :: n in r <==> HasKey(states, n) && n !in reached
  {
    if states == [] then []
    else
      var rest := Outside(states[1..], reached);
      assert forall n :: HasKey(states, n) <==> states[0].0 == n || HasKey(states[1..], n) by {
        forall n ensures HasKey(states, n) <==> states[0].0 == n || HasKey(states[1..], n) {
          LookupCons(states[0], states[1..], n);
          assert [states[0]] + states[1..] == states;
        }
      }
      (if states[0].0 !in reached then [states[0].0] else []) + rest
  }

  /** The declared states the initial state does not reach, in document order. */
  ghost function Unreachable(def: WorkflowDefinition, init: string, states: Entries<StateDef>): seq<string> {
    if states == [] then []
    else (if !Reaches(StepsOf(def), init, states[0].0) then [states[0].0] else [])
         + Unreachable(def, init, states[1..])
  }

  lemma {:induction false} OutsideIsUnreachable(def: WorkflowDefinition, init: string, states: Entries<StateDef>,
                                                reached: set<string>)
    requires forall s :: s in reached <==> Reaches(StepsOf(def), init, s)
    ensures Outside(states, reached) == Unreachable(def, init, states)
  {
    if states != [] {
      OutsideIsUnreachable(def, init, states[1..], reached);
    }
  }

  function UnreachableMessages(names: seq<string>): (r: seq<string>)
    ensures |r| == 0 <==> |names| == 0
  {
    if |names| > 0 then ["Unreachable states: " + JoinStrings(", ", names)] else []
  }

  /** `Level2Validator.Validate`. Finding the initial state throws on a definition
      without states (the "could not determine" branch is never taken). */
  method Level2(def: WorkflowDefinition) returns (r: Result<seq<string>, CompileError>)
    ensures r.Failure? <==> |def.states| == 0
    ensures r.Success? ==>
      r.value == UnreachableMessages(Unreachable(def, InitialState(def).value, def.states))
                 + CircularMessages(def, def.states)
  {
    var init := InitialState(def);
    if init.None? {
      return Failure(NoStates);
    }
    var reached := ComputeReachable(def, init.value);
    var unreachable := Outside(def.states, reached);
    OutsideIsUnreachable(def, init.value, def.states, reached);
    r := Success(UnreachableMessages(unreachable) + CircularMessages(def, def.states));
  }

  /** What Level 2 accepts: every state is reachable from the initial state and no
      join state sits on or leads to a cycle of join dependencies. */
  ghost predicate Level2Clean(def: WorkflowDefinition) {
    |def.states| > 0
    && (forall k :: 0 <= k < |def.states| ==> Reaches(StepsOf(def), InitialState(def).value, def.states[k].0))
    && (forall k :: 0 <= k < |def.states| && def.states[k].1.join.Some? ==>
          !HasCircularJoin(def, def.states[k].0, def.states[k].1.join.value, {}))
  }

  lemma {:induction false} UnreachableEmpty(def: WorkflowDefinition, init: string, states: Entries<StateDef>)
    ensures |Unreachable(def, init, states)| == 0 <==>
      forall k :: 0 <= k < |states| ==> Reaches(StepsOf(def), init, states[k].0)
  {
    if states != [] {
      UnreachableEmpty(def, init, states[1..]);
      assert forall k :: 1 <= k < |states| ==> states[k] == states[1..][k - 1];
    }
  }

  lemma Level2Accepts(def: WorkflowDefinition)
    requires |def.states| > 0
    ensures var errors := UnreachableMessages(Unreachable(def, InitialState(def).value, def.states))
                          + CircularMessages(def, def.states);
      |errors| == 0 <==> Level2Clean(def)
  {
    UnreachableEmpty(def, InitialState(def).value, def.states);
  }

  // ---------------------------------------------------------------------------
  // The aggregate validator

  /** `DefinitionValidator.Validate`: Level 1's errors if there are any, else
      Level 2's. Level 1 rejects a definition without states, so Level 2 never
      throws here. */
  method Validate(def: WorkflowDefinition) returns (errors: seq<string>)
    ensures |Level1(def)| > 0 ==> errors == Level1(def)
    ensures |Level1(def)| == 0 ==>
      errors == UnreachableMessages(Unreachable(def, InitialState(def).value, def.states))
                + CircularMessages(def, def.states)
    ensures |errors| == 0 <==> Level1Clean(def) && Level2Clean(def)
  {
    Level1Accepts(def);
    errors := Level1(def);
    if |errors| > 0 {
      return;
    }
    var r := Level2(def);
    Level2Accepts(def);
    errors := r.value;
  }
}
