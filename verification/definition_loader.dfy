/** Reading a workflow definition from a YAML/JSON document
    (src/Statevia.Core/Definition/DefinitionLoader.cs). Parsing the text is left to
    the YAML library; the model starts from the deserialised object tree, with
    plain scalars already resolved to booleans, integers and floats
    (src/Statevia.Core/Definition/ScalarPreservingNodeTypeResolver.cs). */
module Loader {
  import opened Common
  import opened Definition

  /** The deserialised object tree. A float keeps the runtime's own rendering of
      the double. Mapping entries are in document order. */
  datatype Yaml =
    | YNull
    | YBool(b: bool)
    | YInt(i: int)
    | YFloat(text: string)
    | YStr(s: string)
    | YSeq(items: seq<Yaml>)
    | YMap(entries: seq<(Yaml, Yaml)>)

  const LIST_TYPE_NAME := "System.Collections.Generic.List`1[System.Object]"
  const DICT_TYPE_NAME := "System.Collections.Generic.Dictionary`2[System.Object,System.Object]"
  const INVALID_DOCUMENT := "Invalid YAML/JSON"
  const DEFAULT_NAME := "Unnamed"

  /** `object.ToString()` of a deserialised node; null renders as the empty string,
      as in `x?.ToString() ?? ""`. */
  function Render(y: Yaml): string {
    match y
    case YNull => ""
    case YBool(b) => if b then "True" else "False"
    case YInt(i) => if i < 0 then "-" + NatToString(-i) else NatToString(i)
    case YFloat(t) => t
    case YStr(s) => s
    case YSeq(_) => LIST_TYPE_NAME
    case YMap(_) => DICT_TYPE_NAME
  }

  /** A mapping keyed by rendered strings, in first-occurrence order. */
  type Dict = Entries<Yaml>

  /** `ToStringDict`: a mapping's entries under their rendered keys (a later entry
      whose key renders the same overwrites in place); anything else is empty. */
  function ToStringDict(y: Yaml): (d: Dict)
    ensures DistinctKeys(d)
    ensures !y.YMap? ==> d == []
  {
    if y.YMap? then PutAll(y.entries) else []
  }

  function PutAll(es: seq<(Yaml, Yaml)>): (d: Dict)
    ensures DistinctKeys(d)
  {
    if es == [] then []
    else Put(PutAll(es[..|es| - 1]), Render(es[|es| - 1].0), es[|es| - 1].1)
  }

  /** The keys of a mapping are the rendered keys of its entries. */
  lemma {:induction false} PutAllKeys(es: seq<(Yaml, Yaml)>, k: string)
    ensures HasKey(PutAll(es), k) <==> exists e :: e in es && Render(e.0) == k
  {
    if es != [] {
      var e := es[|es| - 1];
      PutAllKeys(es[..|es| - 1], k);
      assert forall x :: x in es <==> x in es[..|es| - 1] || x == e;
    }
  }

  /** `GetChildDict`: a missing or null child is the empty mapping. */
  function GetChildDict(d: Dict, key: string): (r: Dict)
    ensures DistinctKeys(r)
    ensures Lookup(d, key).None? || Lookup(d, key) == Some(YNull) ==> r == []
  {
    var v := Lookup(d, key);
    if v.None? || v.value == YNull then [] else ToStringDict(v.value)
  }

  /** `GetStr`: the rendered value, or nothing when missing or null. */
  function GetStr(d: Dict, key: string): (r: Option<string>)
    ensures r.None? <==> Lookup(d, key).None? || Lookup(d, key) == Some(YNull)
    ensures r.Some? ==> r.value == Render(Lookup(d, key).value)
  {
    var v := Lookup(d, key);
    if v.None? || v.value == YNull then None else Some(Render(v.value))
  }

  function AsciiLower(c: char): char {
    if 'A' <= c <= 'Z' then (c as int + 32) as char else c
  }

  /** Ordinal case-insensitive equality with an all-lower-case ASCII word. */
  predicate EqualsIgnoreCase(s: string, lower: string) {
    |s| == |lower| && forall i :: 0 <= i < |s| ==> AsciiLower(s[i]) == lower[i]
  }

  /** `GetBool`: a boolean as is; anything else is true only when it renders as
      "true" in any letter case; missing or null is false. */
  function GetBool(d: Dict, key: string): (r: bool)
    ensures Lookup(d, key).None? || Lookup(d, key) == Some(YNull) ==> !r
    ensures Lookup(d, key) == Some(YBool(true)) ==> r
    ensures Lookup(d, key) == Some(YBool(false)) ==> !r
    ensures (exists s :: Lookup(d, key) == Some(YStr(s)) && EqualsIgnoreCase(s, "true")) ==> r
  {
    var v := Lookup(d, key);
    if v.None? || v.value == YNull then false
    else if v.value.YBool? then v.value.b
    else EqualsIgnoreCase(Render(v.value), "true")
  }

  /** `GetStrList`: any enumerable value becomes the list of its rendered elements:
      a string its one-character strings, a list its items (null as ""), a mapping
      its `[key, value]` pairs. Booleans and numbers are not enumerable: nothing. */
  function GetStrList(d: Dict, key: string): (r: Option<seq<string>>)
    ensures r.None? <==> Lookup(d, key).None? || !(Lookup(d, key).value.YStr? || Lookup(d, key).value.YSeq?
                                                  || Lookup(d, key).value.YMap?)
    ensures Lookup(d, key).Some? && Lookup(d, key).value.YSeq? ==>
      r.Some? && |r.value| == |Lookup(d, key).value.items|
      && forall i :: 0 <= i < |r.value| ==> r.value[i] == Render(Lookup(d, key).value.items[i])
    ensures Lookup(d, key).Some? && Lookup(d, key).value.YStr? ==>
      r.Some? && |r.value| == |Lookup(d, key).value.s|
      && forall i :: 0 <= i < |r.value| ==> r.value[i] == [Lookup(d, key).value.s[i]]
  {
    var v := Lookup(d, key);
    if v.None? then None
    else match v.value
      case YStr(s) => Some(seq(|s|, i requires 0 <= i < |s| => [s[i]]))
      case YSeq(items) => Some(seq(|items|, i requires 0 <= i < |items| => Render(items[i])))
      case YMap(es) => Some(seq(|es|, i requires 0 <= i < |es| => "[" + Render(es[i].0) + ", " + Render(es[i].1) + "]"))
      case _ => None
  }

  /** `ParseTransition`. */
  function ParseTransition(d: Dict): (t: TransitionDef)
    ensures t.next == GetStr(d, "next") && t.fork == GetStrList(d, "fork") && t.end == GetBool(d, "end")
  {
    TransitionDef(GetStr(d, "next"), GetStrList(d, "fork"), GetBool(d, "end"))
  }

  /** `ParseOn` and `ParseStates` share one shape: entries whose value is a
      non-empty mapping are parsed, the rest are skipped. */
  function ParseOn(d: Dict): (r: Entries<TransitionDef>)
    ensures DistinctKeys(d) ==> DistinctKeys(r)
    ensures forall k :: HasKey(r, k) ==> HasKey(d, k)
  {
    if d == [] then []
    else
      var r := ParseOn(d[..|d| - 1]);
      var e := d[|d| - 1];
      KeysOfPrefix(d);
      var child := if e.1 == YNull then [] else ToStringDict(e.1);
      if |child| > 0 then Put(r, e.0, ParseTransition(child)) else r
  }

  /** `ParseState`: `on` only when it is a non-empty mapping, `wait` only when its
      event is set, `join` only when `allOf` is a list (or other enumerable). */
  function ParseState(d: Dict): (s: StateDef)
    ensures s.on.Some? ==> DistinctKeys(s.on.value)
    ensures s.wait == (var w := Lookup(d, "wait");
                       if w.None? || w.value == YNull then None else GetStr(ToStringDict(w.value), "event"))
    ensures s.join == (var j := Lookup(d, "join");
                       if j.None? || j.value == YNull then None else GetStrList(ToStringDict(j.value), "allOf"))
  {
    var onVal := Lookup(d, "on");
    var onDict := if onVal.None? || onVal.value == YNull then [] else ToStringDict(onVal.value);
    var on := if |onDict| > 0 then Some(ParseOn(onDict)) else None;
    var waitVal := Lookup(d, "wait");
    var wait := if waitVal.None? || waitVal.value == YNull then None
                else GetStr(ToStringDict(waitVal.value), "event");
    var joinVal := Lookup(d, "join");
    var join := if joinVal.None? || joinVal.value == YNull then None
                else GetStrList(ToStringDict(joinVal.value), "allOf");
    StateDef(on, wait, join)
  }

  function ParseStates(d: Dict): (r: Entries<StateDef>)
    ensures DistinctKeys(d) ==> DistinctKeys(r)
    ensures forall k :: 0 <= k < |r| && r[k].1.on.Some? ==> DistinctKeys(r[k].1.on.value)
    ensures forall k :: HasKey(r, k) ==> HasKey(d, k)
  {
    if d == [] then []
    else
      var r := ParseStates(d[..|d| - 1]);
      var e := d[|d| - 1];
      KeysOfPrefix(d);
      var child := if e.1 == YNull then [] else ToStringDict(e.1);
      if |child| > 0 then PutState(r, e.0, ParseState(child)) else r
  }

  /** `Put` for states, keeping every state's `on` keys distinct. */
  function PutState(r: Entries<StateDef>, k: string, s: StateDef): (r': Entries<StateDef>)
    requires forall i :: 0 <= i < |r| && r[i].1.on.Some? ==> DistinctKeys(r[i].1.on.value)
    requires s.on.Some? ==> DistinctKeys(s.on.value)
    ensures r' == Put(r, k, s)
    ensures forall i :: 0 <= i < |r'| && r'[i].1.on.Some? ==> DistinctKeys(r'[i].1.on.value)
  {
    var r' := Put(r, k, s);
    assert forall i :: 0 <= i < |r'| ==> r'[i] in r || r'[i] == (k, s) by {
      var i := IndexOf(r, k);
      if i >= 0 { assert r' == r[i := (k, s)]; } else { assert r' == r + [(k, s)]; }
    }
    r'
  }

  lemma KeysOfPrefix<V>(d: Entries<V>)
    requires d != []
    ensures forall k :: HasKey(d[..|d| - 1], k) ==> HasKey(d, k)
    ensures DistinctKeys(d) ==> DistinctKeys(d[..|d| - 1]) && !HasKey(d[..|d| - 1], d[|d| - 1].0)
  {
    var p := d[..|d| - 1];
    forall k | HasKey(p, k) ensures HasKey(d, k) {
      var i := IndexOf(p, k);
      assert d[i] == p[i];
    }
  }

  /** `Load`: a null document is rejected; otherwise the workflow name (default
      "Unnamed") and the states, both read leniently from the root mapping. */
  function Load(doc: Yaml): (r: Result<WorkflowDefinition, string>)
    ensures doc == YNull <==> r == Failure(INVALID_DOCUMENT)
    ensures r.Success? ==> WellKeyed(r.value)
    ensures r.Success? ==>
      r.value.name == GetStr(GetChildDict(ToStringDict(doc), "workflow"), "name").GetOr(DEFAULT_NAME)
    ensures r.Success? ==> forall k :: HasKey(r.value.states, k) ==> HasKey(GetChildDict(ToStringDict(doc), "states"), k)
  {
    if doc == YNull then Failure(INVALID_DOCUMENT)
    else
      var root := ToStringDict(doc);
      var name := GetStr(GetChildDict(root, "workflow"), "name").GetOr(DEFAULT_NAME);
      Success(WorkflowDefinition(name, ParseStates(GetChildDict(root, "states"))))
  }

  // ---------------------------------------------------------------------------
  // Round trip: a definition written out as a document loads back unchanged

  function EmitList(xs: seq<string>): (y: Yaml)
    ensures y.YSeq? && |y.items| == |xs| && forall i :: 0 <= i < |xs| ==> y.items[i] == YStr(xs[i])
  {
    YSeq(seq(|xs|, i requires 0 <= i < |xs| => YStr(xs[i])))
  }

  /** A mapping written out with string keys, in the dictionary's order. */
  function EmitDict(d: Dict): (y: Yaml)
    ensures y.YMap? && |y.entries| == |d|
    ensures forall i :: 0 <= i < |d| ==> Render(y.entries[i].0) == d[i].0 && y.entries[i].1 == d[i].1
  {
    YMap(seq(|d|, i requires 0 <= i < |d| => (YStr(d[i].0), d[i].1)))
  }

  /** Reading a written-out dictionary with distinct keys gives it back. */
  lemma EmittedDict(d: Dict)
    requires DistinctKeys(d)
    ensures ToStringDict(EmitDict(d)) == d
  {
    PutAllDistinct(EmitDict(d).entries);
  }

  /** A transition as a mapping; `end` is always written, so the mapping is never
      empty. */
  function EmitTransition(t: TransitionDef): Yaml {
    EmitDict(TransitionDict(t))
  }

  function EmitOn(on: Entries<TransitionDef>): Yaml {
    EmitDict(OnDict(on))
  }

  function EmitState(st: StateDef): Yaml {
    EmitDict(StateDict(st))
  }

  function EmitStates(states: Entries<StateDef>): Yaml {
    EmitDict(StatesDict(states))
  }

  function Emit(def: WorkflowDefinition): Yaml {
    EmitDict(RootDict(def))
  }

  /** The definitions a document can express: distinct keys, every state says
      something, and a present `on` is non-empty. */
  predicate Representable(def: WorkflowDefinition) {
    WellKeyed(def)
    && forall k :: 0 <= k < |def.states| ==>
      var st := def.states[k].1;
      (st.on.Some? || st.wait.Some? || st.join.Some?) && (st.on.Some? ==> |st.on.value| > 0)
  }

  /** Loading is a left inverse of writing out. */
  lemma LoadEmit(def: WorkflowDefinition)
    requires Representable(def)
    ensures Load(Emit(def)) == Success(def)
  {
    var doc := Emit(def);
    EmittedRoot(def);
    ParseEmittedStates(def.name, def.states);
    LoadOfMap(doc);
  }

  /** A document that is not empty loads as its name and its parsed states. */
  lemma LoadOfMap(doc: Yaml)
    requires doc.YMap?
    ensures var root := ToStringDict(doc);
      Load(doc) == Success(WorkflowDefinition(GetStr(GetChildDict(root, "workflow"), "name").GetOr(DEFAULT_NAME),
                                              ParseStates(GetChildDict(root, "states"))))
  {
  }

  function NameMap(name: string): Yaml {
    EmitDict([("name", YStr(name))])
  }

  /** The two sections of an emitted document read back as written. */
  lemma EmittedRoot(def: WorkflowDefinition)
    requires DistinctKeys(def.states)
    ensures GetStr(GetChildDict(ToStringDict(Emit(def)), "workflow"), "name") == Some(def.name)
    ensures GetChildDict(ToStringDict(Emit(def)), "states") == StatesDict(def.states)
  {
    var root := RootDict(def);
    EmittedRootDict(def);
    LookupEntry(root, 0);
    LookupEntry(root, 1);
    assert GetChildDict(root, "workflow") == ToStringDict(NameMap(def.name));
    EmittedName(def.name);
    assert GetChildDict(root, "states") == ToStringDict(EmitStates(def.states));
    EmittedStatesDict(def.states);
  }

  function RootDict(def: WorkflowDefinition): Dict {
    [("workflow", NameMap(def.name)), ("states", EmitStates(def.states))]
  }

  lemma EmittedRootDict(def: WorkflowDefinition)
    ensures DistinctKeys(RootDict(def))
    ensures ToStringDict(Emit(def)) == RootDict(def)
  {
    assert "workflow"[0] != "states"[0];
    EmittedDict(RootDict(def));
  }

  lemma EmittedName(name: string)
    ensures GetStr(ToStringDict(NameMap(name)), "name") == Some(name)
  {
    EmittedDict([("name", YStr(name))]);
    LookupEntry([("name", YStr(name))], 0);
  }

  lemma EmittedStatesDict(states: Entries<StateDef>)
    requires DistinctKeys(states)
    ensures ToStringDict(EmitStates(states)) == StatesDict(states)
  {
    EmittedDict(StatesDict(states));
  }

  /** Putting entries whose rendered keys are distinct just lists them. */
  lemma {:induction false} PutAllDistinct(es: seq<(Yaml, Yaml)>)
    requires forall i, j :: 0 <= i < j < |es| ==> Render(es[i].0) != Render(es[j].0)
    ensures |PutAll(es)| == |es|
    ensures forall i :: 0 <= i < |es| ==> PutAll(es)[i] == (Render(es[i].0), es[i].1)
  {
    if es != [] {
      var p := es[..|es| - 1];
      var e := es[|es| - 1];
      PutAllDistinct(p);
      PutAllAppends(es);
      var d := PutAll(p);
      forall i | 0 <= i < |es| ensures PutAll(es)[i] == (Render(es[i].0), es[i].1) {
        if i < |p| {
          assert PutAll(es)[i] == d[i] && es[i] == p[i];
        }
      }
    }
  }

  /** A last entry whose rendered key is new is appended. */
  lemma PutAllAppends(es: seq<(Yaml, Yaml)>)
    requires es != []
    requires forall i, j :: 0 <= i < j < |es| ==> Render(es[i].0) != Render(es[j].0)
    requires var p := es[..|es| - 1];
      |PutAll(p)| == |p| && forall i :: 0 <= i < |p| ==> PutAll(p)[i] == (Render(p[i].0), p[i].1)
    ensures PutAll(es) == PutAll(es[..|es| - 1]) + [(Render(es[|es| - 1].0), es[|es| - 1].1)]
  {
    var p := es[..|es| - 1];
    var k := Render(es[|es| - 1].0);
    var d := PutAll(p);
    forall j | 0 <= j < |d| ensures d[j].0 != k {
      assert d[j].0 == Render(p[j].0) && p[j] == es[j];
    }
    IndexOfNone(d, k);
  }

  /** In a dictionary with distinct keys, an entry's key finds that entry. */
  lemma LookupEntry(d: Dict, i: nat)
    requires DistinctKeys(d) && i < |d|
    ensures Lookup(d, d[i].0) == Some(d[i].1)
  {
    assert IndexOf(d, d[i].0) == i;
  }

  lemma LookupMissing(d: Dict, k: string)
    requires forall i :: 0 <= i < |d| ==> d[i].0 != k
    ensures Lookup(d, k).None?
  {
    IndexOfNone(d, k);
  }

  function StatesDict(states: Entries<StateDef>): Dict {
    seq(|states|, i requires 0 <= i < |states| => (states[i].0, EmitState(states[i].1)))
  }

  /** The states mapping of an emitted definition parses back to the states. */
  lemma {:induction false} ParseEmittedStates(name: string, states: Entries<StateDef>)
    requires Representable(WorkflowDefinition(name, states))
    ensures ParseStates(StatesDict(states)) == states
  {
    if states != [] {
      var p := states[..|states| - 1];
      var k, st := states[|states| - 1].0, states[|states| - 1].1;
      assert DistinctKeys(p) && !HasKey(p, k) by { KeysOfPrefix(states); }
      assert Representable(WorkflowDefinition(name, p));
      ParseEmittedStates(name, p);
      StatesDictSnoc(states);
      ParseEmittedState(st);
      ParseStatesSnoc(StatesDict(p), k, EmitState(st));
      PutLast(states);
    }
  }

  lemma StatesDictSnoc(states: Entries<StateDef>)
    requires states != []
    ensures StatesDict(states)
      == StatesDict(states[..|states| - 1]) + [(states[|states| - 1].0, EmitState(states[|states| - 1].1))]
  {
  }

  lemma ParseStatesSnoc(d: Dict, k: string, y: Yaml)
    requires y != YNull && |ToStringDict(y)| > 0
    ensures ParseStates(d + [(k, y)]) == Put(ParseStates(d), k, ParseState(ToStringDict(y)))
  {
    var dd := d + [(k, y)];
    assert dd[..|dd| - 1] == d && dd[|dd| - 1] == (k, y);
    var child := ToStringDict(y);
    assert ParseStates(dd) == PutState(ParseStates(d), k, ParseState(child));
  }

  /** One emitted state parses back to itself. */
  lemma ParseEmittedState(st: StateDef)
    requires st.on.Some? || st.wait.Some? || st.join.Some?
    requires st.on.Some? ==> |st.on.value| > 0 && DistinctKeys(st.on.value)
    ensures |ToStringDict(EmitState(st))| > 0
    ensures ParseState(ToStringDict(EmitState(st))) == st
  {
    EmittedStateDict(st);
    ParsedOnField(st);
    ParsedWaitField(st);
    ParsedJoinField(st);
  }

  function WaitMap(event: string): Yaml {
    EmitDict([("event", YStr(event))])
  }

  function JoinMap(allOf: seq<string>): Yaml {
    EmitDict([("allOf", EmitList(allOf))])
  }

  function StateDict(st: StateDef): Dict {
    StateOn(st) + StateWait(st) + StateJoin(st)
  }

  lemma StateWordsDiffer()
    ensures "on" != "wait" && "on" != "join" && "wait" != "join"
  {
    assert "on"[0] != "wait"[0] && "on"[0] != "join"[0] && "wait"[0] != "join"[0];
  }

  /** The emitted state mapping, key by key. */
  lemma EmittedStateDict(st: StateDef)
    ensures DistinctKeys(StateDict(st))
    ensures ToStringDict(EmitState(st)) == StateDict(st)
  {
    StateWordsDiffer();
    DistinctOfThree(StateOn(st), StateWait(st), StateJoin(st));
    EmittedDict(StateDict(st));
  }

  /** Three optional entries with pairwise different keys. */
  lemma DistinctOfThree(a: Dict, b: Dict, c: Dict)
    requires |a| <= 1 && |b| <= 1 && |c| <= 1
    requires a != [] && b != [] ==> a[0].0 != b[0].0
    requires a != [] && c != [] ==> a[0].0 != c[0].0
    requires b != [] && c != [] ==> b[0].0 != c[0].0
    ensures DistinctKeys(a + b + c)
  {
    var d := a + b + c;
    forall i, j | 0 <= i < j < |d| ensures d[i].0 != d[j].0 {
      if i < |a| {
        assert d[i] == a[0];
        if j < |a| + |b| { assert d[j] == b[0]; } else { assert d[j] == c[0]; }
      } else {
        assert d[i] == b[0] && d[j] == c[0];
      }
    }
  }

  function OnDict(on: Entries<TransitionDef>): Dict {
    seq(|on|, i requires 0 <= i < |on| => (on[i].0, EmitTransition(on[i].1)))
  }

  lemma EmittedOnDict(on: Entries<TransitionDef>)
    requires DistinctKeys(on)
    ensures ToStringDict(EmitOn(on)) == OnDict(on)
  {
    EmittedDict(OnDict(on));
  }

  lemma ParsedOnField(st: StateDef)
    requires st.on.Some? ==> |st.on.value| > 0 && DistinctKeys(st.on.value)
    ensures ParseState(StateDict(st)).on == st.on
  {
    StateDictFields(st);
    if st.on.Some? {
      EmittedOnDict(st.on.value);
      ParseEmittedOn(st.on.value);
    }
  }

  lemma ParsedWaitField(st: StateDef)
    ensures ParseState(StateDict(st)).wait == st.wait
  {
    StateDictFields(st);
    if st.wait.Some? {
      WaitMapEvent(st.wait.value);
    }
  }

  lemma ParsedJoinField(st: StateDef)
    ensures ParseState(StateDict(st)).join == st.join
  {
    StateDictFields(st);
    if st.join.Some? {
      var j: Dict := [("allOf", EmitList(st.join.value))];
      EmittedDict(j);
      LookupEntry(j, 0);
      EmittedList(j, "allOf", st.join.value);
    }
  }

  /** The three fields of an emitted state mapping: each is found exactly when
      the state has it. */
  lemma StateDictFields(st: StateDef)
    ensures Lookup(StateDict(st), "on") == if st.on.Some? then Some(EmitOn(st.on.value)) else None
    ensures Lookup(StateDict(st), "wait") == if st.wait.Some? then Some(WaitMap(st.wait.value)) else None
    ensures Lookup(StateDict(st), "join") == if st.join.Some? then Some(JoinMap(st.join.value)) else None
  {
    EmittedStateDict(st);
    StateWordsDiffer();
    FieldOfThree(StateOn(st), StateWait(st), StateJoin(st), "on");
    FieldOfThree(StateOn(st), StateWait(st), StateJoin(st), "wait");
    FieldOfThree(StateOn(st), StateWait(st), StateJoin(st), "join");
  }

  function StateOn(st: StateDef): Dict {
    if st.on.Some? then [("on", EmitOn(st.on.value))] else []
  }

  function StateWait(st: StateDef): Dict {
    if st.wait.Some? then [("wait", WaitMap(st.wait.value))] else []
  }

  function StateJoin(st: StateDef): Dict {
    if st.join.Some? then [("join", JoinMap(st.join.value))] else []
  }

  /** A key of three optional entries with distinct keys is found in the one
      entry that carries it. */
  lemma FieldOfThree(a: Dict, b: Dict, c: Dict, k: string)
    requires |a| <= 1 && |b| <= 1 && |c| <= 1 && DistinctKeys(a + b + c)
    ensures Lookup(a + b + c, k) == if a != [] && a[0].0 == k then Some(a[0].1)
                                    else if b != [] && b[0].0 == k then Some(b[0].1)
                                    else if c != [] && c[0].0 == k then Some(c[0].1)
                                    else None
  {
    var d := a + b + c;
    if a != [] && a[0].0 == k {
      assert d[0] == a[0];
      LookupEntry(d, 0);
    } else if b != [] && b[0].0 == k {
      assert d[|a|] == b[0];
      LookupEntry(d, |a|);
    } else if c != [] && c[0].0 == k {
      assert d[|d| - 1] == c[0];
      LookupEntry(d, |d| - 1);
    } else {
      forall i | 0 <= i < |d| ensures d[i].0 != k {
        if i < |a| { assert d[i] == a[0]; }
        else if i < |a| + |b| { assert d[i] == b[0]; }
        else { assert d[i] == c[0]; }
      }
      LookupMissing(d, k);
    }
  }

  lemma WaitMapEvent(event: string)
    ensures GetStr(ToStringDict(WaitMap(event)), "event") == Some(event)
  {
    var w: Dict := [("event", YStr(event))];
    EmittedDict(w);
    LookupEntry(w, 0);
  }

  lemma EmittedList(d: Dict, key: string, xs: seq<string>)
    requires Lookup(d, key) == Some(EmitList(xs))
    ensures GetStrList(d, key) == Some(xs)
  {
    assert GetStrList(d, key).value == xs;
  }

  lemma {:induction false} ParseEmittedOn(on: Entries<TransitionDef>)
    requires DistinctKeys(on)
    ensures ParseOn(OnDict(on)) == on
  {
    if on != [] {
      var p := on[..|on| - 1];
      var k, t := on[|on| - 1].0, on[|on| - 1].1;
      assert DistinctKeys(p) && !HasKey(p, k) by { KeysOfPrefix(on); }
      ParseEmittedOn(p);
      OnDictSnoc(on);
      ParseEmittedTransition(t);
      ParseOnSnoc(OnDict(p), k, EmitTransition(t));
      PutLast(on);
    }
  }

  lemma OnDictSnoc(on: Entries<TransitionDef>)
    requires on != []
    ensures OnDict(on) == OnDict(on[..|on| - 1]) + [(on[|on| - 1].0, EmitTransition(on[|on| - 1].1))]
  {
  }

  lemma ParseOnSnoc(d: Dict, k: string, y: Yaml)
    requires y != YNull && |ToStringDict(y)| > 0
    ensures ParseOn(d + [(k, y)]) == Put(ParseOn(d), k, ParseTransition(ToStringDict(y)))
  {
    var dd := d + [(k, y)];
    assert dd[..|dd| - 1] == d && dd[|dd| - 1] == (k, y);
  }

  lemma ParseEmittedTransition(t: TransitionDef)
    ensures |ToStringDict(EmitTransition(t))| > 0
    ensures ParseTransition(ToStringDict(EmitTransition(t))) == t
  {
    EmittedTransitionDict(t);
    EmittedNext(t);
    EmittedFork(t);
    EmittedEnd(t);
  }

  /** The emitted transition mapping, key by key. */
  lemma EmittedTransitionDict(t: TransitionDef)
    ensures DistinctKeys(TransitionDict(t))
    ensures ToStringDict(EmitTransition(t)) == TransitionDict(t)
  {
    KeyWordsDiffer();
    var next: Dict := if t.next.Some? then [("next", YStr(t.next.value))] else [];
    var fork: Dict := if t.fork.Some? then [("fork", EmitList(t.fork.value))] else [];
    DistinctOfThree(next, fork, [("end", YBool(t.end))]);
    EmittedDict(TransitionDict(t));
  }

  function TransitionDict(t: TransitionDef): Dict {
    (if t.next.Some? then [("next", YStr(t.next.value))] else [])
    + (if t.fork.Some? then [("fork", EmitList(t.fork.value))] else [])
    + [("end", YBool(t.end))]
  }

  lemma KeyWordsDiffer()
    ensures "next" != "fork" && "next" != "end" && "fork" != "end"
  {
    assert "next"[0] != "fork"[0] && "next"[0] != "end"[0] && "fork"[0] != "end"[0];
  }

  lemma EmittedNext(t: TransitionDef)
    ensures GetStr(ToStringDict(EmitTransition(t)), "next") == t.next
  {
    EmittedTransitionDict(t);
    var d := TransitionDict(t);
    if t.next.Some? {
      LookupEntry(d, 0);
    } else {
      assert "next" != "fork" && "next" != "end" by { assert "next"[0] != "fork"[0] && "next"[0] != "end"[0]; }
      LookupMissing(d, "next");
    }
  }

  lemma EmittedFork(t: TransitionDef)
    ensures GetStrList(ToStringDict(EmitTransition(t)), "fork") == t.fork
  {
    EmittedTransitionDict(t);
    var d := TransitionDict(t);
    var n := if t.next.Some? then 1 else 0;
    if t.fork.Some? {
      assert d[n] == ("fork", EmitList(t.fork.value));
      LookupEntry(d, n);
      EmittedList(d, "fork", t.fork.value);
    } else {
      assert "next" != "fork" && "fork" != "end" by { assert "next"[0] != "fork"[0] && "fork"[0] != "end"[0]; }
      LookupMissing(d, "fork");
    }
  }

  lemma EmittedEnd(t: TransitionDef)
    ensures GetBool(ToStringDict(EmitTransition(t)), "end") == t.end
  {
    EmittedTransitionDict(t);
    var d := TransitionDict(t);
    LookupEntry(d, |d| - 1);
  }
}
