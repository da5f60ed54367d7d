/** The join accumulator of one workflow instance (src/Statevia.Core/Join/JoinTracker.cs).
    The lock around each call is not modelled: each call is one atomic step. */
module Join {
  import opened Common
  import Fsm

  /** The most recent (fact, output) recorded for one participant. */
  datatype StateResult = StateResult(fact: string, output: Value)

  /** The compiled join table in its iteration order: join state -> allOf list. */
  type JoinTable = seq<(string, seq<string>)>

  /** Per-join accumulators, created lazily on the first recorded fact. */
  type Accumulators = map<string, map<string, StateResult>>

  datatype Tracker = Tracker(table: JoinTable, acc: Accumulators)

  /** A fresh tracker for a compiled join table: no accumulator exists yet. */
  function NewTracker(table: JoinTable): (t: Tracker)
    ensures t.table == table && t.acc == map[]
  {
    Tracker(table, map[])
  }

  /** The accumulator of `join`, or an empty one when none exists yet. */
  function AccOf(acc: Accumulators, join: string): map<string, StateResult> {
    if join in acc then acc[join] else map[]
  }

  /** The readiness test: exactly as many recorded participants as allOf entries,
      all of them Completed. */
  predicate Ready(results: map<string, StateResult>, allOf: seq<string>) {
    |results| == |allOf| && forall p :: p in results ==> results[p].fact == Fsm.COMPLETED
  }

  /** Some join at or after position `from` of the table lists `state` under the name `join`. */
  predicate ListsFrom(table: JoinTable, from: nat, join: string, state: string) {
    exists i :: from <= i < |table| && table[i].0 == join && state in table[i].1
  }

  function Record(acc: Accumulators, join: string, state: string, fact: string, output: Value): Accumulators {
    acc[join := AccOf(acc, join)[state := StateResult(fact, output)]]
  }

  /** The loop of `RecordFact` from table position `i` on: records the fact for
      each listing join and stops at the first one it makes ready. */
  function RecordFrom(table: JoinTable, acc: Accumulators, i: nat, state: string, fact: string, output: Value)
    : (r: (Accumulators, Option<string>))
    requires i <= |table|
    decreases |table| - i
    // a Failed or Cancelled fact never returns a join
    ensures (fact == Fsm.FAILED || fact == Fsm.CANCELLED) ==> r.1.None?
  {
    if i == |table| then (acc, None)
    else
      var join := table[i].0;
      var allOf := table[i].1;
      if state !in allOf then
        RecordFrom(table, acc, i + 1, state, fact, output)
      else
        var acc' := Record(acc, join, state, fact, output);
        if fact == Fsm.FAILED || fact == Fsm.CANCELLED then
          RecordFrom(table, acc', i + 1, state, fact, output)
        else if Ready(acc'[join], allOf) then
          (acc', Some(join))
        else
          RecordFrom(table, acc', i + 1, state, fact, output)
  }

  /** Joins that do not list the state from position `i` on are untouched. */
  lemma {:induction false} RecordFromUntouched(table: JoinTable, acc: Accumulators, i: nat, state: string,
                                               fact: string, output: Value, j: string)
    requires i <= |table| && !ListsFrom(table, i, j, state)
    ensures var r := RecordFrom(table, acc, i, state, fact, output);
            (j in r.0 <==> j in acc) && AccOf(r.0, j) == AccOf(acc, j)
    decreases |table| - i
  {
    if i < |table| {
      assert !ListsFrom(table, i + 1, j, state);
      if state !in table[i].1 {
        RecordFromUntouched(table, acc, i + 1, state, fact, output, j);
      } else {
        assert table[i].0 != j;
        var acc' := Record(acc, table[i].0, state, fact, output);
        assert (j in acc' <==> j in acc) && AccOf(acc', j) == AccOf(acc, j);
        RecordFromUntouched(table, acc', i + 1, state, fact, output, j);
      }
    }
  }

  /** Accumulators are never cleared, the entries of other participants never
      change, and an entry already holding this very fact keeps it. */
  lemma {:induction false} RecordFromKeeps(table: JoinTable, acc: Accumulators, i: nat, state: string,
                                           fact: string, output: Value, j: string, p: string)
    requires i <= |table| && p in AccOf(acc, j)
    ensures var r := RecordFrom(table, acc, i, state, fact, output);
            p in AccOf(r.0, j)
            && (p != state || AccOf(acc, j)[p] == StateResult(fact, output) ==> AccOf(r.0, j)[p] == AccOf(acc, j)[p])
    decreases |table| - i
  {
    if i < |table| {
      if state !in table[i].1 {
        RecordFromKeeps(table, acc, i + 1, state, fact, output, j, p);
      } else {
        var acc' := Record(acc, table[i].0, state, fact, output);
        assert p in AccOf(acc', j);
        assert p != state || AccOf(acc, j)[p] == StateResult(fact, output) ==> AccOf(acc', j)[p] == AccOf(acc, j)[p];
        if !(fact == Fsm.FAILED || fact == Fsm.CANCELLED) && Ready(acc'[table[i].0], table[i].1) {
        } else {
          RecordFromKeeps(table, acc', i + 1, state, fact, output, j, p);
        }
      }
    }
  }

  /** A returned join lists the state at or after position `i`, holds the fact
      just recorded, and is ready. */
  lemma {:induction false} RecordFromReturned(table: JoinTable, acc: Accumulators, i: nat, state: string,
                                              fact: string, output: Value)
    requires i <= |table|
    ensures var r := RecordFrom(table, acc, i, state, fact, output);
      r.1.Some? ==>
        fact != Fsm.FAILED && fact != Fsm.CANCELLED
        && exists k :: i <= k < |table| && table[k].0 == r.1.value && state in table[k].1
                   && Ready(AccOf(r.0, r.1.value), table[k].1)
                   && state in AccOf(r.0, r.1.value)
                   && AccOf(r.0, r.1.value)[state] == StateResult(fact, output)
    decreases |table| - i
  {
    if i < |table| {
      if state !in table[i].1 {
        RecordFromReturned(table, acc, i + 1, state, fact, output);
      } else {
        var acc' := Record(acc, table[i].0, state, fact, output);
        if !(fact == Fsm.FAILED || fact == Fsm.CANCELLED) && Ready(acc'[table[i].0], table[i].1) {
          assert AccOf(acc', table[i].0) == acc'[table[i].0];
        } else {
          RecordFromReturned(table, acc', i + 1, state, fact, output);
        }
      }
    }
  }

  /** When nothing is returned, every join listing the state from position `i`
      on has recorded the fact. */
  lemma {:induction false} RecordFromRecorded(table: JoinTable, acc: Accumulators, i: nat, state: string,
                                              fact: string, output: Value, j: string)
    requires i <= |table| && ListsFrom(table, i, j, state)
    requires RecordFrom(table, acc, i, state, fact, output).1.None?
    ensures var r := RecordFrom(table, acc, i, state, fact, output);
            j in r.0 && state in r.0[j] && r.0[j][state] == StateResult(fact, output)
    decreases |table| - i
  {
    if state !in table[i].1 {
      RecordFromRecorded(table, acc, i + 1, state, fact, output, j);
    } else {
      var acc' := Record(acc, table[i].0, state, fact, output);
      if table[i].0 == j {
        RecordFromKeeps(table, acc', i + 1, state, fact, output, j, state);
        var r := RecordFrom(table, acc', i + 1, state, fact, output);
        assert AccOf(r.0, j)[state] == StateResult(fact, output);
        assert j in r.0;
      } else {
        assert ListsFrom(table, i + 1, j, state);
        RecordFromRecorded(table, acc', i + 1, state, fact, output, j);
      }
    }
  }

  /** When the scan from `i` returns nothing, no join it passed that lists the
      state is left ready. */
  lemma {:induction false} RecordFromNoneNotReady(table: JoinTable, acc: Accumulators, i: nat, state: string,
                                                  fact: string, output: Value, k: nat)
    requires DistinctKeys(table) && i <= k < |table| && state in table[k].1
    requires RecordFrom(table, acc, i, state, fact, output).1.None?
    ensures !Ready(AccOf(RecordFrom(table, acc, i, state, fact, output).0, table[k].0), table[k].1)
    decreases |table| - i
  {
    if state !in table[i].1 {
      RecordFromNoneNotReady(table, acc, i + 1, state, fact, output, k);
    } else {
      var join := table[i].0;
      var acc' := Record(acc, join, state, fact, output);
      if i < k {
        RecordFromNoneNotReady(table, acc', i + 1, state, fact, output, k);
      } else {
        assert !ListsFrom(table, i + 1, join, state);
        RecordFromUntouched(table, acc', i + 1, state, fact, output, join);
        assert AccOf(acc', join)[state].fact == fact;
      }
    }
  }

  /** `RecordFact`: records the fact for every join (in table order) that lists the
      state, and returns the first join this call makes ready. */
  function RecordFact(t: Tracker, state: string, fact: string, output: Value): (r: (Tracker, Option<string>))
    ensures r.0.table == t.table
    ensures (fact == Fsm.FAILED || fact == Fsm.CANCELLED) ==> r.1.None?
  {
    var (acc', ready) := RecordFrom(t.table, t.acc, 0, state, fact, output);
    (Tracker(t.table, acc'), ready)
  }

  /** What `RecordFact` does to the accumulators and which join it returns: a
      state no join lists changes nothing; a returned join lists the state and is
      ready; joins not listing the state keep their accumulators; unless a join is
      returned, every listing join records the fact; and no recorded participant is
      lost or, other than the state, changed. */
  lemma RecordFactSpec(t: Tracker, state: string, fact: string, output: Value)
    ensures var r := RecordFact(t, state, fact, output);
      (forall i :: 0 <= i < |t.table| ==> state !in t.table[i].1) ==> r == (t, None)
    ensures var r := RecordFact(t, state, fact, output);
      r.1.Some? ==>
        exists k :: 0 <= k < |t.table| && t.table[k].0 == r.1.value && state in t.table[k].1
                    && Ready(AccOf(r.0.acc, r.1.value), t.table[k].1)
    ensures var r := RecordFact(t, state, fact, output);
      forall j :: !ListsFrom(t.table, 0, j, state) ==>
        (j in r.0.acc <==> j in t.acc) && AccOf(r.0.acc, j) == AccOf(t.acc, j)
    ensures var r := RecordFact(t, state, fact, output);
      r.1.None? ==>
        forall j :: ListsFrom(t.table, 0, j, state) ==>
        j in r.0.acc && state in r.0.acc[j] && r.0.acc[j][state] == StateResult(fact, output)
    ensures var r := RecordFact(t, state, fact, output);
      DistinctKeys(t.table) && r.1.None? ==>
        forall k :: 0 <= k < |t.table| && state in t.table[k].1 ==> !Ready(AccOf(r.0.acc, t.table[k].0), t.table[k].1)
    ensures var r := RecordFact(t, state, fact, output);
      forall j, p :: p in AccOf(t.acc, j) ==> p in AccOf(r.0.acc, j)
    ensures var r := RecordFact(t, state, fact, output);
      forall j, p :: p != state && p in AccOf(t.acc, j) ==> AccOf(r.0.acc, j)[p] == AccOf(t.acc, j)[p]
  {
    var (acc', ready) := RecordFrom(t.table, t.acc, 0, state, fact, output);
    assert RecordFact(t, state, fact, output) == (Tracker(t.table, acc'), ready);
    RecordFromReturned(t.table, t.acc, 0, state, fact, output);
    forall j | !ListsFrom(t.table, 0, j, state)
      ensures (j in acc' <==> j in t.acc) && AccOf(acc', j) == AccOf(t.acc, j)
    {
      RecordFromUntouched(t.table, t.acc, 0, state, fact, output, j);
    }
    forall j | ready.None? && ListsFrom(t.table, 0, j, state)
      ensures j in acc' && state in acc'[j] && acc'[j][state] == StateResult(fact, output)
    {
      RecordFromRecorded(t.table, t.acc, 0, state, fact, output, j);
    }
    forall k | DistinctKeys(t.table) && ready.None? && 0 <= k < |t.table| && state in t.table[k].1
      ensures !Ready(AccOf(acc', t.table[k].0), t.table[k].1)
    {
      RecordFromNoneNotReady(t.table, t.acc, 0, state, fact, output, k);
    }
    forall j, p | p in AccOf(t.acc, j)
      ensures p in AccOf(acc', j) && (p != state ==> AccOf(acc', j)[p] == AccOf(t.acc, j)[p])
    {
      RecordFromKeeps(t.table, t.acc, 0, state, fact, output, j, p);
    }
    assert (forall i :: 0 <= i < |t.table| ==> state !in t.table[i].1) ==> acc' == t.acc by {
      if forall i :: 0 <= i < |t.table| ==> state !in t.table[i].1 {
        assert forall j :: !ListsFrom(t.table, 0, j, state);
        assert forall j :: j in acc' <==> j in t.acc;
        forall j | j in acc' ensures acc'[j] == t.acc[j] {
          assert AccOf(acc', j) == AccOf(t.acc, j);
        }
      }
    }
  }

  /** `GetJoinInputs`: the outputs of the participants whose latest fact is Completed;
      empty when the join has no accumulator yet. */
  function GetJoinInputs(t: Tracker, join: string): (m: map<string, Value>)
    ensures join !in t.acc ==> m == map[]
    ensures join in t.acc ==>
      forall p :: p in m <==> p in t.acc[join] && t.acc[join][p].fact == Fsm.COMPLETED
    ensures forall p :: p in m ==> m[p] == t.acc[join][p].output
  {
    if join !in t.acc then map[]
    else
      var results := t.acc[join];
      map p | p in results && results[p].fact == Fsm.COMPLETED :: results[p].output
  }

  // ---------------------------------------------------------------------------
  // Properties relating several calls

  /** Once a participant's latest fact is not Completed, no call on behalf of another
      participant can make that join ready: the blocking entry stays in place. */
  lemma FailedParticipantBlocks(t: Tracker, join: string, p: string, state: string, fact: string, output: Value)
    requires p in AccOf(t.acc, join) && AccOf(t.acc, join)[p].fact != Fsm.COMPLETED
    requires state != p
    ensures RecordFact(t, state, fact, output).1 != Some(join)
    ensures p in AccOf(RecordFact(t, state, fact, output).0.acc, join)
    ensures AccOf(RecordFact(t, state, fact, output).0.acc, join)[p] == AccOf(t.acc, join)[p]
  {
    RecordFactSpec(t, state, fact, output);
  }

  /** Every recorded participant of a join is listed in that join's allOf. */
  predicate Consistent(table: JoinTable, acc: Accumulators) {
    forall i, p :: 0 <= i < |table| && table[i].0 in acc && p in acc[table[i].0] ==> p in table[i].1
  }

  lemma {:induction false} RecordFromConsistent(table: JoinTable, acc: Accumulators, i: nat, state: string, fact: string, output: Value)
    requires i <= |table| && DistinctKeys(table) && Consistent(table, acc)
    ensures Consistent(table, RecordFrom(table, acc, i, state, fact, output).0)
    decreases |table| - i, 1
  {
    if i < |table| && state in table[i].1 {
      ListedConsistent(table, acc, i, state, fact, output);
    } else if i < |table| {
      assert RecordFrom(table, acc, i, state, fact, output) == RecordFrom(table, acc, i + 1, state, fact, output);
      RecordFromConsistent(table, acc, i + 1, state, fact, output);
    }
  }

  /** The step of `RecordFromConsistent` at a join that lists the state. */
  lemma {:induction false} ListedConsistent(table: JoinTable, acc: Accumulators, i: nat, state: string, fact: string, output: Value)
    requires i < |table| && DistinctKeys(table) && Consistent(table, acc) && state in table[i].1
    ensures Consistent(table, RecordFrom(table, acc, i, state, fact, output).0)
    decreases |table| - i, 0
  {
    var acc' := Record(acc, table[i].0, state, fact, output);
    RecordConsistent(table, acc, i, state, fact, output);
    var r := RecordFrom(table, acc, i, state, fact, output);
    if r.0 != acc' {
      assert r == RecordFrom(table, acc', i + 1, state, fact, output);
      RecordFromConsistent(table, acc', i + 1, state, fact, output);
    }
  }

  /** Recording a listed participant of the join at position `i` keeps every
      accumulator within its join's allOf. */
  lemma RecordConsistent(table: JoinTable, acc: Accumulators, i: nat, state: string, fact: string, output: Value)
    requires i < |table| && DistinctKeys(table) && Consistent(table, acc) && state in table[i].1
    ensures Consistent(table, Record(acc, table[i].0, state, fact, output))
  {
    var acc' := Record(acc, table[i].0, state, fact, output);
    forall k, p | 0 <= k < |table| && table[k].0 in acc' && p in acc'[table[k].0]
      ensures p in table[k].1
    {
      if k != i {
        assert table[k].0 != table[i].0;
        assert acc'[table[k].0] == acc[table[k].0];
      }
    }
  }

  /** A join whose allOf lists some participant twice can never be returned: its
      accumulator holds at most the distinct names, fewer than the list's length. */
  lemma DuplicatesNeverFire(t: Tracker, k: nat, state: string, fact: string, output: Value)
    requires DistinctKeys(t.table) && Consistent(t.table, t.acc)
    requires k < |t.table| && !Distinct(t.table[k].1)
    ensures RecordFact(t, state, fact, output).1 != Some(t.table[k].0)
    ensures Consistent(t.table, RecordFact(t, state, fact, output).0.acc)
  {
    var r := RecordFact(t, state, fact, output);
    RecordFactSpec(t, state, fact, output);
    RecordFromConsistent(t.table, t.acc, 0, state, fact, output);
    var join := t.table[k].0;
    if r.1 == Some(join) {
      var k' :| 0 <= k' < |t.table| && t.table[k'].0 == join && state in t.table[k'].1
                && Ready(AccOf(r.0.acc, join), t.table[k'].1);
      assert k' == k;
      var results := AccOf(r.0.acc, join);
      assert results.Keys <= Elems(t.table[k].1);
      SubsetCard(results.Keys, Elems(t.table[k].1));
      DuplicateCard(t.table[k].1);
      assert false;
    }
  }

  /** When `RecordFact` returns the join at position `k`, the joins after it in the
      table never see this fact. */
  lemma FirstReadyStops(t: Tracker, k: nat, state: string, fact: string, output: Value)
    requires DistinctKeys(t.table) && k < |t.table|
    requires RecordFact(t, state, fact, output).1 == Some(t.table[k].0)
    ensures forall i :: k < i < |t.table| ==>
      AccOf(RecordFact(t, state, fact, output).0.acc, t.table[i].0) == AccOf(t.acc, t.table[i].0)
  {
    RecordFromStops(t.table, t.acc, 0, k, state, fact, output);
  }

  lemma {:induction false} RecordFromStops(table: JoinTable, acc: Accumulators, from: nat, k: nat,
                                           state: string, fact: string, output: Value)
    requires DistinctKeys(table) && from <= k < |table|
    requires RecordFrom(table, acc, from, state, fact, output).1 == Some(table[k].0)
    ensures forall i :: k < i < |table| ==>
      AccOf(RecordFrom(table, acc, from, state, fact, output).0, table[i].0) == AccOf(acc, table[i].0)
    decreases |table| - from
  {
    var join := table[from].0;
    if state !in table[from].1 {
      LaterReturnIsLater(table, acc, from, k, state, fact, output);
      RecordFromStops(table, acc, from + 1, k, state, fact, output);
    } else {
      var acc' := Record(acc, join, state, fact, output);
      assert forall i :: from < i < |table| ==> AccOf(acc', table[i].0) == AccOf(acc, table[i].0) by {
        forall i | from < i < |table| ensures AccOf(acc', table[i].0) == AccOf(acc, table[i].0) {
          assert table[i].0 != join;
        }
      }
      if (fact == Fsm.FAILED || fact == Fsm.CANCELLED) || !Ready(acc'[join], table[from].1) {
        LaterReturnIsLater(table, acc', from, k, state, fact, output);
        RecordFromStops(table, acc', from + 1, k, state, fact, output);
      } else {
        assert from == k;
      }
    }
  }

  /** A join returned by the scan from `from + 1` sits after `from`. */
  lemma LaterReturnIsLater(table: JoinTable, acc: Accumulators, from: nat, k: nat,
                           state: string, fact: string, output: Value)
    requires DistinctKeys(table) && from <= k < |table|
    requires RecordFrom(table, acc, from + 1, state, fact, output).1 == Some(table[k].0)
    ensures from < k
  {
    RecordFromReturned(table, acc, from + 1, state, fact, output);
  }

  /** Records Completed with output `v` for each name in turn. */
  function RecordAllCompleted(t: Tracker, states: seq<string>, v: Value): Tracker
    decreases |states|
  {
    if states == [] then t
    else RecordFact(RecordAllCompleted(t, states[..|states| - 1], v), states[|states| - 1], Fsm.COMPLETED, v).0
  }

  /** The accumulator a single join holds after its first `k` participants completed. */
  function CompletedPrefix(allOf: seq<string>, k: nat, v: Value): map<string, StateResult>
    requires k <= |allOf|
  {
    map p | p in allOf[..k] :: StateResult(Fsm.COMPLETED, v)
  }

  /** The accumulator of a one-join table after the first `k` names of `order`
      completed. */
  lemma {:induction false} PrefixState(join: string, allOf: seq<string>, order: seq<string>, k: nat, v: Value)
    requires Distinct(order) && k < |order| && forall x :: x in order ==> x in allOf
    ensures var t := RecordAllCompleted(NewTracker([(join, allOf)]), order[..k], v);
      t.table == [(join, allOf)]
      && t.acc == (if k == 0 then map[] else map[join := CompletedPrefix(order, k, v)])
  {
    if k > 0 {
      PrefixState(join, allOf, order, k - 1, v);
      assert order[..k][..k - 1] == order[..k - 1];
      var t := RecordAllCompleted(NewTracker([(join, allOf)]), order[..k - 1], v);
      NthStep(join, allOf, order, k - 1, v, t);
    }
  }

  lemma NthStep(join: string, allOf: seq<string>, order: seq<string>, k: nat, v: Value, t: Tracker)
    requires Distinct(order) && k < |order| && order[k] in allOf
    requires t.table == [(join, allOf)]
    requires t.acc == (if k == 0 then map[] else map[join := CompletedPrefix(order, k, v)])
    ensures var r := RecordFact(t, order[k], Fsm.COMPLETED, v);
      r.0.acc == map[join := CompletedPrefix(order, k + 1, v)]
      && r.1 == (if k + 1 == |allOf| then Some(join) else None)
  {
    var state := order[k];
    PrefixGrows(order, k, v);
    assert AccOf(t.acc, join) == CompletedPrefix(order, k, v);
    SingleJoinStep(join, allOf, t.acc, state, v);
  }

  /** One more completed participant extends the prefix accumulator by one entry. */
  lemma PrefixGrows(order: seq<string>, k: nat, v: Value)
    requires Distinct(order) && k < |order|
    ensures CompletedPrefix(order, k, v)[order[k] := StateResult(Fsm.COMPLETED, v)] == CompletedPrefix(order, k + 1, v)
    ensures |CompletedPrefix(order, k + 1, v)| == k + 1
  {
    assert order[..k + 1] == order[..k] + [order[k]];
    var results := CompletedPrefix(order, k + 1, v);
    assert results.Keys == Elems(order[..k + 1]);
    DistinctCard(order[..k + 1]);
  }

  /** A Completed fact on a one-join table: the participant is recorded, and the
      join is returned exactly when the accumulator became ready. */
  lemma SingleJoinStep(join: string, allOf: seq<string>, acc: Accumulators, state: string, v: Value)
    requires state in allOf
    ensures var acc' := Record(acc, join, state, Fsm.COMPLETED, v);
      RecordFact(Tracker([(join, allOf)], acc), state, Fsm.COMPLETED, v)
        == (Tracker([(join, allOf)], acc'), if Ready(acc'[join], allOf) then Some(join) else None)
  {
    var table := [(join, allOf)];
    var acc' := Record(acc, join, state, Fsm.COMPLETED, v);
    assert Fsm.COMPLETED != Fsm.FAILED && Fsm.COMPLETED != Fsm.CANCELLED;
    assert RecordFrom(table, acc', 1, state, Fsm.COMPLETED, v) == (acc', None);
  }

  /** With N distinct participants each completing once, in any order, the join
      is returned by the N-th call and by no earlier one. */
  lemma NthCallFires(join: string, allOf: seq<string>, order: seq<string>, k: nat, v: Value)
    requires Distinct(allOf) && multiset(order) == multiset(allOf) && k < |order|
    ensures var t := RecordAllCompleted(NewTracker([(join, allOf)]), order[..k], v);
      RecordFact(t, order[k], Fsm.COMPLETED, v).1 == (if k == |allOf| - 1 then Some(join) else None)
  {
    PermutationDistinct(allOf, order);
    assert forall x :: x in order ==> x in allOf by {
      forall x | x in order ensures x in allOf {
        assert x in multiset(order);
      }
    }
    PrefixState(join, allOf, order, k, v);
    var t := RecordAllCompleted(NewTracker([(join, allOf)]), order[..k], v);
    NthStep(join, allOf, order, k, v, t);
  }

  /** A reordering of a duplicate-free list is duplicate-free. */
  lemma PermutationDistinct(s: seq<string>, t: seq<string>)
    requires Distinct(s) && multiset(t) == multiset(s)
    ensures Distinct(t) && |t| == |s|
  {
    assert |t| == |multiset(t)| == |multiset(s)| == |s|;
    assert Elems(t) == Elems(s) by {
      forall x ensures x in t <==> x in s {
        assert x in t <==> x in multiset(t);
        assert x in s <==> x in multiset(s);
      }
    }
    DistinctCard(s);
    if !Distinct(t) {
      DuplicateCard(t);
    }
  }

  /** Accumulators are never cleared: once a single join is ready, a participant that
      records Completed again makes the same call return the join again. */
  lemma RefiresAfterFired(join: string, allOf: seq<string>, acc: Accumulators, p: string, v: Value)
    requires join in acc && Ready(acc[join], allOf) && p in acc[join] && p in allOf
    ensures RecordFact(Tracker([(join, allOf)], acc), p, Fsm.COMPLETED, v).1 == Some(join)
  {
    var results := acc[join][p := StateResult(Fsm.COMPLETED, v)];
    assert results.Keys == acc[join].Keys;
    assert |results| == |acc[join]|;
  }
}
