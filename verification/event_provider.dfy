/** One-shot wait/resume signalling of one workflow instance
    (src/Statevia.Core/Engine/EventProvider.cs). Each waiter is a task completion
    source, identified here by an id the caller supplies; the lock is not modelled. */
module Events {

  type WaiterId = nat

  /** The state of one waiter's task: still pending, resumed by a publish, or
      cancelled by its token. */
  datatype WaiterStatus = Pending | Resolved | Cancelled

  /** `waiters`: event name -> waiters registered since that name's last publish, in
      registration order. `status`: every waiter ever registered. */
  datatype Provider = Provider(waiters: map<string, seq<WaiterId>>, status: map<WaiterId, WaiterStatus>)

  /** Every listed waiter is known. */
  predicate Valid(p: Provider) {
    forall name, i :: name in p.waiters && 0 <= i < |p.waiters[name]| ==> p.waiters[name][i] in p.status
  }

  function NewProvider(): (p: Provider)
    ensures Valid(p) && p.waiters == map[] && p.status == map[]
  {
    Provider(map[], map[])
  }

  function ListOf(p: Provider, name: string): seq<WaiterId> {
    if name in p.waiters then p.waiters[name] else []
  }

  /** `WaitAsync`: registers a new pending waiter at the end of the event's list. */
  function Wait(p: Provider, name: string, id: WaiterId): (r: Provider)
    requires id !in p.status
    ensures Valid(p) ==> Valid(r)
    ensures name in r.waiters && r.waiters[name] == ListOf(p, name) + [id]
    ensures forall n :: n != name ==> (n in r.waiters <==> n in p.waiters) && ListOf(r, n) == ListOf(p, n)
    ensures r.status.Keys == p.status.Keys + {id} && r.status[id] == Pending
    ensures forall w :: w in p.status ==> r.status[w] == p.status[w]
  {
    Provider(p.waiters[name := ListOf(p, name) + [id]], p.status[id := Pending])
  }

  /** The cancellation callback `TrySetCanceled`: a pending waiter becomes cancelled;
      a resolved or cancelled one, or an unknown id, is left alone. The waiter stays
      in its event's list. */
  function CancelWaiter(p: Provider, id: WaiterId): (r: Provider)
    ensures r.waiters == p.waiters
    ensures Valid(p) ==> Valid(r)
    ensures r.status.Keys == p.status.Keys
    ensures id in p.status && p.status[id] == Pending ==> r.status[id] == Cancelled
    ensures id in p.status && p.status[id] != Pending ==> r.status[id] == p.status[id]
    ensures forall w :: w in p.status && w != id ==> r.status[w] == p.status[w]
  {
    if id in p.status && p.status[id] == Pending then Provider(p.waiters, p.status[id := Cancelled])
    else p
  }

  /** `TrySetResult` on each listed waiter: pending ones become resolved. */
  function ResolveAll(status: map<WaiterId, WaiterStatus>, ids: seq<WaiterId>): (r: map<WaiterId, WaiterStatus>)
    ensures r.Keys == status.Keys + (set i | i in ids)
    ensures forall w :: w in status && w !in ids ==> r[w] == status[w]
    ensures forall w :: w in status && status[w] != Pending ==> r[w] == status[w]
    ensures forall w :: w in status && w in ids && status[w] == Pending ==> r[w] == Resolved
    decreases |ids|
  {
    if ids == [] then status
    else
      var id := ids[0];
      var s' := if id in status && status[id] == Pending then status[id := Resolved]
                else if id !in status then status[id := Resolved]
                else status;
      ResolveAll(s', ids[1..])
  }

  /** `Publish`: resolves every pending waiter in the event's list, then drops the
      list. With no list it does nothing, so it is not remembered for later waiters. */
  function Publish(p: Provider, name: string): (r: Provider)
    requires Valid(p)
    ensures Valid(r)
    ensures name !in r.waiters
    ensures forall n :: n != name ==> (n in r.waiters <==> n in p.waiters) && ListOf(r, n) == ListOf(p, n)
    ensures r.status.Keys == p.status.Keys
    ensures name !in p.waiters ==> r == p
    ensures forall w :: w in p.status && p.status[w] == Pending && w in ListOf(p, name) ==> r.status[w] == Resolved
    ensures forall w :: w in p.status && w !in ListOf(p, name) ==> r.status[w] == p.status[w]
    ensures forall w :: w in p.status && p.status[w] != Pending ==> r.status[w] == p.status[w]
  {
    if name !in p.waiters then p
    else
      var list := p.waiters[name];
      assert forall i :: 0 <= i < |list| ==> list[i] in p.status;
      Provider(p.waiters - {name}, ResolveAll(p.status, list))
  }

  // ---------------------------------------------------------------------------
  // Properties relating several calls

  /** A wait registered before a publish of the same name is resolved by it. */
  lemma WaitThenPublishResolves(p: Provider, name: string, id: WaiterId)
    requires Valid(p) && id !in p.status
    ensures Publish(Wait(p, name, id), name).status[id] == Resolved
  {
    var q := Wait(p, name, id);
    assert id in ListOf(q, name);
  }

  /** Publishing a name nobody waits on is not remembered: a waiter registered
      afterwards is still pending. */
  lemma PublishBeforeWaitMisses(p: Provider, name: string, id: WaiterId)
    requires Valid(p) && name !in p.waiters && id !in p.status
    ensures Wait(Publish(p, name), name, id).status[id] == Pending
  {
  }

  /** One-shot: a cancelled waiter stays listed until the next publish, and that
      publish does not turn it into a resolved one. */
  lemma CancelThenPublish(p: Provider, name: string, id: WaiterId)
    requires Valid(p) && id !in p.status
    ensures var c := CancelWaiter(Wait(p, name, id), id);
      c.status[id] == Cancelled && id in ListOf(c, name)
      && Publish(c, name).status[id] == Cancelled
  {
  }

  /** Publishing one name never changes a waiter registered under another name. */
  lemma PublishIsolated(p: Provider, name: string, other: string, id: WaiterId)
    requires Valid(p) && other != name && id in ListOf(p, other) && id !in ListOf(p, name)
    requires id in p.status
    ensures Publish(p, name).status[id] == p.status[id]
    ensures ListOf(Publish(p, name), other) == ListOf(p, other)
  {
  }
}
