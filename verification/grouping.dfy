/** The fork/join group boxes of the graph view (services/ui/app/lib/grouping.ts):
    the fallback group cut from the node list by id, the groups inferred by a
    breadth-first walk from each fork, and the bounding box of each group. */
module Grouping {
  import opened Common
  import opened UiText
  import opened UiTypes
  import opened GraphTypes
  import opened GraphLayout

  // ---------------------------------------------------------------------------
  // buildGroups

  /** `ids.findIndex(id => id.includes(sub))`. */
  function FindIndex(ids: seq<string>, sub: string): (i: int)
    ensures -1 <= i < |ids|
    ensures i >= 0 ==> Contains(ids[i], sub)
    ensures forall j :: 0 <= j < |ids| && (i < 0 || j < i) ==> !Contains(ids[j], sub)
  {
    if ids == [] then -1
    else if Contains(ids[0], sub) then 0
    else
      var i := FindIndex(ids[1..], sub);
      if i < 0 then -1 else i + 1
  }

  function NodeIds(nodes: seq<ExecutionNodeDto>): (ids: seq<string>)
    ensures |ids| == |nodes|
    ensures forall i :: 0 <= i < |nodes| ==> ids[i] == nodes[i].nodeId
  {
    seq(|nodes|, i requires 0 <= i < |nodes| => nodes[i].nodeId)
  }

  const FALLBACK_GROUP := "fallback-fork-join"

  /** The groups and the node-to-group index. */
  datatype FallbackGroups = FallbackGroups(groups: seq<GraphGroupDef>, nodeToGroup: map<string, string>)

  /** `buildGroups`: the contiguous block of the node list from the first id
      containing "fork-" to the first id containing "join-", when the former
      comes strictly first. */
  function BuildGroups(nodes: seq<ExecutionNodeDto>): (r: FallbackGroups)
    ensures var ids := NodeIds(nodes);
            var f := FindIndex(ids, "fork-");
            var j := FindIndex(ids, "join-");
            && (r.groups == [] <==> f < 0 || j < 0 || f >= j)
            && (r.groups == [] ==> r.nodeToGroup == map[])
            && (r.groups != [] ==>
                  && |r.groups| == 1 && r.groups[0].groupId == FALLBACK_GROUP
                  && r.groups[0].nodeIds == ids[f..j + 1]
                  && (forall id :: id in r.nodeToGroup <==> id in r.groups[0].nodeIds)
                  && (forall id :: id in r.nodeToGroup ==> r.nodeToGroup[id] == FALLBACK_GROUP))
  {
    var ids := NodeIds(nodes);
    var f := FindIndex(ids, "fork-");
    var j := FindIndex(ids, "join-");
    if f < 0 || j < 0 || f >= j then FallbackGroups([], map[])
    else BlockGroup(ids[f..j + 1])
  }

  /** The one fallback group of a block, and every id of the block mapped to it. */
  function BlockGroup(block: seq<string>): (r: FallbackGroups)
    ensures r.groups == [GraphGroupDef(FALLBACK_GROUP, "Fork-Join Block", block)]
    ensures forall id :: id in r.nodeToGroup <==> id in block
    ensures forall id :: id in r.nodeToGroup ==> r.nodeToGroup[id] == FALLBACK_GROUP
  {
    FallbackGroups([GraphGroupDef(FALLBACK_GROUP, "Fork-Join Block", block)],
                   map id | id in block :: FALLBACK_GROUP)
  }

  /** A group is built exactly when some fork id precedes every join id and a
      join id follows it. */
  lemma BuildGroupsWhen(nodes: seq<ExecutionNodeDto>)
    ensures var ids := NodeIds(nodes);
            BuildGroups(nodes).groups != [] <==>
              exists a, b :: 0 <= a < b < |ids| && Contains(ids[a], "fork-") && Contains(ids[b], "join-")
                             && forall c :: 0 <= c <= a ==> !Contains(ids[c], "join-")
  {
    var ids := NodeIds(nodes);
    var f := FindIndex(ids, "fork-");
    var j := FindIndex(ids, "join-");
    if BuildGroups(nodes).groups != [] {
      assert 0 <= f < j < |ids| && Contains(ids[f], "fork-") && Contains(ids[j], "join-");
    }
  }

  /** The block starts at a fork id, ends at the first join id, and no fork
      id comes before it. */
  lemma BuildGroupsBlock(nodes: seq<ExecutionNodeDto>)
    requires BuildGroups(nodes).groups != []
    ensures var g := BuildGroups(nodes).groups[0].nodeIds;
            && |g| >= 2
            && Contains(g[0], "fork-") && Contains(g[|g| - 1], "join-")
            && forall i :: 0 <= i < |g| - 1 ==> !Contains(g[i], "join-")
  {
    var ids := NodeIds(nodes);
    var f := FindIndex(ids, "fork-");
    var j := FindIndex(ids, "join-");
    var g := ids[f..j + 1];
    assert forall i :: 0 <= i < |g| - 1 ==> g[i] == ids[f + i];
  }

  // ---------------------------------------------------------------------------
  // inferGroupsFromGraph

  predicate IsForkNode(n: PositionedNode) {
    Contains(n.nodeId, "fork-") || NormalizeType(n.nodeType) == "FORK"
  }

  predicate IsJoinNode(n: PositionedNode) {
    Contains(n.nodeId, "join-") || NormalizeType(n.nodeType) == "JOIN"
  }

  /** The fork nodes, in order. */
  function Forks(nodes: seq<PositionedNode>): (r: seq<PositionedNode>)
    ensures |r| <= |nodes|
    ensures forall i :: 0 <= i < |r| ==> IsForkNode(r[i]) && r[i] in nodes
  {
    if nodes == [] then []
    else (if IsForkNode(nodes[0]) then [nodes[0]] else []) + Forks(nodes[1..])
  }

  /** The ids of the join nodes. */
  function JoinIds(nodes: seq<PositionedNode>): (r: set<string>)
    ensures forall id :: id in r <==> exists i :: 0 <= i < |nodes| && IsJoinNode(nodes[i]) && nodes[i].nodeId == id
  {
    set i | 0 <= i < |nodes| && IsJoinNode(nodes[i]) :: nodes[i].nodeId
  }

  /** The keys of `nodeById`. */
  function IdSet(nodes: seq<PositionedNode>): (r: set<string>)
    ensures forall id :: id in r <==> exists i :: 0 <= i < |nodes| && nodes[i].nodeId == id
  {
    set i | 0 <= i < |nodes| :: nodes[i].nodeId
  }

  /** `outgoing.get(from) ?? []`: the targets of the edges leaving `from`, in
      edge order. */
  function Outgoing(edges: seq<LayoutEdge>, from: string): (r: seq<string>)
    ensures |r| <= |edges|
  {
    if edges == [] then []
    else (if edges[0].from == from then [edges[0].to] else []) + Outgoing(edges[1..], from)
  }

  /** A target is in `Outgoing` exactly when some edge leads there. */
  lemma {:induction false} OutgoingMembers(edges: seq<LayoutEdge>, from: string, t: string)
    ensures t in Outgoing(edges, from) <==> exists e :: e in edges && e.from == from && e.to == t
  {
    if edges != [] {
      OutgoingMembers(edges[1..], from, t);
      assert edges == [edges[0]] + edges[1..];
    }
  }

  /** The targets not yet visited, in order. */
  function NotVisited(next: seq<string>, visited: seq<string>): (r: seq<string>)
    ensures forall t :: t in r <==> t in next && t !in visited
  {
    if next == [] then []
    else (if next[0] !in visited then [next[0]] else []) + NotVisited(next[1..], visited)
  }

  /** The walk follows the edges out of the fork and out of every non-join node. */
  predicate Expanded(v: string, fork: string, joins: set<string>) {
    v == fork || v !in joins
  }

  /** Every node the walk expands has all its present, non-empty targets in `g`. */
  predicate Closed(g: seq<string>, fork: string, ids: set<string>, joins: set<string>, edges: seq<LayoutEdge>) {
    forall v :: v in g && Expanded(v, fork, joins) ==>
      forall t :: t in Outgoing(edges, v) && t != "" && t in ids ==> t in g
  }

  /** The walk moves from `u` to `t`: `u` is expanded and has an edge to `t`. */
  predicate Feeds(u: string, t: string, fork: string, joins: set<string>, edges: seq<LayoutEdge>) {
    Expanded(u, fork, joins) && t in Outgoing(edges, u)
  }

  /** The node at position `i` of `g` is fed by a node before it. */
  predicate ReachedAt(g: seq<string>, i: int, fork: string, joins: set<string>, edges: seq<LayoutEdge>)
    requires 0 <= i < |g|
  {
    exists j :: 0 <= j < i && Feeds(g[j], g[i], fork, joins, edges)
  }

  /** Every node of `g` after the fork is fed by a node that comes before it
      in `g`, so each is reached from the fork. */
  predicate Reached(g: seq<string>, fork: string, joins: set<string>, edges: seq<LayoutEdge>) {
    forall i :: 1 <= i < |g| ==> ReachedAt(g, i, fork, joins, edges)
  }

  /** The loop invariant of the walk: every target of an expanded visited
      node is visited or still queued. */
  predicate Pending(visited: seq<string>, queue: seq<string>, fork: string, ids: set<string>, joins: set<string>,
                    edges: seq<LayoutEdge>) {
    forall v :: v in visited && Expanded(v, fork, joins) ==>
      forall t :: t in Outgoing(edges, v) && t != "" && t in ids ==> t in visited || t in queue
  }

  lemma SkipKeepsPending(visited: seq<string>, queue: seq<string>, fork: string, ids: set<string>,
                         joins: set<string>, edges: seq<LayoutEdge>)
    requires queue != [] && Pending(visited, queue, fork, ids, joins, edges)
    requires queue[0] == "" || queue[0] in visited || queue[0] !in ids
    ensures Pending(visited, queue[1..], fork, ids, joins, edges)
  {
    forall v, t | v in visited && Expanded(v, fork, joins) && t in Outgoing(edges, v) && t != "" && t in ids
      ensures t in visited || t in queue[1..]
    {
      assert queue == [queue[0]] + queue[1..];
    }
  }

  lemma VisitKeepsPending(visited: seq<string>, queue: seq<string>, fork: string, ids: set<string>,
                          joins: set<string>, edges: seq<LayoutEdge>, extra: seq<string>)
    requires queue != [] && Pending(visited, queue, fork, ids, joins, edges)
    requires visited != [] && visited[0] == fork && queue[0] !in visited
    requires queue[0] in joins ==> extra == []
    requires queue[0] !in joins ==> extra == NotVisited(Outgoing(edges, queue[0]), visited + [queue[0]])
    ensures Pending(visited + [queue[0]], queue[1..] + extra, fork, ids, joins, edges)
  {
    var c := queue[0];
    var v' := visited + [c];
    forall v, t | v in v' && Expanded(v, fork, joins) && t in Outgoing(edges, v) && t != "" && t in ids
      ensures t in v' || t in queue[1..] + extra
    {
      assert queue == [c] + queue[1..];
      if v == c {
        assert c !in joins;
      } else {
        assert v in visited;
      }
    }
  }

  lemma ReachedGrows(visited: seq<string>, c: string, fork: string, joins: set<string>, edges: seq<LayoutEdge>)
    requires Reached(visited, fork, joins, edges)
    requires FromVisited(c, visited, fork, joins, edges)
    ensures Reached(visited + [c], fork, joins, edges)
  {
    var g := visited + [c];
    forall i | 1 <= i < |g|
      ensures ReachedAt(g, i, fork, joins, edges)
    {
      if i < |visited| {
        assert ReachedAt(visited, i, fork, joins, edges);
        var j :| 0 <= j < i && Feeds(visited[j], visited[i], fork, joins, edges);
        assert g[j] == visited[j] && g[i] == visited[i];
      } else {
        var u :| u in visited && Feeds(u, c, fork, joins, edges);
        var j :| 0 <= j < |visited| && visited[j] == u;
        assert g[j] == u && g[i] == c;
      }
    }
  }

  lemma AddOneCard(all: set<string>, v: seq<string>, c: string)
    requires c in all && c !in v
    ensures |all - Elems(v + [c])| < |all - Elems(v)|
  {
    assert all - Elems(v + [c]) == (all - Elems(v)) - {c};
    assert c in all - Elems(v);
  }

  /** `t` is a target of an expanded node of `visited`. */
  predicate FromVisited(t: string, visited: seq<string>, fork: string, joins: set<string>, edges: seq<LayoutEdge>) {
    exists u :: u in visited && Feeds(u, t, fork, joins, edges)
  }

  /** Everything queued was reached from a visited, expanded node. */
  predicate Queued(queue: seq<string>, visited: seq<string>, fork: string, joins: set<string>, edges: seq<LayoutEdge>) {
    forall k :: 0 <= k < |queue| ==> FromVisited(queue[k], visited, fork, joins, edges)
  }

  /** The shape of the visited list: the fork first, then distinct, non-empty,
      present ids. */
  predicate WalkShape(visited: seq<string>, fork: string, ids: set<string>) {
    && |visited| >= 1 && visited[0] == fork
    && Distinct(visited)
    && forall i :: 1 <= i < |visited| ==> visited[i] in ids && visited[i] != ""
  }

  lemma ShapeGrows(visited: seq<string>, fork: string, ids: set<string>, c: string)
    requires WalkShape(visited, fork, ids)
    requires c !in visited && c in ids && c != ""
    ensures WalkShape(visited + [c], fork, ids)
  {
    var g := visited + [c];
    forall i, j | 0 <= i < j < |g| ensures g[i] != g[j] {
      if j == |visited| {
        assert g[i] in visited;
      }
    }
  }

  lemma QueuedVisit(queue: seq<string>, visited: seq<string>, fork: string, joins: set<string>,
                    edges: seq<LayoutEdge>, extra: seq<string>)
    requires queue != [] && Queued(queue, visited, fork, joins, edges)
    requires queue[0] in joins ==> extra == []
    requires queue[0] !in joins ==> extra == NotVisited(Outgoing(edges, queue[0]), visited + [queue[0]])
    ensures Queued(queue[1..] + extra, visited + [queue[0]], fork, joins, edges)
  {
    var c := queue[0];
    var g := visited + [c];
    var q := queue[1..] + extra;
    forall k | 0 <= k < |q| ensures FromVisited(q[k], g, fork, joins, edges) {
      if k < |queue| - 1 {
        assert q[k] == queue[k + 1];
        var u :| u in visited && Feeds(u, q[k], fork, joins, edges);
        assert u in g;
      } else {
        assert q[k] in extra;
        assert c in g && Feeds(c, q[k], fork, joins, edges);
      }
    }
  }

  /** The breadth-first walk of one fork from a given visited list and queue:
      the visited ids in insertion order once the queue runs dry. */
  function WalkFrom(visited: seq<string>, queue: seq<string>, fork: string, ids: set<string>, joins: set<string>,
                    edges: seq<LayoutEdge>): (r: seq<string>)
    requires WalkShape(visited, fork, ids)
    requires Pending(visited, queue, fork, ids, joins, edges)
    requires Queued(queue, visited, fork, joins, edges)
    requires Reached(visited, fork, joins, edges)
    ensures WalkShape(r, fork, ids)
    ensures Closed(r, fork, ids, joins, edges)
    ensures Reached(r, fork, joins, edges)
    decreases |(ids + {fork}) - Elems(visited)|, |queue|
  {
    if queue == [] then visited
    else
      var current := queue[0];
      if current == "" || current in visited || current !in ids then
        SkipKeepsPending(visited, queue, fork, ids, joins, edges);
        WalkFrom(visited, queue[1..], fork, ids, joins, edges)
      else
        var extra := if current in joins then [] else NotVisited(Outgoing(edges, current), visited + [current]);
        AddOneCard(ids + {fork}, visited, current);
        assert FromVisited(current, visited, fork, joins, edges);
        VisitKeepsPending(visited, queue, fork, ids, joins, edges, extra);
        QueuedVisit(queue, visited, fork, joins, edges, extra);
        ShapeGrows(visited, fork, ids, current);
        ReachedGrows(visited, current, fork, joins, edges);
        WalkFrom(visited + [current], queue[1..] + extra, fork, ids, joins, edges)
  }

  /** The walk of one fork: it starts with the fork, holds every present,
      non-empty id an expanded node of it leads to, and reaches each of its
      ids from an earlier expanded one. */
  function Walk(fork: string, ids: set<string>, joins: set<string>, edges: seq<LayoutEdge>): (r: seq<string>)
    ensures WalkShape(r, fork, ids)
    ensures Closed(r, fork, ids, joins, edges)
    ensures Reached(r, fork, joins, edges)
  {
    var queue := Outgoing(edges, fork);
    assert Queued(queue, [fork], fork, joins, edges) by {
      forall k | 0 <= k < |queue| ensures FromVisited(queue[k], [fork], fork, joins, edges) {
        assert fork in [fork] && Feeds(fork, queue[k], fork, joins, edges);
      }
    }
    WalkFrom([fork], queue, fork, ids, joins, edges)
  }

  /** The visited ids that are keys of `nodeById`. */
  function PresentIds(visited: seq<string>, ids: set<string>): (r: seq<string>)
    ensures |r| <= |visited|
    ensures (forall i :: 0 <= i < |visited| ==> visited[i] in ids) ==> r == visited
  {
    if visited == [] then [] else (if visited[0] in ids then [visited[0]] else []) + PresentIds(visited[1..], ids)
  }

  const PARALLEL_LABEL := "Parallel Block"

  /** What an inferred group is: at least three present ids, its fork first,
      closed under the walk and reached by it, numbered after its fork. */
  predicate InferredGroup(g: GraphGroupDef, nodes: seq<PositionedNode>, edges: seq<LayoutEdge>) {
    && |g.nodeIds| >= 3 && g.labelText == PARALLEL_LABEL
    && g.nodeIds[0] in IdSet(nodes)
    && WalkShape(g.nodeIds, g.nodeIds[0], IdSet(nodes))
    && Closed(g.nodeIds, g.nodeIds[0], IdSet(nodes), JoinIds(nodes), edges)
    && Reached(g.nodeIds, g.nodeIds[0], JoinIds(nodes), edges)
    && exists k :: 0 <= k < |Forks(nodes)| && Forks(nodes)[k].nodeId == g.nodeIds[0]
                   && g.groupId == "inferred-parallel-" + NatToString(k + 1)
  }

  /** The group fork number `k` (counting from 0) gives: its walk's present
      ids, when there are at least three. */
  function ForkGroup(fork: string, k: nat, ids: set<string>, joins: set<string>, edges: seq<LayoutEdge>): Option<GraphGroupDef> {
    var groupNodes := PresentIds(Walk(fork, ids, joins, edges), ids);
    if |groupNodes| >= 3 then Some(GraphGroupDef("inferred-parallel-" + NatToString(k + 1), PARALLEL_LABEL, groupNodes))
    else None
  }

  /** Each group a fork gives is an inferred group of the graph. */
  lemma ForkGroupInferred(nodes: seq<PositionedNode>, edges: seq<LayoutEdge>, k: nat)
    requires k < |Forks(nodes)|
    requires ForkGroup(Forks(nodes)[k].nodeId, k, IdSet(nodes), JoinIds(nodes), edges).Some?
    ensures InferredGroup(ForkGroup(Forks(nodes)[k].nodeId, k, IdSet(nodes), JoinIds(nodes), edges).value, nodes, edges)
  {
    var fork := Forks(nodes)[k].nodeId;
    var ids := IdSet(nodes);
    assert fork in ids by {
      var i :| 0 <= i < |nodes| && nodes[i] == Forks(nodes)[k];
    }
    var visited := Walk(fork, ids, JoinIds(nodes), edges);
    assert PresentIds(visited, ids) == visited;
  }

  /** The groups of the forks from position `k` on, in fork order. */
  function GroupsFrom(forks: seq<PositionedNode>, k: nat, ids: set<string>, joins: set<string>,
                      edges: seq<LayoutEdge>): (r: seq<GraphGroupDef>)
    ensures |r| <= if k < |forks| then |forks| - k else 0
    decreases |forks| - k
  {
    if k >= |forks| then []
    else
      (match ForkGroup(forks[k].nodeId, k, ids, joins, edges) case Some(g) => [g] case None => [])
      + GroupsFrom(forks, k + 1, ids, joins, edges)
  }

  lemma GroupsFromStep(forks: seq<PositionedNode>, k: nat, ids: set<string>, joins: set<string>,
                       edges: seq<LayoutEdge>, done: seq<GraphGroupDef>)
    requires k < |forks|
    ensures var group := ForkGroup(forks[k].nodeId, k, ids, joins, edges);
      done + GroupsFrom(forks, k, ids, joins, edges)
      == (if group.Some? then done + [group.value] else done) + GroupsFrom(forks, k + 1, ids, joins, edges)
  {
    var group := ForkGroup(forks[k].nodeId, k, ids, joins, edges);
    if group.Some? {
      assert GroupsFrom(forks, k, ids, joins, edges) == [group.value] + GroupsFrom(forks, k + 1, ids, joins, edges);
    }
  }

  /** `inferGroupsFromGraph`: one walk per fork node, in fork order; walks that
      gather fewer than three nodes give no group. */
  method InferGroupsFromGraph(nodes: seq<PositionedNode>, edges: seq<LayoutEdge>) returns (groups: seq<GraphGroupDef>)
    ensures Forks(nodes) == [] || JoinIds(nodes) == {} ==> groups == []
    ensures Forks(nodes) != [] && JoinIds(nodes) != {} ==>
              groups == GroupsFrom(Forks(nodes), 0, IdSet(nodes), JoinIds(nodes), edges)
    ensures |groups| <= |Forks(nodes)|
    ensures forall i :: 0 <= i < |groups| ==> InferredGroup(groups[i], nodes, edges)
    ensures DistinctGroupIds(groups)
  {
    var forks := Forks(nodes);
    var joins := JoinIds(nodes);
    if |forks| == 0 || joins == {} {
      return [];
    }
    var ids := IdSet(nodes);
    groups := [];
    var k := 0;
    while k < |forks|
      invariant 0 <= k <= |forks|
      invariant groups + GroupsFrom(forks, k, ids, joins, edges) == GroupsFrom(forks, 0, ids, joins, edges)
    {
      var group := ForkGroup(forks[k].nodeId, k, ids, joins, edges);
      GroupsFromStep(forks, k, ids, joins, edges, groups);
      if group.Some? {
        groups := groups + [group.value];
      }
      k := k + 1;
    }
    GroupsFromInferred(nodes, edges, 0);
    GroupIdsDistinct(forks, 0, ids, joins, edges);
  }

  /** Every group `GroupsFrom` gives is an inferred group of the graph. */
  lemma GroupsFromInferred(nodes: seq<PositionedNode>, edges: seq<LayoutEdge>, k0: nat)
    ensures forall g :: g in GroupsFrom(Forks(nodes), k0, IdSet(nodes), JoinIds(nodes), edges) ==> InferredGroup(g, nodes, edges)
  {
    var forks := Forks(nodes);
    GroupsFromNumbered(forks, k0, IdSet(nodes), JoinIds(nodes), edges);
    forall g | g in GroupsFrom(forks, k0, IdSet(nodes), JoinIds(nodes), edges) ensures InferredGroup(g, nodes, edges) {
      var k :| k0 <= k < |forks| && ForkGroup(forks[k].nodeId, k, IdSet(nodes), JoinIds(nodes), edges) == Some(g);
      ForkGroupInferred(nodes, edges, k);
    }
  }

  /** A fork gives a group exactly when its walk gathers at least three present
      ids; that group holds those ids and is numbered after the fork. */
  lemma {:induction false} GroupsFromMembers(forks: seq<PositionedNode>, k0: nat, ids: set<string>, joins: set<string>,
                                             edges: seq<LayoutEdge>, k: nat)
    requires k0 <= k < |forks|
    ensures var walk := PresentIds(Walk(forks[k].nodeId, ids, joins, edges), ids);
      |walk| >= 3 <==>
        exists g :: g in GroupsFrom(forks, k0, ids, joins, edges)
                    && g.groupId == "inferred-parallel-" + NatToString(k + 1)
    ensures var walk := PresentIds(Walk(forks[k].nodeId, ids, joins, edges), ids);
      forall g :: g in GroupsFrom(forks, k0, ids, joins, edges) && g.groupId == "inferred-parallel-" + NatToString(k + 1)
        ==> g.nodeIds == walk && g.labelText == PARALLEL_LABEL
    decreases |forks| - k0
  {
    GroupsFromNumbered(forks, k0, ids, joins, edges);
    var walk := PresentIds(Walk(forks[k].nodeId, ids, joins, edges), ids);
    var gs := GroupsFrom(forks, k0, ids, joins, edges);
    var name := "inferred-parallel-" + NatToString(k + 1);
    forall g | g in gs && g.groupId == name ensures ForkGroup(forks[k].nodeId, k, ids, joins, edges).Some?
                                                  && g == ForkGroup(forks[k].nodeId, k, ids, joins, edges).value {
      var k' :| k0 <= k' < |forks| && ForkGroup(forks[k'].nodeId, k', ids, joins, edges) == Some(g);
      GroupNameInjective(k, k');
    }
    if |walk| >= 3 {
      GroupsFromHas(forks, k0, ids, joins, edges, k);
    }
  }

  /** Every group in `GroupsFrom(forks, k0, ...)` is the group of some fork at
      or after `k0`. */
  lemma {:induction false} GroupsFromNumbered(forks: seq<PositionedNode>, k0: nat, ids: set<string>, joins: set<string>,
                                              edges: seq<LayoutEdge>)
    ensures forall g :: g in GroupsFrom(forks, k0, ids, joins, edges) ==>
              exists k :: k0 <= k < |forks| && ForkGroup(forks[k].nodeId, k, ids, joins, edges) == Some(g)
    decreases |forks| - k0
  {
    if k0 < |forks| {
      GroupsFromNumbered(forks, k0 + 1, ids, joins, edges);
    }
  }

  /** A fork whose walk gathers three present ids has its group in `GroupsFrom`. */
  lemma {:induction false} GroupsFromHas(forks: seq<PositionedNode>, k0: nat, ids: set<string>, joins: set<string>,
                                         edges: seq<LayoutEdge>, k: nat)
    requires k0 <= k < |forks| && ForkGroup(forks[k].nodeId, k, ids, joins, edges).Some?
    ensures ForkGroup(forks[k].nodeId, k, ids, joins, edges).value in GroupsFrom(forks, k0, ids, joins, edges)
    decreases k - k0
  {
    if k0 < k {
      GroupsFromHas(forks, k0 + 1, ids, joins, edges, k);
    }
  }

  lemma GroupNameInjective(k: nat, k': nat)
    ensures "inferred-parallel-" + NatToString(k + 1) == "inferred-parallel-" + NatToString(k' + 1) ==> k == k'
  {
    var p := "inferred-parallel-";
    if p + NatToString(k + 1) == p + NatToString(k' + 1) {
      assert NatToString(k + 1) == (p + NatToString(k + 1))[|p|..];
      assert NatToString(k' + 1) == (p + NatToString(k' + 1))[|p|..];
      NatToStringInjective(k + 1, k' + 1);
    }
  }

  /** The groups of later forks never take fork `k0`'s id. */
  lemma LaterGroupIds(forks: seq<PositionedNode>, k0: nat, ids: set<string>, joins: set<string>, edges: seq<LayoutEdge>)
    ensures forall g :: g in GroupsFrom(forks, k0 + 1, ids, joins, edges) ==>
              g.groupId != "inferred-parallel-" + NatToString(k0 + 1)
  {
    GroupsFromNumbered(forks, k0 + 1, ids, joins, edges);
    forall g | g in GroupsFrom(forks, k0 + 1, ids, joins, edges)
      ensures g.groupId != "inferred-parallel-" + NatToString(k0 + 1)
    {
      var k :| k0 + 1 <= k < |forks| && ForkGroup(forks[k].nodeId, k, ids, joins, edges) == Some(g);
      GroupNameInjective(k0, k);
    }
  }

  /** No two groups of `gs` share an id. */
  predicate DistinctGroupIds(gs: seq<GraphGroupDef>) {
    forall i, j :: 0 <= i < j < |gs| ==> gs[i].groupId != gs[j].groupId
  }

  lemma ConsDistinctGroupIds(h: GraphGroupDef, rest: seq<GraphGroupDef>)
    requires DistinctGroupIds(rest)
    requires forall g :: g in rest ==> g.groupId != h.groupId
    ensures DistinctGroupIds([h] + rest)
  {
    var gs := [h] + rest;
    forall i, j | 0 <= i < j < |gs| ensures gs[i].groupId != gs[j].groupId {
      assert gs[j] == rest[j - 1];
      if i > 0 {
        assert gs[i] == rest[i - 1];
      }
    }
  }

  /** No two inferred groups share an id: each fork gives at most one group. */
  lemma {:induction false} GroupIdsDistinct(forks: seq<PositionedNode>, k0: nat, ids: set<string>, joins: set<string>,
                                            edges: seq<LayoutEdge>)
    ensures DistinctGroupIds(GroupsFrom(forks, k0, ids, joins, edges))
    decreases |forks| - k0
  {
    if k0 < |forks| {
      GroupIdsDistinct(forks, k0 + 1, ids, joins, edges);
      var rest := GroupsFrom(forks, k0 + 1, ids, joins, edges);
      var head := ForkGroup(forks[k0].nodeId, k0, ids, joins, edges);
      if head.Some? {
        LaterGroupIds(forks, k0, ids, joins, edges);
        ConsDistinctGroupIds(head.value, rest);
        assert GroupsFrom(forks, k0, ids, joins, edges) == [head.value] + rest;
      } else {
        assert GroupsFrom(forks, k0, ids, joins, edges) == rest;
      }
    }
  }

  // ---------------------------------------------------------------------------
  // resolveGroupBounds

  datatype GroupBounds = GroupBounds(groupId: string, labelText: string, nodeIds: seq<string>,
                                     x: int, y: int, w: int, h: int)

  /** `byId.get(id)`: the map is built from the list, so the last node with
      that id wins. */
  function LastById(nodes: seq<PositionedNode>, id: string): (r: Option<PositionedNode>)
    ensures r.Some? <==> exists i :: 0 <= i < |nodes| && nodes[i].nodeId == id
    ensures r.Some? ==> exists i :: 0 <= i < |nodes| && nodes[i] == r.value && r.value.nodeId == id
                                    && forall j :: i < j < |nodes| ==> nodes[j].nodeId != id
  {
    var i := LastIndexOfId(nodes, id);
    if i < 0 then None else Some(nodes[i])
  }

  /** The position of the last node with that id, or -1. */
  function LastIndexOfId(nodes: seq<PositionedNode>, id: string): (i: int)
    ensures -1 <= i < |nodes|
    ensures 0 <= i ==> nodes[i].nodeId == id
    ensures forall j :: i < j < |nodes| ==> nodes[j].nodeId != id
  {
    if nodes == [] then -1
    else if nodes[|nodes| - 1].nodeId == id then |nodes| - 1
    else LastIndexOfId(nodes[..|nodes| - 1], id)
  }

  /** The positioned members of a group, in the group's order. */
  function Members(ids: seq<string>, nodes: seq<PositionedNode>): (m: seq<PositionedNode>)
    ensures |m| <= |ids|
  {
    if ids == [] then []
    else
      var rest := Members(ids[1..], nodes);
      match LastById(nodes, ids[0])
      case Some(n) => [n] + rest
      case None => rest
  }

  /** Each group id positioned in `nodes` contributes its node. */
  lemma {:induction false} MembersComplete(ids: seq<string>, nodes: seq<PositionedNode>, k: int)
    requires 0 <= k < |ids| && LastById(nodes, ids[k]).Some?
    ensures LastById(nodes, ids[k]).value in Members(ids, nodes)
  {
    if k > 0 {
      MembersComplete(ids[1..], nodes, k - 1);
    }
  }

  function MinX(m: seq<PositionedNode>): (r: int)
    requires m != []
    ensures forall i :: 0 <= i < |m| ==> r <= m[i].x
    ensures exists i :: 0 <= i < |m| && r == m[i].x
  {
    if |m| == 1 then m[0].x
    else
      var r := MinX(m[1..]);
      if m[0].x <= r then m[0].x else r
  }

  function MinY(m: seq<PositionedNode>): (r: int)
    requires m != []
    ensures forall i :: 0 <= i < |m| ==> r <= m[i].y
    ensures exists i :: 0 <= i < |m| && r == m[i].y
  {
    if |m| == 1 then m[0].y
    else
      var r := MinY(m[1..]);
      if m[0].y <= r then m[0].y else r
  }

  function MaxRight(m: seq<PositionedNode>): (r: int)
    requires m != []
    ensures forall i :: 0 <= i < |m| ==> m[i].x + m[i].w <= r
    ensures exists i :: 0 <= i < |m| && r == m[i].x + m[i].w
  {
    if |m| == 1 then m[0].x + m[0].w
    else
      var r := MaxRight(m[1..]);
      if m[0].x + m[0].w >= r then m[0].x + m[0].w else r
  }

  function MaxBottom(m: seq<PositionedNode>): (r: int)
    requires m != []
    ensures forall i :: 0 <= i < |m| ==> m[i].y + m[i].h <= r
    ensures exists i :: 0 <= i < |m| && r == m[i].y + m[i].h
  {
    if |m| == 1 then m[0].y + m[0].h
    else
      var r := MaxBottom(m[1..]);
      if m[0].y + m[0].h >= r then m[0].y + m[0].h else r
  }

  /** The padding of the hints, each side defaulting to 40, 30 and 28. */
  function PaddingOf(hints: Option<LayoutHints>): (p: Padding)
    ensures hints.Some? && hints.value.groupPadding.Some? ==> p == hints.value.groupPadding.value
    ensures hints.None? || hints.value.groupPadding.None? ==> p == Padding(40, 30, 28)
  {
    if hints.Some? && hints.value.groupPadding.Some? then hints.value.groupPadding.value else Padding(40, 30, 28)
  }

  /** `n` lies inside `b` with at least the padding on every side and the
      header above. */
  predicate Encloses(b: GroupBounds, n: PositionedNode, p: Padding) {
    && b.x + p.x <= n.x && n.x + n.w + p.x <= b.x + b.w
    && b.y + p.y + p.header <= n.y && n.y + n.h + p.y <= b.y + b.h
  }

  /** The box of one group, or nothing when none of its ids is positioned. The
      box touches the padded extremes: some member sits on each padded edge. */
  function BoundsOf(g: GraphGroupDef, nodes: seq<PositionedNode>, p: Padding): (r: Option<GroupBounds>)
    ensures r.None? <==> Members(g.nodeIds, nodes) == []
    ensures r.Some? ==> r.value.groupId == g.groupId && r.value.labelText == g.labelText && r.value.nodeIds == g.nodeIds
    ensures r.Some? ==> forall n :: n in Members(g.nodeIds, nodes) ==> Encloses(r.value, n, p)
    ensures r.Some? ==> var m := Members(g.nodeIds, nodes);
                        && (exists i :: 0 <= i < |m| && m[i].x == r.value.x + p.x)
                        && (exists i :: 0 <= i < |m| && m[i].y == r.value.y + p.y + p.header)
                        && (exists i :: 0 <= i < |m| && m[i].x + m[i].w + p.x == r.value.x + r.value.w)
                        && (exists i :: 0 <= i < |m| && m[i].y + m[i].h + p.y == r.value.y + r.value.h)
  {
    var m := Members(g.nodeIds, nodes);
    if m == [] then None
    else
      var minX := MinX(m);
      var minY := MinY(m);
      var maxX := MaxRight(m);
      var maxY := MaxBottom(m);
      Some(GroupBounds(g.groupId, g.labelText, g.nodeIds,
                       minX - p.x, minY - p.y - p.header,
                       maxX - minX + p.x * 2, maxY - minY + p.y * 2 + p.header))
  }

  /** The boxes of the groups with a positioned member, in group order. */
  function AllBounds(groups: seq<GraphGroupDef>, nodes: seq<PositionedNode>, p: Padding): (r: seq<GroupBounds>)
    ensures |r| <= |groups|
    ensures forall b :: b in r ==> exists g :: g in groups && BoundsOf(g, nodes, p) == Some(b)
  {
    if groups == [] then []
    else
      var rest := AllBounds(groups[1..], nodes, p);
      match BoundsOf(groups[0], nodes, p)
      case Some(b) => [b] + rest
      case None => rest
  }

  /** `resolveGroupBounds`: the definition's groups when it has any, else the
      inferred ones, each boxed around its positioned members. */
  method ResolveGroupBounds(positioned: seq<PositionedNode>, edges: seq<LayoutEdge>,
                            definitionGroups: Option<seq<GraphGroupDef>>, hints: Option<LayoutHints>)
    returns (r: seq<GroupBounds>)
    ensures definitionGroups.Some? && definitionGroups.value != [] ==>
              r == AllBounds(definitionGroups.value, positioned, PaddingOf(hints))
    ensures definitionGroups.None? || definitionGroups.value == [] ==>
              r == AllBounds(if Forks(positioned) == [] || JoinIds(positioned) == {} then []
                             else GroupsFrom(Forks(positioned), 0, IdSet(positioned), JoinIds(positioned), edges),
                             positioned, PaddingOf(hints))
    ensures forall b :: b in r ==> Members(b.nodeIds, positioned) != []
                                   && forall n :: n in Members(b.nodeIds, positioned) ==> Encloses(b, n, PaddingOf(hints))
  {
    var groups: seq<GraphGroupDef>;
    if definitionGroups.Some? && |definitionGroups.value| > 0 {
      groups := definitionGroups.value;
    } else {
      groups := InferGroupsFromGraph(positioned, edges);
    }
    if |groups| == 0 {
      return [];
    }
    r := AllBounds(groups, positioned, PaddingOf(hints));
  }
}
