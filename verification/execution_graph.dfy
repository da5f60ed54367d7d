/** The observational execution graph of one workflow instance
    (core/Statevia.Core/ExecutionGraph/ExecutionGraph.cs). Node ids (a GUID prefix
    in the source) and clock readings are supplied by the caller. */
module Trace {
  import opened Common

  /** `EdgeType`: why a node followed another. */
  datatype EdgeKind = Next | Fork | Join | Resume | Cancel

  datatype Node = Node(nodeId: string, stateName: string, startedAt: int,
                       completedAt: Option<int>, fact: Option<string>, output: Value)

  datatype Edge = Edge(from: string, to: string, kind: EdgeKind)

  datatype Graph = Graph(nodes: seq<Node>, edges: seq<Edge>)

  function EmptyGraph(): (g: Graph)
    ensures |g.nodes| == 0 && |g.edges| == 0
  {
    Graph([], [])
  }

  /** Index of the first node with the id, or -1 (`FirstOrDefault`). */
  function FindNode(nodes: seq<Node>, id: string): (i: int)
    ensures -1 <= i < |nodes|
    ensures i >= 0 ==> nodes[i].nodeId == id && forall j :: 0 <= j < i ==> nodes[j].nodeId != id
    ensures i == -1 <==> forall j :: 0 <= j < |nodes| ==> nodes[j].nodeId != id
  {
    if |nodes| == 0 then -1
    else if nodes[0].nodeId == id then 0
    else
      var j := FindNode(nodes[1..], id);
      if j < 0 then -1 else j + 1
  }

  /** `AddNode`: appends a started, not yet completed node and returns its id. */
  function AddNode(g: Graph, nodeId: string, stateName: string, now: int): (r: (Graph, string))
    ensures r.1 == nodeId
    ensures r.0.edges == g.edges
    ensures |r.0.nodes| == |g.nodes| + 1 && r.0.nodes[..|g.nodes|] == g.nodes
    ensures r.0.nodes[|g.nodes|] == Node(nodeId, stateName, now, None, None, Null)
  {
    (Graph(g.nodes + [Node(nodeId, stateName, now, None, None, Null)], g.edges), nodeId)
  }

  /** `CompleteNode`: records completion time, fact and output on the first node with
      the id; an unknown id leaves the graph unchanged. */
  function CompleteNode(g: Graph, nodeId: string, fact: string, output: Value, now: int): (r: Graph)
    ensures r.edges == g.edges && |r.nodes| == |g.nodes|
    ensures FindNode(g.nodes, nodeId) == -1 ==> r == g
    ensures var i := FindNode(g.nodes, nodeId);
      i >= 0 ==>
        && r.nodes[i].nodeId == nodeId && r.nodes[i].stateName == g.nodes[i].stateName
        && r.nodes[i].startedAt == g.nodes[i].startedAt
        && r.nodes[i].completedAt == Some(now) && r.nodes[i].fact == Some(fact) && r.nodes[i].output == output
        && forall j :: 0 <= j < |g.nodes| && j != i ==> r.nodes[j] == g.nodes[j]
  {
    var i := FindNode(g.nodes, nodeId);
    if i < 0 then g
    else Graph(g.nodes[i := g.nodes[i].(completedAt := Some(now), fact := Some(fact), output := output)], g.edges)
  }

  /** `AddEdge`: appends the edge verbatim; its endpoints are not checked. */
  function AddEdge(g: Graph, from: string, to: string, kind: EdgeKind): (r: Graph)
    ensures r.nodes == g.nodes
    ensures |r.edges| == |g.edges| + 1 && r.edges[..|g.edges|] == g.edges
    ensures r.edges[|g.edges|] == Edge(from, to, kind)
  {
    Graph(g.nodes, g.edges + [Edge(from, to, kind)])
  }

  /** The graph only ever grows: earlier nodes keep their identity and earlier edges
      stay in place. */
  predicate Extends(g: Graph, h: Graph) {
    |g.nodes| <= |h.nodes| && |g.edges| <= |h.edges| && h.edges[..|g.edges|] == g.edges
    && forall i :: 0 <= i < |g.nodes| ==>
         h.nodes[i].nodeId == g.nodes[i].nodeId && h.nodes[i].stateName == g.nodes[i].stateName
         && h.nodes[i].startedAt == g.nodes[i].startedAt
  }

  lemma ExtendsTrans(a: Graph, b: Graph, c: Graph)
    requires Extends(a, b) && Extends(b, c)
    ensures Extends(a, c)
  {
    assert c.edges[..|a.edges|] == c.edges[..|b.edges|][..|a.edges|];
  }

  /** Each mutator only extends the graph. */
  lemma MutatorsExtend(g: Graph, id: string, name: string, fact: string, v: Value, now: int, kind: EdgeKind)
    ensures Extends(g, AddNode(g, id, name, now).0)
    ensures Extends(g, CompleteNode(g, id, fact, v, now))
    ensures Extends(g, AddEdge(g, id, name, kind))
  {
    var h := AddNode(g, id, name, now).0;
    assert forall i :: 0 <= i < |g.nodes| ==> h.nodes[i] == h.nodes[..|g.nodes|][i];
    assert g.edges[..|g.edges|] == g.edges;
  }

  /** Completing a node twice with the same id keeps only the second record, on the
      same node. */
  lemma CompleteTwice(g: Graph, id: string, f1: string, v1: Value, t1: int, f2: string, v2: Value, t2: int)
    requires FindNode(g.nodes, id) >= 0
    ensures var i := FindNode(g.nodes, id);
      var h := CompleteNode(CompleteNode(g, id, f1, v1, t1), id, f2, v2, t2);
      h.nodes[i].fact == Some(f2) && h.nodes[i].output == v2 && h.nodes[i].completedAt == Some(t2)
  {
    var h1 := CompleteNode(g, id, f1, v1, t1);
    FindNodeStable(g.nodes, h1.nodes, id);
  }

  /** `FindNode` depends only on the ids, so re-recording a node does not move it. */
  lemma {:induction false} FindNodeStable(a: seq<Node>, b: seq<Node>, id: string)
    requires |a| == |b| && forall i :: 0 <= i < |a| ==> a[i].nodeId == b[i].nodeId
    ensures FindNode(a, id) == FindNode(b, id)
  {
    if |a| > 0 {
      FindNodeStable(a[1..], b[1..], id);
    }
  }
}
