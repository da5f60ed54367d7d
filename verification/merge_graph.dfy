/** The merge of an execution's runtime nodes with its static graph definition
    (services/ui/app/lib/mergeGraph.ts): the definition fixes which nodes and
    edges are drawn, the runtime supplies their status. */
module MergeGraph {
  import opened Common
  import opened Executions
  import opened UiTypes
  import opened GraphTypes

  datatype MergedNode = MergedNode(nodeId: string, nodeType: string, labelText: string, branch: Option<string>,
                                   status: NodeStatus, attempt: int, waitKey: Option<string>,
                                   canceledByExecution: bool)

  datatype MergedEdge = MergedEdge(id: string, from: string, to: string, kind: Option<EdgeKind>)

  datatype MergedGraph = MergedGraph(graphId: string, nodes: seq<MergedNode>, edges: seq<MergedEdge>,
                                     groups: Option<seq<GraphGroupDef>>, layoutHints: Option<LayoutHints>,
                                     isDefinitionBased: bool)

  /** `asIdleNode`: the runtime stand-in for a node the execution has not
      created yet. */
  function AsIdleNode(nodeId: string, nodeType: string): (r: ExecutionNodeDto)
    ensures r.nodeId == nodeId && r.nodeType == nodeType
    ensures r.status == Idle && r.attempt == 0 && r.workerId.None? && r.waitKey.None? && !r.canceledByExecution
  {
    ExecutionNodeDto(nodeId, nodeType, Idle, 0, None, None, false)
  }

  /** `toEdge`: the id joins both ends and the position in the definition. */
  function ToEdge(e: GraphEdgeDef, index: nat): (r: MergedEdge)
    ensures r.from == e.from && r.to == e.to && r.kind == e.kind
    ensures r.id == "e-" + e.from + "-" + e.to + "-" + NatToString(index)
  {
    MergedEdge("e-" + e.from + "-" + e.to + "-" + NatToString(index), e.from, e.to, e.kind)
  }

  /** `nodeById.get(id)`: the map is built from the list, so the last runtime
      node with that id wins. */
  function RuntimeNode(nodes: seq<ExecutionNodeDto>, id: string): (r: Option<ExecutionNodeDto>)
    ensures r.Some? <==> exists i :: 0 <= i < |nodes| && nodes[i].nodeId == id
    ensures r.Some? ==> exists i :: 0 <= i < |nodes| && nodes[i] == r.value && r.value.nodeId == id
                                    && forall j :: i < j < |nodes| ==> nodes[j].nodeId != id
  {
    var i := LastRuntimeIndex(nodes, id);
    if i < 0 then None else Some(nodes[i])
  }

  /** The position of the last node with that id, or -1. */
  function LastRuntimeIndex(nodes: seq<ExecutionNodeDto>, id: string): (i: int)
    ensures -1 <= i < |nodes|
    ensures 0 <= i ==> nodes[i].nodeId == id
    ensures forall j :: i < j < |nodes| ==> nodes[j].nodeId != id
  {
    if nodes == [] then -1
    else if nodes[|nodes| - 1].nodeId == id then |nodes| - 1
    else LastRuntimeIndex(nodes[..|nodes| - 1], id)
  }

  /** A runtime node drawn without a definition: labelled with its id. */
  function Mirror(n: ExecutionNodeDto): MergedNode {
    MergedNode(n.nodeId, n.nodeType, n.nodeId, None, n.status, n.attempt, n.waitKey, n.canceledByExecution)
  }

  /** A definition node with the status of its runtime node, or of an idle one. */
  function MergeNode(d: GraphNodeDef, runtime: seq<ExecutionNodeDto>): (r: MergedNode)
    ensures r.nodeId == d.nodeId && r.nodeType == d.nodeType && r.branch == d.branch
    ensures r.labelText == d.labelText.GetOr(d.nodeId)
    ensures RuntimeNode(runtime, d.nodeId).Some? ==>
              var n := RuntimeNode(runtime, d.nodeId).value;
              r.status == n.status && r.attempt == n.attempt && r.waitKey == n.waitKey
              && r.canceledByExecution == n.canceledByExecution
    ensures RuntimeNode(runtime, d.nodeId).None? ==>
              r.status == Idle && r.attempt == 0 && r.waitKey.None? && !r.canceledByExecution
  {
    var n := RuntimeNode(runtime, d.nodeId).GetOr(AsIdleNode(d.nodeId, d.nodeType));
    MergedNode(d.nodeId, d.nodeType, d.labelText.GetOr(d.nodeId), d.branch,
               n.status, n.attempt, n.waitKey, n.canceledByExecution)
  }

  /** `mergeGraph`. Without a definition the runtime nodes are drawn one for
      one with no edges; with one, exactly the definition's nodes and edges
      are drawn, in its order. */
  function MergeGraph(execution: ExecutionDto, definition: Option<GraphDefinition>): (r: MergedGraph)
    ensures definition.None? ==>
              && r.graphId == execution.graphId && !r.isDefinitionBased
              && r.edges == [] && r.groups == Some([]) && r.layoutHints == Some(LayoutHints(Some(LR), None, None, None))
              && |r.nodes| == |execution.nodes|
              && forall i :: 0 <= i < |r.nodes| ==> r.nodes[i] == Mirror(execution.nodes[i])
    ensures definition.Some? ==>
              var d := definition.value;
              && r.graphId == d.graphId && r.isDefinitionBased
              && |r.nodes| == |d.nodes|
              && (forall i :: 0 <= i < |r.nodes| ==> r.nodes[i] == MergeNode(d.nodes[i], execution.nodes))
              && |r.edges| == |d.edges|
              && (forall i :: 0 <= i < |r.edges| ==> r.edges[i] == ToEdge(d.edges[i], i))
              && r.groups == Some(d.groups.GetOr([])) && r.layoutHints == d.layoutHints
  {
    if definition.None? then
      MergedGraph(execution.graphId,
                  seq(|execution.nodes|, i requires 0 <= i < |execution.nodes| => Mirror(execution.nodes[i])),
                  [], Some([]), Some(LayoutHints(Some(LR), None, None, None)), false)
    else
      var d := definition.value;
      MergedGraph(d.graphId,
                  seq(|d.nodes|, i requires 0 <= i < |d.nodes| => MergeNode(d.nodes[i], execution.nodes)),
                  seq(|d.edges|, i requires 0 <= i < |d.edges| => ToEdge(d.edges[i], i)),
                  Some(d.groups.GetOr([])), d.layoutHints, true)
  }

  /** With a definition, a runtime node whose id the definition lacks is not
      drawn, and every drawn node is a definition node. */
  lemma DefinitionDecidesNodes(execution: ExecutionDto, d: GraphDefinition, id: string)
    ensures (exists i :: 0 <= i < |MergeGraph(execution, Some(d)).nodes| && MergeGraph(execution, Some(d)).nodes[i].nodeId == id)
            <==> exists j :: 0 <= j < |d.nodes| && d.nodes[j].nodeId == id
  {
    var r := MergeGraph(execution, Some(d));
    if exists j :: 0 <= j < |d.nodes| && d.nodes[j].nodeId == id {
      var j :| 0 <= j < |d.nodes| && d.nodes[j].nodeId == id;
      assert r.nodes[j].nodeId == id;
    }
  }

  /** A definition node the execution has not created is drawn idle, and one
      it has created shows the runtime status. */
  lemma RuntimeStatusShown(execution: ExecutionDto, d: GraphDefinition, i: int)
    requires 0 <= i < |d.nodes|
    ensures var r := MergeGraph(execution, Some(d));
            var id := d.nodes[i].nodeId;
            && ((forall k :: 0 <= k < |execution.nodes| ==> execution.nodes[k].nodeId != id) ==>
                  r.nodes[i].status == Idle && r.nodes[i].attempt == 0 && !r.nodes[i].canceledByExecution)
            && (forall k :: 0 <= k < |execution.nodes| && execution.nodes[k].nodeId == id ==>
                  (forall k' :: k < k' < |execution.nodes| ==> execution.nodes[k'].nodeId != id) ==>
                    r.nodes[i].status == execution.nodes[k].status && r.nodes[i].attempt == execution.nodes[k].attempt)
  {
    var id := d.nodes[i].nodeId;
    var rt := RuntimeNode(execution.nodes, id);
    if rt.Some? {
      var k0 :| 0 <= k0 < |execution.nodes| && execution.nodes[k0] == rt.value && rt.value.nodeId == id
                && forall j :: k0 < j < |execution.nodes| ==> execution.nodes[j].nodeId != id;
      forall k | 0 <= k < |execution.nodes| && execution.nodes[k].nodeId == id
                 && (forall k' :: k < k' < |execution.nodes| ==> execution.nodes[k'].nodeId != id)
        ensures execution.nodes[k] == rt.value
      {
        assert k == k0;
      }
    }
  }
}
