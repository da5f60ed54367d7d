/** The static graph definitions the UI draws (services/ui/app/graphs/types.ts). */
module GraphTypes {
  import opened Common

  datatype EdgeKind = Normal | ForkEdge | JoinEdge

  datatype GraphNodeDef = GraphNodeDef(nodeId: string, nodeType: string, labelText: Option<string>, branch: Option<string>)

  datatype GraphEdgeDef = GraphEdgeDef(from: string, to: string, kind: Option<EdgeKind>)

  datatype GraphGroupDef = GraphGroupDef(groupId: string, labelText: string, nodeIds: seq<string>)

  datatype Direction = LR

  datatype Padding = Padding(x: int, y: int, header: int)

  datatype LayoutHints = LayoutHints(direction: Option<Direction>, branchOrder: Option<seq<string>>,
                                     nodeSizeOverrides: Option<map<string, (int, int)>>,
                                     groupPadding: Option<Padding>)

  datatype GraphDefinition = GraphDefinition(graphId: string, nodes: seq<GraphNodeDef>, edges: seq<GraphEdgeDef>,
                                             groups: Option<seq<GraphGroupDef>>, layoutHints: Option<LayoutHints>)
}
