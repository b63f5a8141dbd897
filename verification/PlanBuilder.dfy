/** `_build_tree_from_graph`: the plan tree of the live plan graph, by recursion without a visited
    set and with a shared counter. */
module PlanBuilder {
  import opened Sequences
  import opened PlanGraph
  import opened PlanTree
  import opened PlanRecords
  import opened PlanSteps

  method IndexNodes(nodes: seq<PlanNode>) returns (nodeMap: map<NodeId, PlanNode>, order: seq<NodeId>)
    ensures NodesIndexed(nodes, nodeMap) && order == Keys(nodes)
  {
    nodeMap, order := map[], [];
    for i := 0 to |nodes|
      invariant NodesIndexed(nodes[..i], nodeMap) && order == Keys(nodes[..i])
    {
      NodesStep(nodes[..i], nodes[i], nodeMap);
      assert nodes[..i + 1] == nodes[..i] + [nodes[i]];
      if nodes[i].id !in nodeMap { order := order + [nodes[i].id]; }
      nodeMap := nodeMap[nodes[i].id := nodes[i]];
    }
    assert nodes[..|nodes|] == nodes;
  }

  method IndexEdges(edges: seq<Edge>) returns (childrenMap: map<NodeId, seq<NodeId>>, childIds: set<NodeId>)
    ensures EdgesIndexed(edges, childrenMap) && childIds == ChildIds(edges)
  {
    childrenMap, childIds := map[], {};
    for i := 0 to |edges|
      invariant EdgesIndexed(edges[..i], childrenMap) && childIds == ChildIds(edges[..i])
    {
      EdgesStep(edges[..i], edges[i], childrenMap);
      assert edges[..i + 1] == edges[..i] + [edges[i]];
      childrenMap := childrenMap[edges[i].parent := ListAt(childrenMap, edges[i].parent) + [edges[i].child]];
      childIds := childIds + {edges[i].child};
    }
    assert edges[..|edges|] == edges;
  }

  method RootIds(g: Graph, order: seq<NodeId>, childIds: set<NodeId>) returns (rootIds: seq<NodeId>)
    requires order == Keys(g.nodes) && childIds == ChildIds(g.edges)
    ensures rootIds == Roots(g)
  {
    rootIds := [];
    for i := 0 to |order|
      invariant rootIds == Without(order[..i], childIds)
    {
      assert order[..i + 1][..i] == order[..i];
      if order[i] !in childIds { rootIds := rootIds + [order[i]]; }
    }
    assert order[..|order|] == order;
  }

  /** What `build_node` closes over. */
  class TreeBuilder {
    const nodeMap: map<NodeId, PlanNode>
    const childrenMap: map<NodeId, seq<NodeId>>
    const skipped: set<string>
    var counter: nat

    ghost predicate Indexes(g: Graph) {
      NodesIndexed(g.nodes, nodeMap) && EdgesIndexed(g.edges, childrenMap) && skipped == g.skipped
    }

    constructor (nodeMap: map<NodeId, PlanNode>, childrenMap: map<NodeId, seq<NodeId>>, skipped: set<string>)
      ensures this.nodeMap == nodeMap && this.childrenMap == childrenMap && this.skipped == skipped && counter == 0
    {
      this.nodeMap, this.childrenMap, this.skipped, counter := nodeMap, childrenMap, skipped, 0;
    }

    /** `build_node`: the contracted, numbered tree of `u`, which is the graph unfolded from `nid`. */
    method BuildNode(ghost g: Graph, ghost u: Rose, nid: NodeId) returns (tree: Option<Record>)
      requires Indexes(g) && IsUnfolding(g, u) && u.node == nid
      modifies this`counter
      ensures tree == EmitIfAny(Live(g), Contract(g, u), old(counter))
      ensures counter == old(counter) + SizeIfAny(Contract(g, u))
      decreases u, 1
    {
      assert Lookup(g.nodes, nid) == if nid in nodeMap then Some(nodeMap[nid]) else None;
      if nid !in nodeMap { return None; }
      var n := nodeMap[nid];
      assert Children(g.edges, nid) == ListAt(childrenMap, nid);
      var childResults := BuildChildren(g, u.children, ListAt(childrenMap, nid));
      EmitAllLength(Live(g), ContractAll(g, u.children), old(counter));
      if n.name in skipped {
        if |childResults| <= 1 { WrapperStep(Live(g), g, u, old(counter)); }
        if |childResults| == 1 { return Some(childResults[0]); }
        if |childResults| == 0 { return None; }
        NodeStep(Live(g), g, u, old(counter));
        counter := counter + 1;
        return Some(Record(counter, Info(n.name, "transform", "", "", map[]), childResults));
      }
      NodeStep(Live(g), g, u, old(counter));
      counter := counter + 1;
      var info := Info(CleanNodeName(n.name), n.kind, n.detail, n.fullDetail, n.metrics);
      return Some(Record(counter, info, childResults));
    }

    /** The loop over `children_map.get(nid, [])`, which `build_node` writes out twice. */
    method BuildChildren(ghost g: Graph, ghost us: seq<Rose>, ids: seq<NodeId>) returns (childResults: seq<Record>)
      requires Indexes(g) && UnfoldingsOf(g, us, ids)
      modifies this`counter
      ensures childResults == EmitAll(Live(g), ContractAll(g, us), old(counter))
      ensures counter == old(counter) + SizeAll(ContractAll(g, us))
      decreases us, 0
    {
      childResults := [];
      for i := 0 to |ids|
        invariant Built(Live(g), ContractAll(g, us[..i]), old(counter), childResults, counter)
      {
        ghost var results, before := childResults, counter;
        var cr := BuildNode(g, us[i], ids[i]);
        if cr.Some? { childResults := childResults + [cr.value]; }
        ghost var shapes, shape := ContractAll(g, us[..i]), Contract(g, us[i]);
        ChildStep(Live(g), shapes, shape, old(counter), results, before, cr, counter);
        ContractOneMore(g, us, i);
      }
      assert us[..|us|] == us;
    }
  }

  /** The tree of the first root that builds to anything. */
  method FirstTree(g: Graph) returns (tree: Option<Record>)
    requires TriedGrounded(g, Roots(g))
    ensures tree == TreeBy(Live(g), g)
  {
    if |g.nodes| == 0 {
      assert Roots(g) == [];
      return None;
    }
    var nodeMap, order := IndexNodes(g.nodes);
    var childrenMap, childIds := IndexEdges(g.edges);
    var rootIds := RootIds(g, order, childIds);
    if rootIds == [] { return None; }
    var builder := new TreeBuilder(nodeMap, childrenMap, g.skipped);
    for i := 0 to |rootIds|
      invariant builder.counter == 0 && TriedGrounded(g, rootIds[i..])
      invariant FirstShape(g, rootIds) == FirstShape(g, rootIds[i..])
    {
      RootStep(g, rootIds, i);
      UnfoldingIsUnfolding(g, rootIds[i]);
      var result := builder.BuildNode(g, Unfolding(g, rootIds[i]), rootIds[i]);
      if result.Some? { return result; }
    }
    return None;
  }

  /** `_build_tree_from_graph` */
  method BuildTree(g: Graph) returns (tree: Option<Record>)
    requires TriedGrounded(g, Roots(g))
    ensures tree == TreeBy(Live(g), g)
    ensures PlanReported(g, tree, true)
  {
    tree := FirstTree(g);
    BothPlansShown(g);
  }
}
