/** `_build_tree_from_initial_plan`: the plan tree of the plan as it was before adaptive execution.
    The function repeats the code of `_build_tree_from_graph` without reading metrics, so this module
    has its own dictionaries, recursion and counter. */
module InitialPlan {
  import opened Sequences
  import opened PlanGraph
  import opened PlanTree
  import opened PlanRecords
  import opened PlanSteps

  method IndexNodes(nodes: seq<PlanNode>) returns (nodeMap: map<NodeId, PlanNode>, order: seq<NodeId>)
    ensures NodesIndexed(nodes, nodeMap) && order == Keys(nodes)
  {
    nodeMap, order := map[], [];
    for i := 0 to |nodes|
      invariant NodesIndexed(nodes[..i], nodeMap) && order == Keys(nodes[..i])
    {
      var n := nodes[i];
      NodesStep(nodes[..i], n, nodeMap);
      assert nodes[..i + 1] == nodes[..i] + [n];
      if n.id !in nodeMap { order := order + [n.id]; }
      nodeMap := nodeMap[n.id := n];
    }
    assert nodes[..|nodes|] == nodes;
  }

  method IndexEdges(edges: seq<Edge>) returns (childrenMap: map<NodeId, seq<NodeId>>, childIds: set<NodeId>)
    ensures EdgesIndexed(edges, childrenMap) && childIds == ChildIds(edges)
  {
    childrenMap, childIds := map[], {};
    for i := 0 to |edges|
      invariant EdgesIndexed(edges[..i], childrenMap) && childIds == ChildIds(edges[..i])
    {
      var e := edges[i];
      EdgesStep(edges[..i], e, childrenMap);
      assert edges[..i + 1] == edges[..i] + [e];
      childrenMap := childrenMap[e.parent := ListAt(childrenMap, e.parent) + [e.child]];
      childIds := childIds + {e.child};
    }
    assert edges[..|edges|] == edges;
  }

  method RootIds(g: Graph, order: seq<NodeId>, childIds: set<NodeId>) returns (rootIds: seq<NodeId>)
    requires order == Keys(g.nodes) && childIds == ChildIds(g.edges)
    ensures rootIds == Roots(g)
  {
    rootIds := [];
    for i := 0 to |order|
      invariant rootIds == Without(order[..i], childIds)
    {
      assert order[..i + 1][..i] == order[..i];
      if order[i] !in childIds { rootIds := rootIds + [order[i]]; }
    }
    assert order[..|order|] == order;
  }

  /** What this function's own `build_node` closes over. */
  class InitialBuilder {
    const nodeMap: map<NodeId, PlanNode>
    const childrenMap: map<NodeId, seq<NodeId>>
    const skipped: set<string>
    var counter: nat

    ghost predicate Indexes(g: Graph) {
      NodesIndexed(g.nodes, nodeMap) && EdgesIndexed(g.edges, childrenMap) && skipped == g.skipped
    }

    constructor (nodeMap: map<NodeId, PlanNode>, childrenMap: map<NodeId, seq<NodeId>>, skipped: set<string>)
      ensures this.nodeMap == nodeMap && this.childrenMap == childrenMap && this.skipped == skipped && counter == 0
    {
      this.nodeMap, this.childrenMap, this.skipped, counter := nodeMap, childrenMap, skipped, 0;
    }

    /** This function's own `build_node`: as the live builder's, but reading no metrics. */
    method BuildNode(ghost g: Graph, ghost u: Rose, nid: NodeId) returns (tree: Option<Record>)
      requires Indexes(g) && IsUnfolding(g, u) && u.node == nid
      modifies this`counter
      ensures tree == EmitIfAny(Plain(g), Contract(g, u), old(counter))
      ensures counter == old(counter) + SizeIfAny(Contract(g, u))
      decreases u, 1
    {
      assert Lookup(g.nodes, nid) == if nid in nodeMap then Some(nodeMap[nid]) else None;
      if nid !in nodeMap { return None; }
      var n := nodeMap[nid];
      assert Children(g.edges, nid) == ListAt(childrenMap, nid);
      var childResults := BuildChildren(g, u.children, ListAt(childrenMap, nid));
      EmitAllLength(Plain(g), ContractAll(g, u.children), old(counter));
      if n.name in skipped {
        if |childResults| <= 1 { WrapperStep(Plain(g), g, u, old(counter)); }
        if |childResults| == 1 { return Some(childResults[0]); }
        if |childResults| == 0 { return None; }
        NodeStep(Plain(g), g, u, old(counter));
        counter := counter + 1;
        return Some(Record(counter, Info(n.name, "transform", "", "", map[]), childResults));
      }
      NodeStep(Plain(g), g, u, old(counter));
      counter := counter + 1;
      var info := Info(CleanNodeName(n.name), n.kind, n.detail, n.fullDetail, map[]);
      return Some(Record(counter, info, childResults));
    }

    method BuildChildren(ghost g: Graph, ghost us: seq<Rose>, ids: seq<NodeId>) returns (childResults: seq<Record>)
      requires Indexes(g) && UnfoldingsOf(g, us, ids)
      modifies this`counter
      ensures childResults == EmitAll(Plain(g), ContractAll(g, us), old(counter))
      ensures counter == old(counter) + SizeAll(ContractAll(g, us))
      decreases us, 0
    {
      childResults := [];
      for i := 0 to |ids|
        invariant Built(Plain(g), ContractAll(g, us[..i]), old(counter), childResults, counter)
      {
        ghost var results, before := childResults, counter;
        var cr := BuildNode(g, us[i], ids[i]);
        if cr.Some? { childResults := childResults + [cr.value]; }
        ghost var shapes, shape := ContractAll(g, us[..i]), Contract(g, us[i]);
        ChildStep(Plain(g), shapes, shape, old(counter), results, before, cr, counter);
        ContractOneMore(g, us, i);
      }
      assert us[..|us|] == us;
    }
  }

  /** The tree of the first root that builds to anything. */
  method FirstInitialTree(g: Graph) returns (tree: Option<Record>)
    requires TriedGrounded(g, Roots(g))
    ensures tree == TreeBy(Plain(g), g)
  {
    if |g.nodes| == 0 {
      assert Roots(g) == [];
      return None;
    }
    var nodeMap, order := IndexNodes(g.nodes);
    var childrenMap, childIds := IndexEdges(g.edges);
    var rootIds := RootIds(g, order, childIds);
    if rootIds == [] { return None; }
    var builder := new InitialBuilder(nodeMap, childrenMap, g.skipped);
    for i := 0 to |rootIds|
      invariant builder.counter == 0 && TriedGrounded(g, rootIds[i..])
      invariant FirstShape(g, rootIds) == FirstShape(g, rootIds[i..])
    {
      RootStep(g, rootIds, i);
      UnfoldingIsUnfolding(g, rootIds[i]);
      var result := builder.BuildNode(g, Unfolding(g, rootIds[i]), rootIds[i]);
      if result.Some? { return result; }
    }
    return None;
  }

  /** `_build_tree_from_initial_plan` */
  method BuildInitialTree(g: Graph) returns (tree: Option<Record>)
    requires TriedGrounded(g, Roots(g))
    ensures tree == TreeBy(Plain(g), g)
    ensures PlanReported(g, tree, false)
  {
    tree := FirstInitialTree(g);
    BothPlansShown(g);
  }
}
