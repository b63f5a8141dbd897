/** What one step of a builder's loops adds to what the builder is specified to return. */
module PlanSteps {
  import opened Sequences
  import opened PlanGraph
  import opened PlanTree
  import opened PlanRecords

  /* ----- dictionaries ----- */

  function ListAt(childrenMap: map<NodeId, seq<NodeId>>, n: NodeId): seq<NodeId> {
    if n in childrenMap then childrenMap[n] else []
  }

  ghost predicate NodesIndexed(nodes: seq<PlanNode>, nodeMap: map<NodeId, PlanNode>) {
    forall n {:trigger n in nodeMap} :: Lookup(nodes, n) == if n in nodeMap then Some(nodeMap[n]) else None
  }

  ghost predicate EdgesIndexed(edges: seq<Edge>, childrenMap: map<NodeId, seq<NodeId>>) {
    forall n {:trigger ListAt(childrenMap, n)} :: Children(edges, n) == ListAt(childrenMap, n)
  }

  lemma NodesStep(nodes: seq<PlanNode>, p: PlanNode, nodeMap: map<NodeId, PlanNode>)
    requires NodesIndexed(nodes, nodeMap)
    ensures NodesIndexed(nodes + [p], nodeMap[p.id := p])
    ensures Keys(nodes + [p]) == if p.id in nodeMap then Keys(nodes) else Keys(nodes) + [p.id]
  {
    assert (nodes + [p])[..|nodes|] == nodes;
    assert IdList(nodes + [p])[..|nodes|] == IdList(nodes);
    LookupListed(nodes, p.id);
  }

  lemma EdgesStep(edges: seq<Edge>, e: Edge, childrenMap: map<NodeId, seq<NodeId>>)
    requires EdgesIndexed(edges, childrenMap)
    ensures EdgesIndexed(edges + [e], childrenMap[e.parent := ListAt(childrenMap, e.parent) + [e.child]])
    ensures ChildIds(edges + [e]) == ChildIds(edges) + {e.child}
  {
    assert (edges + [e])[..|edges|] == edges;
    var after := childrenMap[e.parent := ListAt(childrenMap, e.parent) + [e.child]];
    forall n ensures Children(edges + [e], n) == ListAt(after, n) {
      assert Children(edges, n) == ListAt(childrenMap, n);
    }
    forall c ensures c in ChildIds(edges + [e]) <==> c in ChildIds(edges) + {e.child} {
      if c in ChildIds(edges) {
        var f :| f in edges && f.child == c;
        assert f in edges + [e];
      }
      assert e in edges + [e];
    }
  }

  /* ----- the recursion ----- */

  /** A wrapper with at most one surviving child adds no record of its own. */
  lemma WrapperStep(show: Display, g: Graph, u: Rose, c: nat)
    requires Wrapper(g, u.node) && |ContractAll(g, u.children)| <= 1
    ensures var survivors := ContractAll(g, u.children);
            var records := EmitAll(show, survivors, c);
            && |records| == |survivors|
            && EmitIfAny(show, Contract(g, u), c) == (if records == [] then None else Some(records[0]))
            && SizeIfAny(Contract(g, u)) == SizeAll(survivors)
  {
    var survivors := ContractAll(g, u.children);
    EmitAllLength(show, survivors, c);
    if |survivors| == 1 { assert survivors[..0] == []; }
  }

  /** Any other known node adds one record over those of its surviving children. */
  lemma NodeStep(show: Display, g: Graph, u: Rose, c: nat)
    requires Known(g, u.node) && (Wrapper(g, u.node) ==> |ContractAll(g, u.children)| >= 2)
    ensures var survivors := ContractAll(g, u.children);
            && EmitIfAny(show, Contract(g, u), c) ==
               Some(Record(c + SizeAll(survivors) + 1, show(u.node), EmitAll(show, survivors, c)))
            && SizeIfAny(Contract(g, u)) == SizeAll(survivors) + 1
  {
  }

  lemma {:induction false} EmitAllLength(show: Display, rs: seq<Rose>, c: nat)
    ensures |EmitAll(show, rs, c)| == |rs|
  {
    if rs != [] { EmitAllLength(show, rs[..|rs| - 1], c); }
  }

  function AsList<T>(x: Option<T>): seq<T> { if x.Some? then [x.value] else [] }

  /** The child loop has built `shapes`: `results` are their records, numbered from `c`, and `counter`
      is where the numbering stands. */
  ghost predicate Built(show: Display, shapes: seq<Rose>, c: nat, results: seq<Record>, counter: nat) {
    results == EmitAll(show, shapes, c) && counter == c + SizeAll(shapes)
  }

  /** What `build_node` returns for one shape, and where it leaves the counter. */
  ghost predicate BuiltOne(show: Display, shape: Option<Rose>, c: nat, tree: Option<Record>, counter: nat) {
    tree == EmitIfAny(show, shape, c) && counter == c + SizeIfAny(shape)
  }

  /** The loop's next child adds its own record, if it builds to one, to those of the children before it. */
  lemma ChildStep(show: Display, shapes: seq<Rose>, shape: Option<Rose>, c: nat, results: seq<Record>, counter: nat,
                  cr: Option<Record>, counter': nat)
    requires Built(show, shapes, c, results, counter) && BuiltOne(show, shape, counter, cr, counter')
    ensures Built(show, shapes + AsList(shape), c, results + AsList(cr), counter')
  {
    EmitAllStep(show, shapes, shape, c);
  }

  lemma ContractOneMore(g: Graph, us: seq<Rose>, i: nat)
    requires i < |us|
    ensures ContractAll(g, us[..i + 1]) == ContractAll(g, us[..i]) + AsList(Contract(g, us[i]))
  {
    assert us[..i + 1][..i] == us[..i];
  }

  lemma EmitAllStep(show: Display, rs: seq<Rose>, shape: Option<Rose>, c: nat)
    ensures SizeAll(rs + AsList(shape)) == SizeAll(rs) + SizeIfAny(shape)
    ensures EmitAll(show, rs + AsList(shape), c) ==
            EmitAll(show, rs, c) + AsList(EmitIfAny(show, shape, c + SizeAll(rs)))
  {
    match shape
    case None =>
      assert rs + AsList(shape) == rs;
    case Some(r) =>
      assert (rs + [r])[..|rs|] == rs;
  }

  /** A root that builds to nothing leaves the rest to try. */
  lemma RootStep(g: Graph, roots: seq<NodeId>, i: nat)
    requires i < |roots| && TriedGrounded(g, roots[i..])
    ensures Grounded(g, roots[i])
    ensures match Contract(g, Unfolding(g, roots[i]))
            case Some(shape) => FirstShape(g, roots[i..]) == Some(shape)
            case None => TriedGrounded(g, roots[i + 1..]) && FirstShape(g, roots[i..]) == FirstShape(g, roots[i + 1..])
  {
    assert roots[i..][0] == roots[i] && roots[i..][1..] == roots[i + 1..];
    ContractionKeepsOperators(g, Unfolding(g, roots[i]));
  }
}
