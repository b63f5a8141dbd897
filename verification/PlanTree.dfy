/** What the plan tree means: the graph unfolded from a node, the wrappers contracted away,
    and the records numbered. The imperative builder is proved against these in PlanBuilder. */
module PlanTree {
  import opened Sequences
  import opened PlanGraph

  datatype Rose = Rose(node: NodeId, children: seq<Rose>)

  /* ----- unfolding ----- */

  /** All of `ns` are ranked below `parent`. */
  ghost predicate RankedUnder(rank: map<NodeId, nat>, parent: NodeId, ns: seq<NodeId>) {
    parent in rank && forall c | c in ns :: c in rank && rank[c] < rank[parent]
  }

  lemma ChildrenRankBelow(g: Graph, rank: map<NodeId, nat>, n: NodeId)
    requires Ranked(g, rank) && Known(g, n) && n in rank
    ensures RankedUnder(rank, n, Children(g.edges, n))
  {
    forall c | c in Children(g.edges, n) ensures c in rank && rank[c] < rank[n] {
      ChildrenAreEdges(g.edges, n, c);
    }
  }

  /** Everything below `n`, shared nodes repeated. An id no node was listed for is a bare leaf. */
  ghost function Unfold(g: Graph, rank: map<NodeId, nat>, n: NodeId): (u: Rose)
    requires Ranked(g, rank) && n in rank
    ensures u.node == n
    decreases rank[n], 1
  {
    if !Known(g, n) then Rose(n, []) else
      ChildrenRankBelow(g, rank, n);
      Rose(n, UnfoldAll(g, rank, n, Children(g.edges, n)))
  }

  ghost function UnfoldAll(g: Graph, rank: map<NodeId, nat>, parent: NodeId, ns: seq<NodeId>): (us: seq<Rose>)
    requires Ranked(g, rank) && RankedUnder(rank, parent, ns)
    ensures |us| == |ns|
    decreases rank[parent], 0, |ns|
  {
    if ns == [] then [] else
      var front, last := ns[..|ns| - 1], ns[|ns| - 1];
      UnfoldAll(g, rank, parent, front) + [Unfold(g, rank, last)]
  }

  /** `u` is the graph unfolded from its top node. */
  ghost predicate IsUnfolding(g: Graph, u: Rose) {
    if Known(g, u.node) then UnfoldingsOf(g, u.children, Children(g.edges, u.node)) else u.children == []
  }

  /** The unfoldings `us` are those of the nodes `ids`, one by one. */
  ghost predicate UnfoldingsOf(g: Graph, us: seq<Rose>, ids: seq<NodeId>) {
    |us| == |ids| && forall i | 0 <= i < |us| :: us[i].node == ids[i] && IsUnfolding(g, us[i])
  }

  lemma {:induction false} UnfoldIsUnfolding(g: Graph, rank: map<NodeId, nat>, n: NodeId)
    requires Ranked(g, rank) && n in rank
    ensures IsUnfolding(g, Unfold(g, rank, n))
    decreases rank[n], 1
  {
    if Known(g, n) {
      ChildrenRankBelow(g, rank, n);
      UnfoldAllAreUnfoldings(g, rank, n, Children(g.edges, n));
    }
  }

  lemma {:induction false} UnfoldAllAreUnfoldings(g: Graph, rank: map<NodeId, nat>, parent: NodeId, ns: seq<NodeId>)
    requires Ranked(g, rank) && RankedUnder(rank, parent, ns)
    ensures UnfoldingsOf(g, UnfoldAll(g, rank, parent, ns), ns)
    decreases rank[parent], 0, |ns|
  {
    if ns != [] {
      UnfoldAllAreUnfoldings(g, rank, parent, ns[..|ns| - 1]);
      UnfoldIsUnfolding(g, rank, ns[|ns| - 1]);
    }
  }

  lemma {:induction false} OneUnfolding(g: Graph, u: Rose, v: Rose)
    requires IsUnfolding(g, u) && IsUnfolding(g, v) && u.node == v.node
    ensures u == v
  {
    forall i | 0 <= i < |u.children| ensures |v.children| == |u.children| && u.children[i] == v.children[i] {
      OneUnfolding(g, u.children[i], v.children[i]);
    }
    assert u.children == v.children;
  }

  /** The unfolding belongs to the graph, not to the ranking that shows it finite. */
  lemma UnfoldIgnoresRank(g: Graph, rank: map<NodeId, nat>, other: map<NodeId, nat>, n: NodeId)
    requires Ranked(g, rank) && Ranked(g, other) && n in rank && n in other
    ensures Unfold(g, rank, n) == Unfold(g, other, n)
  {
    UnfoldIsUnfolding(g, rank, n);
    UnfoldIsUnfolding(g, other, n);
    OneUnfolding(g, Unfold(g, rank, n), Unfold(g, other, n));
  }

  ghost function Unfolding(g: Graph, n: NodeId): Rose
    requires Grounded(g, n)
  {
    var rank :| Ranked(g, rank) && n in rank;
    Unfold(g, rank, n)
  }

  lemma UnfoldingRank(g: Graph, n: NodeId) returns (rank: map<NodeId, nat>)
    requires Grounded(g, n)
    ensures Ranked(g, rank) && n in rank && Unfolding(g, n) == Unfold(g, rank, n)
  {
    rank :| Ranked(g, rank) && n in rank && Unfolding(g, n) == Unfold(g, rank, n);
  }

  lemma UnfoldingByAny(g: Graph, rank: map<NodeId, nat>, n: NodeId)
    requires Ranked(g, rank) && n in rank
    ensures Grounded(g, n) && Unfolding(g, n) == Unfold(g, rank, n)
  {
    var other := UnfoldingRank(g, n);
    UnfoldIgnoresRank(g, rank, other, n);
  }

  lemma UnfoldingIsUnfolding(g: Graph, n: NodeId)
    requires Grounded(g, n)
    ensures IsUnfolding(g, Unfolding(g, n)) && Unfolding(g, n).node == n
  {
    var rank := UnfoldingRank(g, n);
    UnfoldIsUnfolding(g, rank, n);
  }

  /** Below a known node come the unfoldings of the children of the edges into it, in edge order, and
      nothing else; below an unknown one comes nothing. */
  lemma UnfoldingMeaning(g: Graph, n: NodeId)
    requires Grounded(g, n)
    ensures var u, es := Unfolding(g, n), Filter(g.edges, Into(n));
            && u.node == n
            && (Known(g, n) ==> |u.children| == |es|)
            && (!Known(g, n) ==> u.children == [])
            && forall i | 0 <= i < |u.children| ::
                 Grounded(g, es[i].child) && u.children[i] == Unfolding(g, es[i].child)
  {
    var u, es := Unfolding(g, n), Filter(g.edges, Into(n));
    UnfoldingIsUnfolding(g, n);
    ChildrenMeaning(g.edges, n);
    forall i | 0 <= i < |u.children|
      ensures Grounded(g, es[i].child) && u.children[i] == Unfolding(g, es[i].child)
    {
      FiniteIffGrounded(g, es[i].child);
      UnfoldingIsUnfolding(g, es[i].child);
      OneUnfolding(g, u.children[i], Unfolding(g, es[i].child));
    }
  }

  /* ----- node sequences ----- */

  ghost function PostOrder(u: Rose): seq<NodeId>
    decreases u, 1
  {
    PostOrderAll(u.children) + [u.node]
  }

  ghost function PostOrderAll(us: seq<Rose>): seq<NodeId>
    decreases us, 0
  {
    if us == [] then [] else PostOrderAll(us[..|us| - 1]) + PostOrder(us[|us| - 1])
  }

  /* ----- finite unfoldings ----- */

  lemma {:induction false} PartIsSmaller(us: seq<Rose>, i: nat)
    requires i < |us|
    ensures |PostOrder(us[i])| <= |PostOrderAll(us)|
  {
    if i < |us| - 1 { PartIsSmaller(us[..|us| - 1], i); }
  }

  /** A walk leads down the unfolding, every step to a smaller one. */
  lemma {:induction false} FollowWalk(g: Graph, u: Rose, w: seq<NodeId>) returns (v: Rose)
    requires IsUnfolding(g, u) && Walk(g, w) && w[0] == u.node
    ensures IsUnfolding(g, v) && v.node == w[|w| - 1] && |PostOrder(v)| + |w| - 1 <= |PostOrder(u)|
    decreases |w|
  {
    if |w| == 1 {
      v := u;
    } else {
      var ids := Children(g.edges, w[0]);
      ChildrenAreEdges(g.edges, w[0], w[1]);
      assert Edge(w[1], w[0]) in g.edges;
      var i :| 0 <= i < |ids| && ids[i] == w[1];
      PartIsSmaller(u.children, i);
      v := FollowWalk(g, u.children[i], w[1..]);
    }
  }

  /** There is a finite unfolding exactly when there is a ranking: the builder's recursion, which
      walks the unfolding, stops below a node exactly when that node is grounded. */
  lemma FiniteIffGrounded(g: Graph, n: NodeId)
    ensures Grounded(g, n) <==> exists u :: IsUnfolding(g, u) && u.node == n
  {
    if Grounded(g, n) { UnfoldingIsUnfolding(g, n); }
    if u :| IsUnfolding(g, u) && u.node == n {
      forall w: seq<NodeId> | Walk(g, w) && w[0] == n ensures NoDuplicates(w) { FiniteNeverRepeats(g, u, w); }
      GroundedIffLoopFree(g, n);
    }
  }

  lemma FiniteNeverRepeats(g: Graph, u: Rose, w: seq<NodeId>)
    requires IsUnfolding(g, u) && Walk(g, w) && w[0] == u.node
    ensures NoDuplicates(w)
  {
    forall i, j | 0 <= i < j < |w| ensures w[i] != w[j] {
      var upper := FollowWalk(g, u, w[..i + 1]);
      var lower := FollowWalk(g, upper, w[i..j + 1]);
      if w[i] == w[j] { OneUnfolding(g, upper, lower); }
    }
  }

  /* ----- contraction ----- */

  /** A wrapper gives way to its only surviving child, vanishes without one, and stays as a
      placeholder over several; unknown ids vanish. */
  ghost function Contract(g: Graph, u: Rose): Option<Rose>
    decreases u, 1
  {
    if !Known(g, u.node) then None else
      var survivors := ContractAll(g, u.children);
      if Operator(g, u.node) then Some(Rose(u.node, survivors))
      else if |survivors| == 1 then Some(survivors[0])
      else if survivors != [] then Some(Rose(u.node, survivors))
      else None
  }

  ghost function ContractAll(g: Graph, us: seq<Rose>): seq<Rose>
    decreases us, 0
  {
    if us == [] then [] else
      ContractAll(g, us[..|us| - 1]) +
      match Contract(g, us[|us| - 1])
      case None => []
      case Some(r) => [r]
  }

  /** The forest of operators: every other node spliced out, its children moved up in its place. */
  ghost function Erase(g: Graph, u: Rose): seq<Rose>
    decreases u, 1
  {
    if Operator(g, u.node) then [Rose(u.node, EraseAll(g, u.children))]
    else if Known(g, u.node) then EraseAll(g, u.children)
    else []
  }

  ghost function EraseAll(g: Graph, us: seq<Rose>): seq<Rose>
    decreases us, 0
  {
    if us == [] then [] else EraseAll(g, us[..|us| - 1]) + Erase(g, us[|us| - 1])
  }

  /** Every wrapper left in the tree has at least two children, and no unknown id is left. */
  ghost predicate Reduced(g: Graph, r: Rose) {
    && Known(g, r.node)
    && (Wrapper(g, r.node) ==> |r.children| >= 2)
    && forall c | c in r.children :: Reduced(g, c)
  }

  /** Contraction keeps the operator forest, keeps nothing without operators, and leaves
      wrappers only as placeholders over at least two children. */
  lemma {:induction false} ContractionKeepsOperators(g: Graph, u: Rose)
    ensures match Contract(g, u)
            case None => Erase(g, u) == []
            case Some(r) => Reduced(g, r) && Erase(g, r) == Erase(g, u) != []
    decreases u, 1
  {
    if Known(g, u.node) {
      ContractionKeepsOperatorsAll(g, u.children);
      var survivors := ContractAll(g, u.children);
      if |survivors| == 1 { assert EraseAll(g, survivors) == Erase(g, survivors[0]); }
    }
  }

  lemma {:induction false} ContractionKeepsOperatorsAll(g: Graph, us: seq<Rose>)
    ensures EraseAll(g, ContractAll(g, us)) == EraseAll(g, us)
    ensures forall r | r in ContractAll(g, us) :: Reduced(g, r)
    ensures ContractAll(g, us) == [] <==> EraseAll(g, us) == []
    decreases us, 0
  {
    if us != [] {
      var front, last := us[..|us| - 1], us[|us| - 1];
      ContractionKeepsOperatorsAll(g, front);
      ContractionKeepsOperators(g, last);
      var a := ContractAll(g, front);
      match Contract(g, last)
      case None =>
        assert ContractAll(g, us) == a;
      case Some(r) =>
        assert ContractAll(g, us) == a + [r];
        assert (a + [r])[..|a|] == a;
    }
  }

  /* ----- ancestors ----- */

  /** One entry per operator occurrence, in post-order: its operator ancestors from the top,
      itself last. */
  ghost function Lineages(g: Graph, u: Rose, above: seq<NodeId>): seq<seq<NodeId>>
    decreases u, 1
  {
    if Operator(g, u.node) then LineagesAll(g, u.children, above + [u.node]) + [above + [u.node]]
    else if Known(g, u.node) then LineagesAll(g, u.children, above)
    else []
  }

  ghost function LineagesAll(g: Graph, us: seq<Rose>, above: seq<NodeId>): seq<seq<NodeId>>
    decreases us, 0
  {
    if us == [] then [] else LineagesAll(g, us[..|us| - 1], above) + Lineages(g, us[|us| - 1], above)
  }

  lemma {:induction false} LineagesConcat(g: Graph, a: seq<Rose>, b: seq<Rose>, above: seq<NodeId>)
    ensures LineagesAll(g, a + b, above) == LineagesAll(g, a, above) + LineagesAll(g, b, above)
    decreases |b|
  {
    if b == [] {
      assert a + b == a;
    } else {
      LineagesConcat(g, a, b[..|b| - 1], above);
      assert (a + b)[..|a + b| - 1] == a + b[..|b| - 1];
    }
  }

  lemma {:induction false} LineagesOfErased(g: Graph, u: Rose, above: seq<NodeId>)
    ensures LineagesAll(g, Erase(g, u), above) == Lineages(g, u, above)
    decreases u, 1
  {
    if Operator(g, u.node) {
      LineagesOfErasedAll(g, u.children, above + [u.node]);
      var erased := Rose(u.node, EraseAll(g, u.children));
      assert LineagesAll(g, [erased], above) == LineagesAll(g, [], above) + Lineages(g, erased, above);
    } else if Known(g, u.node) {
      LineagesOfErasedAll(g, u.children, above);
    }
  }

  lemma {:induction false} LineagesOfErasedAll(g: Graph, us: seq<Rose>, above: seq<NodeId>)
    ensures LineagesAll(g, EraseAll(g, us), above) == LineagesAll(g, us, above)
    decreases us, 0
  {
    if us != [] {
      LineagesOfErasedAll(g, us[..|us| - 1], above);
      LineagesOfErased(g, us[|us| - 1], above);
      LineagesConcat(g, EraseAll(g, us[..|us| - 1]), Erase(g, us[|us| - 1]), above);
    }
  }

  /** Contraction keeps the post-order of operators and, for each, its chain of operator ancestors. */
  lemma ContractionKeepsLineages(g: Graph, u: Rose)
    ensures match Contract(g, u)
            case None => Lineages(g, u, []) == []
            case Some(r) => Lineages(g, r, []) == Lineages(g, u, []) != []
  {
    ContractionKeepsOperators(g, u);
    LineagesOfErased(g, u, []);
    match Contract(g, u)
    case None =>
    case Some(r) =>
      LineagesOfErased(g, r, []);
      var forest := Erase(g, u);
      assert Operator(g, forest[|forest| - 1].node) by { ErasedAreOperators(g, u); }
  }

  lemma {:induction false} ErasedAreOperators(g: Graph, u: Rose)
    ensures forall r | r in Erase(g, u) :: Operator(g, r.node)
    decreases u, 1
  {
    if Known(g, u.node) { ErasedAreOperatorsAll(g, u.children); }
  }

  lemma {:induction false} ErasedAreOperatorsAll(g: Graph, us: seq<Rose>)
    ensures forall r | r in EraseAll(g, us) :: Operator(g, r.node)
    decreases us, 0
  {
    if us != [] {
      ErasedAreOperatorsAll(g, us[..|us| - 1]);
      ErasedAreOperators(g, us[|us| - 1]);
    }
  }
}
