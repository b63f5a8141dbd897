/** Which nodes of the graph the plan tree shows, and how often. */
module PlanCoverage {
  import opened Sequences
  import opened PlanGraph
  import opened PlanTree

  /* ----- which nodes the tree holds ----- */

  /** How many of `us` have an operator at or below them. */
  ghost function Fruitful(g: Graph, us: seq<Rose>): nat {
    if us == [] then 0
    else Fruitful(g, us[..|us| - 1]) + if Erase(g, us[|us| - 1]) == [] then 0 else 1
  }

  /** A node the tree shows: an operator, or a wrapper with operators below two or more children. */
  ghost predicate Kept(g: Graph, n: NodeId) {
    Operator(g, n) || (Wrapper(g, n) && Grounded(g, n) && Fruitful(g, Unfolding(g, n).children) >= 2)
  }

  ghost function OnlyKept(g: Graph, ns: seq<NodeId>): seq<NodeId> {
    if ns == [] then [] else
      OnlyKept(g, ns[..|ns| - 1]) + if Kept(g, ns[|ns| - 1]) then [ns[|ns| - 1]] else []
  }

  lemma {:induction false} OnlyKeptConcat(g: Graph, a: seq<NodeId>, b: seq<NodeId>)
    ensures OnlyKept(g, a + b) == OnlyKept(g, a) + OnlyKept(g, b)
    decreases |b|
  {
    if b == [] {
      assert a + b == a;
    } else {
      OnlyKeptConcat(g, a, b[..|b| - 1]);
      assert (a + b)[..|a + b| - 1] == a + b[..|b| - 1];
    }
  }

  lemma {:induction false} OnlyKeptMembers(g: Graph, ns: seq<NodeId>)
    ensures forall n :: n in OnlyKept(g, ns) <==> n in ns && Kept(g, n)
    ensures NoDuplicates(ns) ==> NoDuplicates(OnlyKept(g, ns))
  {
    if ns != [] {
      OnlyKeptMembers(g, ns[..|ns| - 1]);
      assert ns == ns[..|ns| - 1] + [ns[|ns| - 1]];
    }
  }

  lemma {:induction false} SurvivorsAreFruitful(g: Graph, us: seq<Rose>)
    ensures |ContractAll(g, us)| == Fruitful(g, us)
  {
    if us != [] {
      SurvivorsAreFruitful(g, us[..|us| - 1]);
      ContractionKeepsOperators(g, us[|us| - 1]);
    }
  }

  ghost function Listed(tree: Option<Rose>): seq<NodeId> {
    match tree
    case None => []
    case Some(r) => PostOrder(r)
  }

  lemma ListedByContract(g: Graph, u: Rose)
    requires Known(g, u.node)
    ensures var below := PostOrderAll(ContractAll(g, u.children));
            Listed(Contract(g, u)) ==
            if Operator(g, u.node) || |ContractAll(g, u.children)| >= 2 then below + [u.node] else below
  {
    var survivors := ContractAll(g, u.children);
    if |survivors| == 1 {
      assert survivors[..0] == [];
      assert PostOrderAll(survivors) == PostOrderAll([]) + PostOrder(survivors[0]);
    }
  }

  /** The tree lists exactly the kept nodes of the unfolding, in the unfolding's post-order. */
  lemma {:induction false} ContractionListsKept(g: Graph, rank: map<NodeId, nat>, n: NodeId)
    requires Ranked(g, rank) && n in rank
    ensures Listed(Contract(g, Unfold(g, rank, n))) == OnlyKept(g, PostOrder(Unfold(g, rank, n)))
    decreases rank[n], 1
  {
    var u := Unfold(g, rank, n);
    UnfoldingByAny(g, rank, n);
    OnlyKeptConcat(g, PostOrderAll(u.children), [n]);
    assert OnlyKept(g, [n]) == OnlyKept(g, []) + if Kept(g, n) then [n] else [];
    if Known(g, n) {
      ChildrenRankBelow(g, rank, n);
      ContractionListsKeptAll(g, rank, n, Children(g.edges, n));
      SurvivorsAreFruitful(g, u.children);
      ListedByContract(g, u);
    }
  }

  lemma {:induction false} ContractionListsKeptAll(g: Graph, rank: map<NodeId, nat>, parent: NodeId, ns: seq<NodeId>)
    requires Ranked(g, rank) && RankedUnder(rank, parent, ns)
    ensures var us := UnfoldAll(g, rank, parent, ns);
            OnlyKept(g, PostOrderAll(us)) == PostOrderAll(ContractAll(g, us))
    decreases rank[parent], 0, |ns|
  {
    if ns != [] {
      var front, last := ns[..|ns| - 1], ns[|ns| - 1];
      ContractionListsKeptAll(g, rank, parent, front);
      ContractionListsKept(g, rank, last);
      var us, u := UnfoldAll(g, rank, parent, front), Unfold(g, rank, last);
      assert (us + [u])[..|us|] == us;
      OnlyKeptConcat(g, PostOrderAll(us), PostOrder(u));
      var a := ContractAll(g, us);
      match Contract(g, u)
      case None =>
        assert ContractAll(g, us + [u]) == a;
      case Some(r) =>
        assert ContractAll(g, us + [u]) == a + [r];
        assert (a + [r])[..|a|] == a;
    }
  }

  /* ----- tree-shaped graphs ----- */

  /** No two edges leave the same child. */
  ghost predicate SingleParent(edges: seq<Edge>) {
    forall i, j | 0 <= i < j < |edges| :: edges[i].child != edges[j].child
  }

  lemma {:induction false} ChildrenDistinct(edges: seq<Edge>, n: NodeId)
    requires SingleParent(edges)
    ensures NoDuplicates(Children(edges, n))
  {
    if edges != [] {
      var front, last := edges[..|edges| - 1], edges[|edges| - 1];
      ChildrenDistinct(front, n);
      ChildrenAreEdges(front, n, last.child);
    }
  }

  /** What the unfolding of `n` holds ranks no higher than `n`, and all but `n` has its parent there too. */
  lemma {:induction false} UnfoldingClosedUpward(g: Graph, rank: map<NodeId, nat>, n: NodeId, x: NodeId)
    requires Ranked(g, rank) && n in rank && x in PostOrder(Unfold(g, rank, n))
    ensures x in rank && rank[x] <= rank[n]
    ensures x == n || exists p :: Edge(x, p) in g.edges && Known(g, p) && p in PostOrder(Unfold(g, rank, n))
    decreases rank[n], 1
  {
    if x != n {
      var cs := Children(g.edges, n);
      ChildrenRankBelow(g, rank, n);
      var i := ChildHolding(g, rank, n, cs, x);
      ChildrenAreEdges(g.edges, n, cs[i]);
      UnfoldingClosedUpward(g, rank, cs[i], x);
      if x == cs[i] {
        assert Edge(x, n) in g.edges && n in PostOrder(Unfold(g, rank, n));
      } else {
        var p :| Edge(x, p) in g.edges && Known(g, p) && p in PostOrder(Unfold(g, rank, cs[i]));
        ChildPartOfAll(g, rank, n, cs, i);
      }
    }
  }

  lemma {:induction false} ChildHolding(g: Graph, rank: map<NodeId, nat>, parent: NodeId, ns: seq<NodeId>, x: NodeId)
    returns (i: nat)
    requires Ranked(g, rank) && RankedUnder(rank, parent, ns)
    requires x in PostOrderAll(UnfoldAll(g, rank, parent, ns))
    ensures i < |ns| && x in PostOrder(Unfold(g, rank, ns[i]))
    decreases |ns|
  {
    var front, last := ns[..|ns| - 1], ns[|ns| - 1];
    var us := UnfoldAll(g, rank, parent, front);
    assert (us + [Unfold(g, rank, last)])[..|us|] == us;
    if x in PostOrder(Unfold(g, rank, last)) {
      i := |ns| - 1;
    } else {
      i := ChildHolding(g, rank, parent, front, x);
    }
  }

  lemma {:induction false} ChildPartOfAll(g: Graph, rank: map<NodeId, nat>, parent: NodeId, ns: seq<NodeId>, i: nat)
    requires Ranked(g, rank) && RankedUnder(rank, parent, ns)
    requires i < |ns|
    ensures forall x | x in PostOrder(Unfold(g, rank, ns[i])) :: x in PostOrderAll(UnfoldAll(g, rank, parent, ns))
    decreases |ns|
  {
    var front, last := ns[..|ns| - 1], ns[|ns| - 1];
    var us := UnfoldAll(g, rank, parent, front);
    assert (us + [Unfold(g, rank, last)])[..|us|] == us;
    if i < |front| { ChildPartOfAll(g, rank, parent, front, i); }
  }

  /** With single parents, siblings unfold to disjoint sets of nodes. */
  lemma {:induction false} SiblingsDisjoint(g: Graph, rank: map<NodeId, nat>, n: NodeId, a: NodeId, b: NodeId,
                                            x: NodeId)
    requires Ranked(g, rank) && SingleParent(g.edges) && RankedUnder(rank, n, [a, b])
    requires Edge(a, n) in g.edges && Edge(b, n) in g.edges && a != b
    requires x in PostOrder(Unfold(g, rank, a)) && x in rank && rank[x] <= rank[n]
    ensures x !in PostOrder(Unfold(g, rank, b))
    decreases rank[n] - rank[x]
  {
    if x in PostOrder(Unfold(g, rank, b)) {
      UnfoldingClosedUpward(g, rank, a, x);
      UnfoldingClosedUpward(g, rank, b, x);
      if x != a && x != b {
        var p :| Edge(x, p) in g.edges && Known(g, p) && p in PostOrder(Unfold(g, rank, a));
        var q :| Edge(x, q) in g.edges && Known(g, q) && q in PostOrder(Unfold(g, rank, b));
        assert p == q;
        UnfoldingClosedUpward(g, rank, a, p);
        assert rank[Edge(x, p).child] < rank[p];
        SiblingsDisjoint(g, rank, n, a, b, p);
      } else if x == a {
        UnfoldingClosedUpward(g, rank, b, n);
      } else {
        UnfoldingClosedUpward(g, rank, a, n);
      }
    }
  }

  lemma {:induction false} UnfoldingNeverRepeats(g: Graph, rank: map<NodeId, nat>, n: NodeId)
    requires Ranked(g, rank) && n in rank && SingleParent(g.edges)
    ensures NoDuplicates(PostOrder(Unfold(g, rank, n)))
    decreases rank[n], 1
  {
    if Known(g, n) {
      var cs := Children(g.edges, n);
      ChildrenRankBelow(g, rank, n);
      ChildrenDistinct(g.edges, n);
      forall c | c in cs ensures Edge(c, n) in g.edges { ChildrenAreEdges(g.edges, n, c); }
      UnfoldingNeverRepeatsAll(g, rank, n, cs);
      var below := PostOrderAll(UnfoldAll(g, rank, n, cs));
      if n in below {
        var i := ChildHolding(g, rank, n, cs, n);
        UnfoldingClosedUpward(g, rank, cs[i], n);
      }
      assert PostOrder(Unfold(g, rank, n)) == below + [n];
    }
  }

  lemma {:induction false} UnfoldingNeverRepeatsAll(g: Graph, rank: map<NodeId, nat>, parent: NodeId, ns: seq<NodeId>)
    requires Ranked(g, rank) && SingleParent(g.edges) && NoDuplicates(ns)
    requires RankedUnder(rank, parent, ns) && forall c | c in ns :: Edge(c, parent) in g.edges
    ensures NoDuplicates(PostOrderAll(UnfoldAll(g, rank, parent, ns)))
    decreases rank[parent], 0, |ns|
  {
    if ns != [] {
      var front, last := ns[..|ns| - 1], ns[|ns| - 1];
      UnfoldingNeverRepeatsAll(g, rank, parent, front);
      UnfoldingNeverRepeats(g, rank, last);
      var us := UnfoldAll(g, rank, parent, front);
      assert (us + [Unfold(g, rank, last)])[..|us|] == us;
      forall x | x in PostOrderAll(us) ensures x !in PostOrder(Unfold(g, rank, last)) {
        var i := ChildHolding(g, rank, parent, front, x);
        assert front[i] == ns[i];
        UnfoldingClosedUpward(g, rank, front[i], x);
        SiblingsDisjoint(g, rank, parent, front[i], last, x);
      }
      NoDuplicatesConcat(PostOrderAll(us), PostOrder(Unfold(g, rank, last)));
    }
  }

  lemma ChildUnfoldsInside(g: Graph, rank: map<NodeId, nat>, e: Edge)
    requires Ranked(g, rank) && e in g.edges && Known(g, e.parent) && e.parent in rank
    ensures e.child in rank
    ensures forall x | x in PostOrder(Unfold(g, rank, e.child)) :: x in PostOrder(Unfold(g, rank, e.parent))
  {
    var cs := Children(g.edges, e.parent);
    ChildrenAreEdges(g.edges, e.parent, e.child);
    ChildrenRankBelow(g, rank, e.parent);
    var i :| 0 <= i < |cs| && cs[i] == e.child;
    ChildPartOfAll(g, rank, e.parent, cs, i);
  }

  lemma {:induction false} UnfoldingFollowsWalks(g: Graph, rank: map<NodeId, nat>, w: seq<NodeId>)
    requires Ranked(g, rank) && Walk(g, w) && w[0] in rank
    ensures w[|w| - 1] in PostOrder(Unfold(g, rank, w[0]))
    decreases |w|
  {
    if |w| > 1 {
      ChildUnfoldsInside(g, rank, Edge(w[1], w[0]));
      UnfoldingFollowsWalks(g, rank, w[1..]);
    }
  }

  lemma UnfoldingHoldsKnown(g: Graph, n: NodeId, x: NodeId)
    requires Grounded(g, n) && EndsKnown(g) && Known(g, n) && x in PostOrder(Unfolding(g, n))
    ensures Known(g, x)
  {
    var rank := UnfoldingRank(g, n);
    UnfoldingClosedUpward(g, rank, n, x);
  }

  lemma {:induction false} CountDistinct(ns: seq<NodeId>, s: set<NodeId>)
    requires NoDuplicates(ns) && forall n :: n in ns <==> n in s
    ensures |ns| == |s|
  {
    if ns == [] {
      assert s == {};
    } else {
      var rest := ns[1..];
      forall n ensures n in rest <==> n in s - {ns[0]} {
        assert n in ns <==> n == ns[0] || n in rest;
        if n in rest {
          var i :| 0 <= i < |rest| && rest[i] == n;
          assert ns[i + 1] == n;
        }
      }
      CountDistinct(rest, s - {ns[0]});
    }
  }

  lemma OneRootUnfoldsAll(g: Graph, root: NodeId)
    requires AllGrounded(g) && EndsKnown(g) && Roots(g) == [root]
    ensures forall n :: n in PostOrder(Unfolding(g, root)) <==> n in Keys(g.nodes)
  {
    RootsReachEverything(g);
    RootMembers(g, root);
    forall n ensures n in PostOrder(Unfolding(g, root)) <==> n in Keys(g.nodes) {
      KnownIffKey(g, n);
      if Known(g, n) {
        assert ReachedFromRoot(g, n);
        var w :| Walk(g, w) && w[0] in Roots(g) && w[|w| - 1] == n;
        var rank := UnfoldingRank(g, root);
        UnfoldingFollowsWalks(g, rank, w);
      }
      if n in PostOrder(Unfolding(g, root)) { UnfoldingHoldsKnown(g, root, n); }
    }
  }

  /** The tree below a node lists the kept nodes of its unfolding, in the unfolding's post-order. */
  lemma TreeListsKept(g: Graph, n: NodeId)
    requires Grounded(g, n)
    ensures Listed(Contract(g, Unfolding(g, n))) == OnlyKept(g, PostOrder(Unfolding(g, n)))
  {
    var rank := UnfoldingRank(g, n);
    ContractionListsKept(g, rank, n);
  }

  /** A graph whose nodes have at most one parent each and that has one root is unfolded without
      repetition or loss, so the tree shows each operator once, plus the branching wrappers. */
  lemma TreeShapedGraph(g: Graph, root: NodeId)
    requires AllGrounded(g) && EndsKnown(g) && SingleParent(g.edges) && Roots(g) == [root]
    ensures var listed := Listed(Contract(g, Unfolding(g, root)));
            var kept := set n | n in Keys(g.nodes) && Kept(g, n);
            NoDuplicates(listed) && (forall n :: n in listed <==> n in kept) && |listed| == |kept|
  {
    var all := PostOrder(Unfolding(g, root));
    var kept := set n | n in Keys(g.nodes) && Kept(g, n);
    var rank := UnfoldingRank(g, root);
    UnfoldingNeverRepeats(g, rank, root);
    OneRootUnfoldsAll(g, root);
    TreeListsKept(g, root);
    OnlyKeptMembers(g, all);
    CountDistinct(OnlyKept(g, all), kept);
  }
}
