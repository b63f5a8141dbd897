/** The plan graph read from Spark's status store: listed nodes and child-to-parent
    edges, the roots, and what it takes for the recursive tree builder to stop. */
module PlanGraph {
  import opened Sequences

  /** Spark numbers plan nodes upwards from 0. */
  type NodeId = nat

  /** `name` is the operator name cut from the description's first line; the display
      texts and formatted metrics of a node are taken as given. */
  datatype PlanNode = PlanNode(id: NodeId, name: string, kind: string, detail: string, fullDetail: string,
                               metrics: map<string, string>)

  /** Spark's edges run from the child (`fromId`) to the parent (`toId`). */
  datatype Edge = Edge(child: NodeId, parent: NodeId)

  /** A plan graph, and the operator names that the tree leaves out. */
  datatype Graph = Graph(nodes: seq<PlanNode>, edges: seq<Edge>, skipped: set<string>)

  /** The node that `node_map[n]` holds: a later listing of an id overwrites an earlier one. */
  function Lookup(nodes: seq<PlanNode>, n: NodeId): Option<PlanNode> {
    if nodes == [] then None
    else if nodes[|nodes| - 1].id == n then Some(nodes[|nodes| - 1])
    else Lookup(nodes[..|nodes| - 1], n)
  }

  predicate Known(g: Graph, n: NodeId) { Lookup(g.nodes, n).Some? }

  /** A wrapper that the tree leaves out. */
  predicate Wrapper(g: Graph, n: NodeId) { Known(g, n) && Lookup(g.nodes, n).value.name in g.skipped }

  predicate Operator(g: Graph, n: NodeId) { Known(g, n) && !Wrapper(g, n) }

  function IdList(nodes: seq<PlanNode>): seq<NodeId> { seq(|nodes|, i requires 0 <= i < |nodes| => nodes[i].id) }

  /** The keys of `node_map` in insertion order. */
  function Keys(nodes: seq<PlanNode>): seq<NodeId> { Distinct(IdList(nodes)) }

  /** The list `children_map.get(n, [])`. */
  function Children(edges: seq<Edge>, n: NodeId): seq<NodeId> {
    if edges == [] then [] else
      var last := edges[|edges| - 1];
      Children(edges[..|edges| - 1], n) + if last.parent == n then [last.child] else []
  }

  function ChildIds(edges: seq<Edge>): set<NodeId> { set e | e in edges :: e.child }

  function Without(ns: seq<NodeId>, drop: set<NodeId>): seq<NodeId> {
    if ns == [] then [] else
      Without(ns[..|ns| - 1], drop) + if ns[|ns| - 1] in drop then [] else [ns[|ns| - 1]]
  }

  /** `root_ids`: the known nodes that are nobody's child, in listing order. */
  function Roots(g: Graph): seq<NodeId> { Without(Keys(g.nodes), ChildIds(g.edges)) }

  ghost predicate EndsKnown(g: Graph) { forall e | e in g.edges :: Known(g, e.child) && Known(g, e.parent) }

  lemma {:induction false} LookupListed(nodes: seq<PlanNode>, n: NodeId)
    ensures Lookup(nodes, n).Some? <==> n in IdList(nodes)
    ensures Lookup(nodes, n).Some? ==> Lookup(nodes, n).value in nodes && Lookup(nodes, n).value.id == n
  {
    if nodes != [] {
      var front, ids := nodes[..|nodes| - 1], IdList(nodes);
      LookupListed(front, n);
      assert ids == IdList(front) + [nodes[|nodes| - 1].id];
    }
  }

  /** Node `n` is listed at position `j`, and nowhere after it. */
  ghost predicate LastListing(nodes: seq<PlanNode>, n: NodeId, j: nat) {
    j < |nodes| && nodes[j].id == n && forall k | j < k < |nodes| :: nodes[k].id != n
  }

  /** A known node is what its last listing says. */
  lemma {:induction false} LookupMeaning(nodes: seq<PlanNode>, n: NodeId) returns (j: nat)
    ensures match Lookup(nodes, n)
            case None => forall k | 0 <= k < |nodes| :: nodes[k].id != n
            case Some(p) => LastListing(nodes, n, j) && p == nodes[j]
  {
    if nodes == [] {
      j := 0;
    } else if nodes[|nodes| - 1].id == n {
      j := |nodes| - 1;
    } else {
      j := LookupMeaning(nodes[..|nodes| - 1], n);
    }
  }

  lemma KnownIffKey(g: Graph, n: NodeId)
    ensures Known(g, n) <==> n in Keys(g.nodes)
  {
    LookupListed(g.nodes, n);
  }

  lemma {:induction false} ChildrenAreEdges(edges: seq<Edge>, n: NodeId, c: NodeId)
    ensures c in Children(edges, n) <==> Edge(c, n) in edges
  {
    if edges != [] {
      var front, last := edges[..|edges| - 1], edges[|edges| - 1];
      ChildrenAreEdges(front, n, c);
      assert edges == front + [last];
    }
  }

  ghost function Into(n: NodeId): Edge -> bool { (e: Edge) => e.parent == n }

  ghost predicate ChildrenOf(es: seq<Edge>, cs: seq<NodeId>) {
    |cs| == |es| && forall i | 0 <= i < |es| :: cs[i] == es[i].child
  }

  /** A node's children are those of the edges into it, in edge order: none left out, none twice. */
  lemma {:induction false} ChildrenMeaning(edges: seq<Edge>, n: NodeId)
    ensures ChildrenOf(Filter(edges, Into(n)), Children(edges, n))
  {
    if edges != [] { ChildrenMeaning(edges[..|edges| - 1], n); }
  }

  ghost predicate IsChild(edges: seq<Edge>, n: NodeId) { exists i :: 0 <= i < |edges| && edges[i].child == n }

  ghost function NoChildOf(edges: seq<Edge>): NodeId -> bool { (n: NodeId) => !IsChild(edges, n) }

  lemma {:induction false} WithoutFilters(ns: seq<NodeId>, drop: set<NodeId>, keep: NodeId -> bool)
    requires forall n :: keep(n) <==> n !in drop
    ensures Without(ns, drop) == Filter(ns, keep)
  {
    if ns != [] { WithoutFilters(ns[..|ns| - 1], drop, keep); }
  }

  lemma {:induction false} WithoutMembers(ns: seq<NodeId>, drop: set<NodeId>, n: NodeId)
    ensures n in Without(ns, drop) <==> n in ns && n !in drop
  {
    if ns != [] {
      WithoutMembers(ns[..|ns| - 1], drop, n);
      assert ns == ns[..|ns| - 1] + [ns[|ns| - 1]];
    }
  }

  lemma RootMembers(g: Graph, n: NodeId)
    ensures n in Roots(g) <==> Known(g, n) && n !in ChildIds(g.edges)
  {
    WithoutMembers(Keys(g.nodes), ChildIds(g.edges), n);
    KnownIffKey(g, n);
  }

  lemma ChildIdsMeaning(edges: seq<Edge>, n: NodeId)
    ensures n in ChildIds(edges) <==> IsChild(edges, n)
  {
    if i :| 0 <= i < |edges| && edges[i].child == n { assert edges[i] in edges; }
  }

  /** The distinct listed ids, in order of first listing. */
  ghost predicate ListsIds(nodes: seq<PlanNode>, ids: seq<NodeId>) {
    && NoDuplicates(ids) && InFirstOrder(IdList(nodes), ids)
    && forall n :: n in ids <==> exists i :: 0 <= i < |nodes| && nodes[i].id == n
  }

  /** The root ids are the listed ids that no edge has for its child, each once, in order of first listing. */
  lemma RootsMeaning(g: Graph) returns (ids: seq<NodeId>)
    ensures ListsIds(g.nodes, ids) && Roots(g) == Filter(ids, NoChildOf(g.edges))
  {
    ids := Keys(g.nodes);
    DistinctProperties(IdList(g.nodes));
    forall n ensures n in ids <==> exists i :: 0 <= i < |g.nodes| && g.nodes[i].id == n {
      if i :| 0 <= i < |g.nodes| && g.nodes[i].id == n { assert IdList(g.nodes)[i] == n; }
    }
    forall n ensures NoChildOf(g.edges)(n) <==> n !in ChildIds(g.edges) { ChildIdsMeaning(g.edges, n); }
    WithoutFilters(ids, ChildIds(g.edges), NoChildOf(g.edges));
  }

  /* ----- where the recursion stops ----- */

  /** A walk as `build_node` takes it: from parents down to children, entering only known nodes. */
  ghost predicate Walk(g: Graph, w: seq<NodeId>) {
    w != [] && forall i | 0 <= i < |w| - 1 :: Known(g, w[i]) && Edge(w[i + 1], w[i]) in g.edges
  }

  /** No walk from `n` meets a node twice. */
  ghost predicate LoopFree(g: Graph, n: NodeId) {
    forall w: seq<NodeId> | Walk(g, w) && w[0] == n :: NoDuplicates(w)
  }

  /** No walk comes back to where it began. */
  ghost predicate Acyclic(g: Graph) { forall w: seq<NodeId> | Walk(g, w) && |w| >= 2 :: w[0] != w[|w| - 1] }

  /** The ranked nodes' children are ranked, each below its parent. */
  ghost predicate Ranked(g: Graph, rank: map<NodeId, nat>) {
    forall e | e in g.edges && Known(g, e.parent) && e.parent in rank ::
      e.child in rank && rank[e.child] < rank[e.parent]
  }

  /** Some measure shows the recursion below `n` to stop. */
  ghost predicate Grounded(g: Graph, n: NodeId) { exists rank :: Ranked(g, rank) && n in rank }

  ghost predicate AllGrounded(g: Graph) { forall n :: Grounded(g, n) }

  lemma {:induction false} WalksDescend(g: Graph, rank: map<NodeId, nat>, w: seq<NodeId>, i: nat, j: nat)
    requires Ranked(g, rank) && Walk(g, w) && w[0] in rank && i <= j < |w|
    ensures w[i] in rank && w[j] in rank && rank[w[j]] + (j - i) <= rank[w[i]]
    decreases j
  {
    if i < j {
      WalksDescend(g, rank, w, i, j - 1);
      assert Edge(w[j - 1 + 1], w[j - 1]) in g.edges;
    } else if i > 0 {
      WalksDescend(g, rank, w, i - 1, i - 1);
      assert Edge(w[i - 1 + 1], w[i - 1]) in g.edges;
    }
  }

  lemma WalkOn(g: Graph, w: seq<NodeId>, tail: seq<NodeId>)
    requires Walk(g, w) && Walk(g, tail) && tail[0] == w[|w| - 1]
    ensures Walk(g, w + tail[1..]) && (w + tail[1..])[|w| - 1..] == tail
  {
    var all := w + tail[1..];
    assert forall i | |w| - 1 <= i < |all| :: all[i] == tail[i - (|w| - 1)];
    forall i | 0 <= i < |all| - 1 ensures Known(g, all[i]) && Edge(all[i + 1], all[i]) in g.edges {
      if i >= |w| - 1 { assert Edge(tail[i - |w| + 1 + 1], tail[i - |w| + 1]) in g.edges; }
    }
  }

  /* ----- a ranking for what a node reaches ----- */

  ghost predicate LoopFreeIn(g: Graph, s: set<NodeId>) {
    forall w: seq<NodeId> | Walk(g, w) && (forall n | n in w :: n in s) :: NoDuplicates(w)
  }

  ghost predicate HasChildIn(g: Graph, s: set<NodeId>, p: NodeId) {
    Known(g, p) && exists c :: c in s && Edge(c, p) in g.edges
  }

  /** Were every member of `s` to have a child in `s`, walks inside `s` could be as long as one likes. */
  lemma {:induction false} LongWalk(g: Graph, s: set<NodeId>, start: NodeId, k: nat) returns (w: seq<NodeId>)
    requires start in s && forall p | p in s :: HasChildIn(g, s, p)
    ensures Walk(g, w) && |w| == k + 1 && w[0] == start && forall n | n in w :: n in s
    decreases k
  {
    if k == 0 {
      w := [start];
    } else {
      assert HasChildIn(g, s, start);
      var c :| c in s && Edge(c, start) in g.edges;
      var tail := LongWalk(g, s, c, k - 1);
      w := [start] + tail;
    }
  }

  lemma BottomExists(g: Graph, s: set<NodeId>) returns (bottom: NodeId)
    requires LoopFreeIn(g, s) && s != {}
    ensures bottom in s && !HasChildIn(g, s, bottom)
  {
    if forall p | p in s :: HasChildIn(g, s, p) {
      var start :| start in s;
      var w := LongWalk(g, s, start, |s|);
      Pigeonhole(w, s);
      assert false;
    }
    bottom :| bottom in s && !HasChildIn(g, s, bottom);
  }

  /** Peel bottoms off `s` one at a time. */
  lemma {:induction false} RankWithin(g: Graph, s: set<NodeId>) returns (rank: map<NodeId, nat>)
    requires LoopFreeIn(g, s)
    ensures rank.Keys == s
    ensures forall e | e in g.edges && Known(g, e.parent) && e.child in s && e.parent in s ::
              rank[e.child] < rank[e.parent]
    decreases s
  {
    if s == {} {
      rank := map[];
    } else {
      var bottom := BottomExists(g, s);
      var above := RankWithin(g, s - {bottom});
      rank := map n | n in s :: if n == bottom then 0 else above[n] + 1;
      forall e | e in g.edges && Known(g, e.parent) && e.child in s && e.parent in s
        ensures rank[e.child] < rank[e.parent]
      {
        assert e == Edge(e.child, e.parent);
      }
    }
  }

  ghost predicate Reaches(g: Graph, n: NodeId, m: NodeId) {
    exists w :: Walk(g, w) && w[0] == n && w[|w| - 1] == m
  }

  ghost function Below(g: Graph, n: NodeId): set<NodeId> {
    set m | m in {n} + ChildIds(g.edges) && Reaches(g, n, m)
  }

  lemma BelowIsClosed(g: Graph, n: NodeId, e: Edge)
    requires e in g.edges && Known(g, e.parent) && e.parent in Below(g, n)
    ensures e.child in Below(g, n)
  {
    var w :| Walk(g, w) && w[0] == n && w[|w| - 1] == e.parent;
    assert e == Edge(e.child, e.parent);
    assert Walk(g, [e.parent, e.child]);
    WalkOn(g, w, [e.parent, e.child]);
    assert Walk(g, w + [e.child]) by { assert [e.parent, e.child][1..] == [e.child]; }
    assert Reaches(g, n, e.child) by { assert (w + [e.child])[0] == n; }
  }

  lemma SuffixHasNoDuplicates(all: seq<NodeId>, k: nat)
    requires NoDuplicates(all) && k <= |all|
    ensures NoDuplicates(all[k..])
  {
  }

  lemma WalkBelowIsLoopFree(g: Graph, n: NodeId, w: seq<NodeId>)
    requires LoopFree(g, n) && Walk(g, w) && Reaches(g, n, w[0])
    ensures NoDuplicates(w)
  {
    var down :| Walk(g, down) && down[0] == n && down[|down| - 1] == w[0];
    WalkOn(g, down, w);
    SuffixHasNoDuplicates(down + w[1..], |down| - 1);
  }

  lemma LoopFreeBelow(g: Graph, n: NodeId)
    requires LoopFree(g, n)
    ensures LoopFreeIn(g, Below(g, n))
  {
    forall w: seq<NodeId> | Walk(g, w) && (forall m | m in w :: m in Below(g, n)) ensures NoDuplicates(w) {
      assert w[0] in Below(g, n);
      WalkBelowIsLoopFree(g, n, w);
    }
  }

  /** Below a node no walk meets a node twice exactly when some ranking puts children below their
      parents: the measure on which the builder's recursion, without a visited set, stops. */
  lemma GroundedIffLoopFree(g: Graph, n: NodeId)
    ensures Grounded(g, n) <==> LoopFree(g, n)
  {
    if LoopFree(g, n) {
      LoopFreeBelow(g, n);
      var rank := RankWithin(g, Below(g, n));
      forall e | e in g.edges && Known(g, e.parent) && e.parent in rank
        ensures e.child in rank && rank[e.child] < rank[e.parent]
      {
        BelowIsClosed(g, n, e);
      }
      assert Walk(g, [n]) && n in rank;
      assert Ranked(g, rank);
    }
    if Grounded(g, n) {
      var rank :| Ranked(g, rank) && n in rank;
      forall w: seq<NodeId> | Walk(g, w) && w[0] == n ensures NoDuplicates(w) {
        forall i, j | 0 <= i < j < |w| ensures w[i] != w[j] { WalksDescend(g, rank, w, i, j); }
      }
    }
  }

  /** A graph has no closed walk exactly when the recursion stops below every node. */
  lemma AcyclicIffGrounded(g: Graph)
    ensures Acyclic(g) <==> AllGrounded(g)
  {
    forall n ensures Grounded(g, n) <==> LoopFree(g, n) { GroundedIffLoopFree(g, n); }
    if Acyclic(g) {
      forall n ensures LoopFree(g, n) {
        forall w: seq<NodeId> | Walk(g, w) && w[0] == n ensures NoDuplicates(w) { WalksNeverRepeat(g, w); }
      }
    } else {
      var w :| Walk(g, w) && |w| >= 2 && w[0] == w[|w| - 1];
      assert !LoopFree(g, w[0]);
    }
  }

  lemma WalksNeverRepeat(g: Graph, w: seq<NodeId>)
    requires Acyclic(g) && Walk(g, w)
    ensures NoDuplicates(w)
  {
    forall i, j | 0 <= i < j < |w| ensures w[i] != w[j] {
      assert Walk(g, w[i..j + 1]);
    }
  }

  /** An acyclic graph has one ranking for any nodes together. */
  lemma AcyclicIsRanked(g: Graph, ns: set<NodeId>) returns (rank: map<NodeId, nat>)
    requires AllGrounded(g)
    ensures Ranked(g, rank) && ns <= rank.Keys
  {
    AcyclicIffGrounded(g);
    var all := ns + ChildIds(g.edges);
    forall w: seq<NodeId> | Walk(g, w) ensures NoDuplicates(w) { WalksNeverRepeat(g, w); }
    rank := RankWithin(g, all);
  }

  /* ----- roots ----- */

  /** Some walk leads from a root down to `n`. */
  ghost predicate ReachedFromRoot(g: Graph, n: NodeId) {
    exists w :: Walk(g, w) && w[0] in Roots(g) && w[|w| - 1] == n
  }

  lemma {:induction false} ClimbToRoot(g: Graph, rank: map<NodeId, nat>, n: NodeId, top: nat)
    requires EndsKnown(g) && Ranked(g, rank) && Known(g, n)
    requires forall m | Known(g, m) :: m in rank && rank[m] <= top
    ensures ReachedFromRoot(g, n)
    decreases top - rank[n]
  {
    RootMembers(g, n);
    if n in Roots(g) {
      assert Walk(g, [n]);
    } else {
      var e :| e in g.edges && e.child == n;
      ClimbToRoot(g, rank, e.parent, top);
      var w :| Walk(g, w) && w[0] in Roots(g) && w[|w| - 1] == e.parent;
      assert e == Edge(n, e.parent);
      assert Walk(g, w + [n]) && (w + [n])[0] == w[0];
    }
  }

  ghost function MaxRank(rank: map<NodeId, nat>): (top: nat)
    ensures forall n | n in rank :: rank[n] <= top
    decreases |rank|
  {
    if rank == map[] then 0 else
      var n :| n in rank;
      var rest := MaxRank(rank - {n});
      assert forall m | m in rank && m != n :: m in rank - {n};
      if rank[n] > rest then rank[n] else rest
  }

  /** In a non-empty acyclic graph with known edge ends there is a root, and every node hangs below one. */
  lemma RootsReachEverything(g: Graph)
    requires AllGrounded(g) && EndsKnown(g)
    ensures forall n | Known(g, n) :: ReachedFromRoot(g, n)
    ensures g.nodes != [] ==> Roots(g) != []
  {
    var rank := AcyclicIsRanked(g, set n | n in Keys(g.nodes));
    forall n | Known(g, n) ensures ReachedFromRoot(g, n) {
      forall m | Known(g, m) ensures m in rank { KnownIffKey(g, m); }
      ClimbToRoot(g, rank, n, MaxRank(rank));
    }
    if g.nodes != [] {
      assert g.nodes[0].id == IdList(g.nodes)[0];
      LookupListed(g.nodes, g.nodes[0].id);
      assert ReachedFromRoot(g, g.nodes[0].id);
    }
  }
}
