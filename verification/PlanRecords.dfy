/** The numbered records of the plan tree, as functions of the contracted shape. */
module PlanRecords {
  import opened Sequences
  import opened PlanGraph
  import opened PlanTree
  import opened PlanCoverage

  /** The display part of a tree dict. */
  datatype Info = Info(name: string, kind: string, detail: string, fullDetail: string, metrics: map<string, string>)

  datatype Record = Record(id: nat, info: Info, children: seq<Record>)

  /** `_clean_node_name` */
  function CleanNodeName(name: string): string {
    if "Batched" <= name && |name| > |"Batched"| then name[|"Batched"|..] else name
  }

  /** What a builder shows of each node. */
  type Display = NodeId -> Info

  ghost function Size(r: Rose): nat
    decreases r, 1
  {
    1 + SizeAll(r.children)
  }

  ghost function SizeAll(rs: seq<Rose>): nat
    decreases rs, 0
  {
    if rs == [] then 0 else SizeAll(rs[..|rs| - 1]) + Size(rs[|rs| - 1])
  }

  /** The record of `r` when the shared counter stands at `c`: children first, then the node itself. */
  ghost function Emit(show: Display, r: Rose, c: nat): Record
    decreases r, 1
  {
    Record(c + SizeAll(r.children) + 1, show(r.node), EmitAll(show, r.children, c))
  }

  ghost function EmitAll(show: Display, rs: seq<Rose>, c: nat): seq<Record>
    decreases rs, 0
  {
    if rs == [] then [] else
      EmitAll(show, rs[..|rs| - 1], c) +
      [Emit(show, rs[|rs| - 1], c + SizeAll(rs[..|rs| - 1]))]
  }

  ghost function EmitIfAny(show: Display, shape: Option<Rose>, c: nat): Option<Record> {
    match shape
    case None => None
    case Some(r) => Some(Emit(show, r, c))
  }

  ghost function SizeIfAny(shape: Option<Rose>): nat {
    match shape
    case None => 0
    case Some(r) => Size(r)
  }

  /** `_count_nodes` */
  function CountNodes(t: Record): nat
    decreases t, 1
  {
    1 + CountAll(t.children)
  }

  function CountAll(ts: seq<Record>): nat
    decreases ts, 0
  {
    if ts == [] then 0 else CountAll(ts[..|ts| - 1]) + CountNodes(ts[|ts| - 1])
  }

  /** Ids and display parts in post-order. */
  ghost function Entries(t: Record): seq<(nat, Info)>
    decreases t, 1
  {
    EntriesAll(t.children) + [(t.id, t.info)]
  }

  ghost function EntriesAll(ts: seq<Record>): seq<(nat, Info)>
    decreases ts, 0
  {
    if ts == [] then [] else EntriesAll(ts[..|ts| - 1]) + Entries(ts[|ts| - 1])
  }

  /** The nodes `ns` numbered upwards from `c + 1`. */
  ghost function Numbered(show: Display, ns: seq<NodeId>, c: nat): seq<(nat, Info)> {
    seq(|ns|, i requires 0 <= i < |ns| => (c + 1 + i, show(ns[i])))
  }

  lemma NumberedConcat(show: Display, a: seq<NodeId>, b: seq<NodeId>, c: nat)
    ensures Numbered(show, a + b, c) == Numbered(show, a, c) + Numbered(show, b, c + |a|)
  {
  }

  /** Ids run 1, 2, 3, ... in post-order from the counter, each record showing its own source node. */
  lemma {:induction false} Numbering(show: Display, r: Rose, c: nat)
    ensures var t := Emit(show, r, c);
            && Entries(t) == Numbered(show, PostOrder(r), c)
            && CountNodes(t) == |PostOrder(r)| == Size(r)
            && t.id == c + CountNodes(t)
    decreases r, 1
  {
    NumberingAll(show, r.children, c);
    NumberedConcat(show, PostOrderAll(r.children), [r.node], c);
  }

  lemma OneMoreRecord(ts: seq<Record>, t: Record)
    ensures EntriesAll(ts + [t]) == EntriesAll(ts) + Entries(t) && CountAll(ts + [t]) == CountAll(ts) + CountNodes(t)
  {
    assert (ts + [t])[..|ts|] == ts;
  }

  lemma NumberedMore(show: Display, a: seq<NodeId>, b: seq<NodeId>, c: nat, ts: seq<Record>, t: Record)
    requires EntriesAll(ts) == Numbered(show, a, c) && Entries(t) == Numbered(show, b, c + |a|)
    ensures EntriesAll(ts + [t]) == Numbered(show, a + b, c)
  {
    OneMoreRecord(ts, t);
    NumberedConcat(show, a, b, c);
  }

  lemma {:induction false} NumberingAll(show: Display, rs: seq<Rose>, c: nat)
    ensures var ts := EmitAll(show, rs, c);
            && EntriesAll(ts) == Numbered(show, PostOrderAll(rs), c)
            && CountAll(ts) == |PostOrderAll(rs)| == SizeAll(rs)
    decreases rs, 0
  {
    if rs != [] {
      var front, last := rs[..|rs| - 1], rs[|rs| - 1];
      NumberingAll(show, front, c);
      Numbering(show, last, c + SizeAll(front));
      var ts, t := EmitAll(show, front, c), Emit(show, last, c + SizeAll(front));
      OneMoreRecord(ts, t);
      NumberedMore(show, PostOrderAll(front), PostOrder(last), c, ts, t);
    }
  }

  /* ----- the two builders ----- */

  /** What `_build_tree_from_graph` shows of a node. */
  ghost function LiveInfo(g: Graph, n: NodeId): Info {
    match Lookup(g.nodes, n)
    case None => Info("", "", "", "", map[])
    case Some(p) =>
      if p.name in g.skipped then Info(p.name, "transform", "", "", map[])
      else Info(CleanNodeName(p.name), p.kind, p.detail, p.fullDetail, p.metrics)
  }

  /** What `_build_tree_from_initial_plan` shows of a node; its plan has no metrics to read. */
  ghost function PlainInfo(g: Graph, n: NodeId): Info {
    match Lookup(g.nodes, n)
    case None => Info("", "", "", "", map[])
    case Some(p) =>
      if p.name in g.skipped then Info(p.name, "transform", "", "", map[])
      else Info(CleanNodeName(p.name), p.kind, p.detail, p.fullDetail, map[])
  }

  ghost function Live(g: Graph): Display { (n: NodeId) => LiveInfo(g, n) }

  ghost function Plain(g: Graph): Display { (n: NodeId) => PlainInfo(g, n) }

  function DropMetrics(t: Record): Record
    decreases t, 1
  {
    Record(t.id, t.info.(metrics := map[]), DropMetricsAll(t.children))
  }

  function DropMetricsAll(ts: seq<Record>): seq<Record>
    decreases ts, 0
  {
    if ts == [] then [] else DropMetricsAll(ts[..|ts| - 1]) + [DropMetrics(ts[|ts| - 1])]
  }

  /** From one shape and counter, the builder without metrics gives the other's tree, metrics aside. */
  lemma {:induction false} BuildersAgree(g: Graph, r: Rose, c: nat)
    ensures DropMetrics(Emit(Live(g), r, c)) == Emit(Plain(g), r, c)
    decreases r, 1
  {
    BuildersAgreeAll(g, r.children, c);
  }

  lemma {:induction false} BuildersAgreeAll(g: Graph, rs: seq<Rose>, c: nat)
    ensures DropMetricsAll(EmitAll(Live(g), rs, c)) == EmitAll(Plain(g), rs, c)
    decreases rs, 0
  {
    if rs != [] {
      BuildersAgreeAll(g, rs[..|rs| - 1], c);
      BuildersAgree(g, rs[|rs| - 1], c + SizeAll(rs[..|rs| - 1]));
    }
  }

  /* ----- the whole tree ----- */

  /** The recursion stops below `n`, and there is no operator to show. */
  ghost predicate Barren(g: Graph, n: NodeId) { Grounded(g, n) && Erase(g, Unfolding(g, n)) == [] }

  /** The recursion stops below every root that is tried: up to the first with an operator under it. */
  ghost predicate TriedGrounded(g: Graph, roots: seq<NodeId>) {
    roots == [] || (Grounded(g, roots[0]) && (!Barren(g, roots[0]) || TriedGrounded(g, roots[1..])))
  }

  lemma {:induction false} AllGroundedIsTried(g: Graph, roots: seq<NodeId>)
    requires AllGrounded(g)
    ensures TriedGrounded(g, roots)
  {
    if roots != [] { AllGroundedIsTried(g, roots[1..]); }
  }

  /** The shape built from the first root that builds to anything. */
  ghost function FirstShape(g: Graph, roots: seq<NodeId>): Option<Rose>
    requires TriedGrounded(g, roots)
  {
    if roots == [] then None else
      ContractionKeepsOperators(g, Unfolding(g, roots[0]));
      match Contract(g, Unfolding(g, roots[0]))
      case Some(shape) => Some(shape)
      case None => FirstShape(g, roots[1..])
  }

  ghost function TreeBy(show: Display, g: Graph): Option<Record>
    requires TriedGrounded(g, Roots(g))
  {
    EmitIfAny(show, FirstShape(g, Roots(g)), 0)
  }

  /** Root `k` is the first with an operator under it, and `shape` is what it contracts to. */
  ghost predicate FirstFruitful(g: Graph, roots: seq<NodeId>, k: nat, shape: Rose) {
    && k < |roots| && Grounded(g, roots[k]) && Contract(g, Unfolding(g, roots[k])) == Some(shape)
    && forall i | 0 <= i < k :: Barren(g, roots[i])
  }

  lemma {:induction false} FirstShapeIsFirst(g: Graph, roots: seq<NodeId>) returns (k: nat)
    requires TriedGrounded(g, roots)
    ensures match FirstShape(g, roots)
            case None => forall i | 0 <= i < |roots| :: Barren(g, roots[i])
            case Some(shape) => FirstFruitful(g, roots, k, shape)
  {
    k := 0;
    if roots != [] {
      ContractionKeepsOperators(g, Unfolding(g, roots[0]));
      match Contract(g, Unfolding(g, roots[0]))
      case Some(shape) =>
        assert FirstFruitful(g, roots, 0, shape);
      case None =>
        var later := FirstShapeIsFirst(g, roots[1..]);
        BarrenHead(g, roots);
        k := later + 1;
    }
  }

  lemma BarrenHead(g: Graph, roots: seq<NodeId>)
    requires roots != [] && Barren(g, roots[0])
    ensures (forall i | 0 <= i < |roots| - 1 :: Barren(g, roots[1..][i])) ==>
            forall i | 0 <= i < |roots| :: Barren(g, roots[i])
    ensures forall k: nat, shape | FirstFruitful(g, roots[1..], k, shape) :: FirstFruitful(g, roots, k + 1, shape)
  {
    forall i | 0 < i < |roots| ensures roots[i] == roots[1..][i - 1] {}
  }

  /** The tree is that of the first root with an operator under it: same operator forest, ids
      1..N in post-order, root id N, whatever wrappers-only roots came before. */
  lemma TreeMeaning(show: Display, g: Graph)
    requires TriedGrounded(g, Roots(g))
    ensures match TreeBy(show, g)
            case None => forall i | 0 <= i < |Roots(g)| :: Barren(g, Roots(g)[i])
            case Some(t) =>
              exists k: nat, shape ::
                && FirstFruitful(g, Roots(g), k, shape)
                && Reduced(g, shape) && Erase(g, shape) == Erase(g, Unfolding(g, Roots(g)[k])) != []
                && Entries(t) == Numbered(show, PostOrder(shape), 0)
                && t.id == CountNodes(t) == |PostOrder(shape)|
                && t == Emit(show, shape, 0)
  {
    var k := FirstShapeIsFirst(g, Roots(g));
    match FirstShape(g, Roots(g))
    case None =>
    case Some(shape) =>
      ContractionKeepsOperators(g, Unfolding(g, Roots(g)[k]));
      Numbering(show, shape, 0);
  }

  /** The trees specified for the two builders are the same, metrics aside, or both none. */
  lemma TreesAgree(g: Graph)
    requires TriedGrounded(g, Roots(g))
    ensures match TreeBy(Live(g), g)
            case None => TreeBy(Plain(g), g) == None
            case Some(t) => TreeBy(Plain(g), g) == Some(DropMetrics(t)) && CountNodes(DropMetrics(t)) == CountNodes(t)
  {
    match FirstShape(g, Roots(g))
    case None =>
    case Some(shape) =>
      BuildersAgree(g, shape, 0);
      Numbering(Live(g), shape, 0);
      Numbering(Plain(g), shape, 0);
  }

  lemma {:induction false} NoOperatorNoForest(g: Graph, rank: map<NodeId, nat>, n: NodeId)
    requires Ranked(g, rank) && n in rank
    ensures Erase(g, Unfold(g, rank, n)) == [] <==>
            forall x | x in PostOrder(Unfold(g, rank, n)) :: !Operator(g, x)
    decreases rank[n], 1
  {
    if Known(g, n) {
      ChildrenRankBelow(g, rank, n);
      NoOperatorNoForestAll(g, rank, n, Children(g.edges, n));
    }
  }

  lemma {:induction false} NoOperatorNoForestAll(g: Graph, rank: map<NodeId, nat>, parent: NodeId, ns: seq<NodeId>)
    requires Ranked(g, rank) && RankedUnder(rank, parent, ns)
    ensures var us := UnfoldAll(g, rank, parent, ns);
            EraseAll(g, us) == [] <==> forall x | x in PostOrderAll(us) :: !Operator(g, x)
    decreases rank[parent], 0, |ns|
  {
    if ns != [] {
      var front, last := ns[..|ns| - 1], ns[|ns| - 1];
      NoOperatorNoForestAll(g, rank, parent, front);
      NoOperatorNoForest(g, rank, last);
      var us := UnfoldAll(g, rank, parent, front);
      assert (us + [Unfold(g, rank, last)])[..|us|] == us;
    }
  }

  lemma BarrenMeansNoOperator(g: Graph, n: NodeId)
    requires Grounded(g, n)
    ensures Barren(g, n) <==> forall x | x in PostOrder(Unfolding(g, n)) :: !Operator(g, x)
  {
    var rank := UnfoldingRank(g, n);
    NoOperatorNoForest(g, rank, n);
  }

  /** An operator anywhere shows up under some root. */
  lemma OperatorFillsARoot(g: Graph, n: NodeId) returns (root: NodeId)
    requires AllGrounded(g) && EndsKnown(g) && Known(g, n) && Operator(g, n)
    ensures root in Roots(g) && !Barren(g, root)
  {
    RootsReachEverything(g);
    assert ReachedFromRoot(g, n);
    var w :| Walk(g, w) && w[0] in Roots(g) && w[|w| - 1] == n;
    root := w[0];
    var rank := UnfoldingRank(g, root);
    UnfoldingFollowsWalks(g, rank, w);
    BarrenMeansNoOperator(g, root);
  }

  lemma RootWithoutOperators(g: Graph, root: NodeId)
    requires AllGrounded(g) && EndsKnown(g) && root in Roots(g)
    requires forall n | Known(g, n) :: !Operator(g, n)
    ensures Barren(g, root)
  {
    RootMembers(g, root);
    BarrenMeansNoOperator(g, root);
    forall x | x in PostOrder(Unfolding(g, root)) ensures !Operator(g, x) { UnfoldingHoldsKnown(g, root, x); }
  }

  lemma BarrenRootsBuildNothing(g: Graph)
    requires TriedGrounded(g, Roots(g))
    ensures FirstShape(g, Roots(g)) == None <==> forall root | root in Roots(g) :: Barren(g, root)
  {
    var k := FirstShapeIsFirst(g, Roots(g));
    if FirstShape(g, Roots(g)).Some? {
      ContractionKeepsOperators(g, Unfolding(g, Roots(g)[k]));
      assert Roots(g)[k] in Roots(g) && !Barren(g, Roots(g)[k]);
    }
  }

  lemma BarrenRootsIffNoOperators(g: Graph)
    requires AllGrounded(g) && EndsKnown(g)
    ensures (forall root | root in Roots(g) :: Barren(g, root)) <==> forall n | Known(g, n) :: !Operator(g, n)
  {
    if n :| Known(g, n) && Operator(g, n) {
      var root := OperatorFillsARoot(g, n);
    } else {
      forall root | root in Roots(g) ensures Barren(g, root) { RootWithoutOperators(g, root); }
    }
  }

  /** A plan is lost only when it holds nothing but wrappers. */
  lemma TreeMissingIffNoOperators(show: Display, g: Graph)
    requires AllGrounded(g) && EndsKnown(g) && TriedGrounded(g, Roots(g))
    ensures TreeBy(show, g) == None <==> forall n | Known(g, n) :: !Operator(g, n)
  {
    BarrenRootsBuildNothing(g);
    BarrenRootsIffNoOperators(g);
  }

  ghost function KeptNodes(g: Graph): set<NodeId> { set n | n in Keys(g.nodes) && Kept(g, n) }

  lemma OnlyRoot(g: Graph, root: NodeId)
    requires TriedGrounded(g, Roots(g)) && Roots(g) == [root]
    ensures FirstShape(g, Roots(g)) == Contract(g, Unfolding(g, root))
  {
    assert Roots(g)[1..] == [];
  }

  /** On a tree-shaped graph the records are the kept nodes, each once: all operators, and the
      wrappers over two or more fruitful children. */
  lemma TreeShapedRecords(show: Display, g: Graph, root: NodeId)
    requires AllGrounded(g) && EndsKnown(g) && SingleParent(g.edges) && Roots(g) == [root]
    requires TriedGrounded(g, Roots(g))
    ensures var ns, kept := Listed(FirstShape(g, Roots(g))), KeptNodes(g);
            NoDuplicates(ns) && (forall n :: n in ns <==> n in kept) && |ns| == |kept|
    ensures match TreeBy(show, g)
            case None => Listed(FirstShape(g, Roots(g))) == []
            case Some(t) =>
              && CountNodes(t) == |KeptNodes(g)|
              && Entries(t) == Numbered(show, Listed(FirstShape(g, Roots(g))), 0)
  {
    TreeShapedGraph(g, root);
    OnlyRoot(g, root);
    match FirstShape(g, Roots(g))
    case None =>
    case Some(shape) => Numbering(show, shape, 0);
  }

  /* ----- what a reader sees ----- */

  /** Shown names lose one leading "Batched", unless there is nothing after it. */
  ghost predicate NameShown(name: string, shown: string) {
    || (shown != "" && name == "Batched" + shown)
    || (shown == name && forall rest :: rest != "" ==> name != "Batched" + rest)
  }

  /** What a tree shows of the listing `p`: a wrapper that stayed is a placeholder. */
  ghost predicate ListingShown(p: PlanNode, skipped: set<string>, info: Info, metrics: map<string, string>) {
    if p.name in skipped then
      && info.name == p.name && info.kind == "transform" && info.detail == "" && info.fullDetail == ""
      && info.metrics == map[]
    else
      && NameShown(p.name, info.name) && info.kind == p.kind && info.detail == p.detail
      && info.fullDetail == p.fullDetail && info.metrics == metrics
  }

  ghost predicate NodeShown(g: Graph, n: NodeId, info: Info, withMetrics: bool) {
    exists j: nat :: LastListing(g.nodes, n, j)
                     && ListingShown(g.nodes[j], g.skipped, info, if withMetrics then g.nodes[j].metrics else map[])
  }

  /** The record tree has the given shape, and each record shows its node's last listing. */
  ghost predicate TreeShows(g: Graph, t: Record, shape: Rose, withMetrics: bool) {
    && NodeShown(g, shape.node, t.info, withMetrics)
    && |t.children| == |shape.children|
    && forall i | 0 <= i < |shape.children| :: TreeShows(g, t.children[i], shape.children[i], withMetrics)
  }

  /** Ids count up from 1 in post-order. */
  ghost predicate NumberedFromOne(t: Record) { forall i | 0 <= i < |Entries(t)| :: Entries(t)[i].0 == i + 1 }

  /** `t` shows the plan: the shape of the first root with an operator under it, each record its node. */
  ghost predicate ShowsPlan(g: Graph, t: Record, withMetrics: bool) {
    NumberedFromOne(t) && exists k: nat, shape :: FirstFruitful(g, Roots(g), k, shape)
                                                  && TreeShows(g, t, shape, withMetrics)
  }

  /** A builder's answer: the plan as a tree, or nothing if there is no operator below any root. */
  ghost predicate PlanReported(g: Graph, tree: Option<Record>, withMetrics: bool) {
    match tree
    case None => forall i | 0 <= i < |Roots(g)| :: Barren(g, Roots(g)[i])
    case Some(t) => ShowsPlan(g, t, withMetrics)
  }

  lemma CleanNameShown(name: string)
    ensures NameShown(name, CleanNodeName(name))
  {
    var shown := CleanNodeName(name);
    if "Batched" <= name && |name| > |"Batched"| {
      assert name == "Batched" + shown;
    } else {
      forall rest | rest != "" ensures name != "Batched" + rest {
        assert ("Batched" + rest)[..|"Batched"|] == "Batched";
      }
    }
  }

  lemma ListingsShown(g: Graph, n: NodeId)
    requires Known(g, n)
    ensures NodeShown(g, n, LiveInfo(g, n), true) && NodeShown(g, n, PlainInfo(g, n), false)
  {
    var j := LookupMeaning(g.nodes, n);
    CleanNameShown(g.nodes[j].name);
  }

  lemma {:induction false} EmitAllAt(show: Display, rs: seq<Rose>, c: nat, i: nat)
    requires i < |rs|
    ensures |EmitAll(show, rs, c)| == |rs|
    ensures EmitAll(show, rs, c)[i] == Emit(show, rs[i], c + SizeAll(rs[..i]))
    decreases |rs|
  {
    var front := rs[..|rs| - 1];
    if i < |front| {
      EmitAllAt(show, front, c, i);
      assert front[..i] == rs[..i];
    } else if front != [] {
      EmitAllAt(show, front, c, 0);
    }
  }

  lemma {:induction false} EmitShows(show: Display, g: Graph, r: Rose, c: nat, withMetrics: bool)
    requires Reduced(g, r) && forall n | Known(g, n) :: NodeShown(g, n, show(n), withMetrics)
    ensures TreeShows(g, Emit(show, r, c), r, withMetrics)
    decreases r
  {
    var ts := EmitAll(show, r.children, c);
    forall i | 0 <= i < |r.children|
      ensures |ts| == |r.children| && TreeShows(g, ts[i], r.children[i], withMetrics)
    {
      EmitAllAt(show, r.children, c, i);
      EmitShows(show, g, r.children[i], c + SizeAll(r.children[..i]), withMetrics);
    }
  }

  lemma PlanShown(show: Display, g: Graph, withMetrics: bool)
    requires TriedGrounded(g, Roots(g)) && forall n | Known(g, n) :: NodeShown(g, n, show(n), withMetrics)
    ensures PlanReported(g, TreeBy(show, g), withMetrics)
  {
    var k := FirstShapeIsFirst(g, Roots(g));
    match FirstShape(g, Roots(g))
    case None =>
    case Some(shape) =>
      ContractionKeepsOperators(g, Unfolding(g, Roots(g)[k]));
      EmitShows(show, g, shape, 0, withMetrics);
      Numbering(show, shape, 0);
  }

  /** Both builders' trees show the plan: operators with their kind, details and, in the live tree, their
      metrics; placeholders with their name alone. */
  lemma BothPlansShown(g: Graph)
    requires TriedGrounded(g, Roots(g))
    ensures PlanReported(g, TreeBy(Live(g), g), true) && PlanReported(g, TreeBy(Plain(g), g), false)
  {
    forall n | Known(g, n)
      ensures NodeShown(g, n, Live(g)(n), true) && NodeShown(g, n, Plain(g)(n), false)
    {
      ListingsShown(g, n);
    }
    PlanShown(Live(g), g, true);
    PlanShown(Plain(g), g, false);
  }
}
