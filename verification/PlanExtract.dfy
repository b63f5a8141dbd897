/** The choice between the live plan and the initial plan. */
module PlanExtract {
  import opened Sequences
  import opened PlanGraph
  import opened PlanRecords
  import InitialPlan
  import PlanBuilder

  const SKIP_NODES: set<string> := {
    "AdaptiveSparkPlan", "WholeStageCodegen", "InputAdapter", "ColumnarToRow",
    "BroadcastQueryStage", "ShuffleQueryStage", "CommandResult", "Execute",
    "AQEShuffleRead", "CustomShuffleReader", "DeserializeToObject", "SerializeFromObject"
  }

  /** What Spark lists for one execution: its nodes and edges. */
  datatype Listing = Listing(nodes: seq<PlanNode>, edges: seq<Edge>)

  function AsGraph(l: Listing): Graph { Graph(l.nodes, l.edges, SKIP_NODES) }

  /** The recursion stops below every root that is tried. */
  ghost predicate Stops(l: Listing) { TriedGrounded(AsGraph(l), Roots(AsGraph(l))) }

  /** The operator names that the tree leaves out, one by one. */
  predicate LeftOut(name: string) {
    || name == "AdaptiveSparkPlan" || name == "WholeStageCodegen" || name == "InputAdapter"
    || name == "ColumnarToRow" || name == "BroadcastQueryStage" || name == "ShuffleQueryStage"
    || name == "CommandResult" || name == "Execute" || name == "AQEShuffleRead" || name == "CustomShuffleReader"
    || name == "DeserializeToObject" || name == "SerializeFromObject"
  }

  /** A node is an operator of a listing exactly when its last listing has none of those names. */
  lemma OperatorsOfListing(l: Listing, n: NodeId)
    ensures Operator(AsGraph(l), n) <==> exists j: nat :: LastListing(l.nodes, n, j) && !LeftOut(l.nodes[j].name)
  {
    var j := LookupMeaning(l.nodes, n);
  }

  ghost function LiveTree(l: Listing): Option<Record>
    requires Stops(l)
  {
    TreeBy(Live(AsGraph(l)), AsGraph(l))
  }

  ghost function InitialTree(l: Listing): Option<Record>
    requires Stops(l)
  {
    TreeBy(Plain(AsGraph(l)), AsGraph(l))
  }

  lemma RootIdCounts(l: Listing)
    requires Stops(l)
    ensures LiveTree(l).Some? ==> LiveTree(l).value.id == CountNodes(LiveTree(l).value)
    ensures InitialTree(l).Some? ==> InitialTree(l).value.id == CountNodes(InitialTree(l).value)
  {
    TreeMeaning(Live(AsGraph(l)), AsGraph(l));
    TreeMeaning(Plain(AsGraph(l)), AsGraph(l));
  }

  /** `extract_execution_plan`: `live` is the status store's graph (None without executions), `initial`
      the result frame's initial plan (None without a result frame). Either is None too when reading it
      raises, as it does if its recursion would not stop. The live tree is reported unless it has at most
      three nodes and the initial one has more. */
  method ExtractExecutionPlan(live: Option<Listing>, initial: Option<Listing>) returns (plan: Option<Record>)
    requires live.Some? ==> Stops(live.value)
    requires initial.Some? ==> Stops(initial.value)
    ensures plan.Some? ==> plan.value.id == CountNodes(plan.value)
    ensures plan == None <==> live == None || LiveTree(live.value) == None
    ensures plan.Some? ==> ShowsPlan(AsGraph(live.value), plan.value, true)
                           || (initial.Some? && ShowsPlan(AsGraph(initial.value), plan.value, false))
    ensures plan.Some? ==>
              var own := LiveTree(live.value).value;
              if initial.Some? && InitialTree(initial.value).Some? && CountNodes(own) <= 3
                 && CountNodes(own) < CountNodes(InitialTree(initial.value).value)
              then plan == InitialTree(initial.value)
              else plan == Some(own)
  {
    if live == None { return None; }
    plan := PlanBuilder.BuildTree(AsGraph(live.value));
    RootIdCounts(live.value);
    var graphNodes := if plan.Some? then CountNodes(plan.value) else 0;
    if plan.Some? && graphNodes <= 3 && initial.Some? {
      var initialTree := InitialPlan.BuildInitialTree(AsGraph(initial.value));
      RootIdCounts(initial.value);
      if initialTree.Some? && CountNodes(initialTree.value) > graphNodes {
        plan := initialTree;
      }
    }
  }
}
