# EtlNexus in Dafny

EtlNexus catalogues data products (named bundles of Iceberg tables) and instruments the Spark jobs that
fill them. This project models the logic of both halves and proves what it promises.

- **Plan tree.** An instrumented job reports its Spark plan. The plan is a graph of nodes and
  child-to-parent edges; a recursive builder without a visited set turns it into a numbered tree and
  contracts wrapper nodes. `PlanGraph` holds the graph, its roots and where the recursion stops; `PlanTree`
  the unfolding and its contraction; `PlanCoverage` which nodes the tree shows; `PlanRecords` the numbered
  records. The code has two copies of the builder: `PlanBuilder` is the one for the live plan, `InitialPlan`
  the one for the initial plan, each with its own dictionaries, recursion and counter; `PlanSteps` relates
  their steps to what is specified, and `PlanExtract` chooses between the two trees.
- **Description scanners.** `Scanners`, `TopLevel` and `TopBrackets` are the hand-written depth scanners
  that the same file uses on operator descriptions; `Units` its number formatting.
- **Write capture.** `WriteCapture` is the interceptor swapped in for `DataFrame.writeTo` and the
  instrumented `run` around it.
- **Products and revisions.** `ProductStore` is the database as a value, with one transaction per request,
  and `ProductService` the service methods that perform them; `ProductEffects` says column by column what each
  request does, and `ProductRaces` is the same requests overlapping. `ListCache` is product listing through the
  shared cache as a state machine over interleaved steps, and `TtlCache` the cache. `LikeSearch` is the text
  search.
- **Smaller pieces.** `RequestMetrics` (request counters), `Csv` (CSV download), `YamlStrip` (Compose file
  stripping) and `RetryClient` (HTTP retries). `Sequences` and `Whitespace` hold shared vocabulary.

Inputs the code gets from elsewhere are parameters: the clock, the plan graph and the display texts of its
nodes, the replies and token renewals an HTTP call meets, a fresh id for each row (a counter stands for
`uuid4`), the rounding used by number formatting, which characters count as digits, and the character folding
of the database's ILIKE (`LikeSearch.AsciiLowerIsPlain` shows that plain lower-casing meets what is asked of
it).

Modelling choices that matter to a reader:

- Listing runs two statements, a count and then the rows (`data_product_repo.py:63-71`). Under the
  database's default isolation each sees its own snapshot, so `ListCache` reads twice. A cached page is
  then fresh in its two halves, at two instants. `CachedPageAtOneInstant` says that it was fresh as a whole if
  no commit fell between the two, `CachedPageTornIff` exactly which single commit between them tears it, in
  any run, and `StraddledCommitTearsPage` that it happens.
- The cache decision record speaks of invalidation, and a mutation does clear the list cache after its
  commit. `LateStoreServesOldPage` shows that a query that loaded before the commit and stores after the
  clear still serves the old page. `CachedPageFresh` says for every run when a cached page is the fresh one:
  with no mutation between its commit and its clear, exactly if what the page's own query read was still so
  when that query stored it, for which it is enough that no commit fell between its count and its store.
  The cache belongs to one process (`cache.py:3-6`). With several, a commit by another process is never
  followed by a clear here, so no mutation being between commit and clear need not come about again, and only
  `CachedPageAge`, `CachedPageAtOneInstant` and `CachedPageTornIff` apply.
- The metrics module says new keys are rejected at the cap. The code checks the cap only for an unknown
  method and path (`metrics.py:39`); the model follows the code. The request dictionary stays within the cap
  exactly until a known method and path meets a new status at a full dictionary (`CapHeldIff`). It is bounded by the
  cap times the number of statuses that occur (`RequestKeysBound`), and that bound is reached
  (`RequestKeysBoundReached`): two statuses already pass the cap (`TwoStatusesPassTheCap`).
- Product requests read a product by a plain select, await, and commit later, without a row lock or a version
  column (`data_product_service.py:175-202`). `ProductStore` treats each request as one transaction, and its
  results about runs are about requests that do not overlap. `ProductRaces` splits each request into its read
  and its commit, which writes only the columns that differ from what was read: every earlier history is then
  a prefix of the present one exactly if no commit sets a field that has changed since that request read it
  (`HistoryKeptIffNoStaleWrite`), and two overlapping updates do lose one (`OverlappingUpdatesLoseOne`).
- A rename to a taken name fails at the flush, before the `try` that names the error
  (`data_product_repo.py:126`, `data_product_service.py:201`). The model claims only that the session is
  rolled back (`database.py:49-51`), not which exception is raised.
- The CSV reader treats every line feed outside quotes as a separator between records, so it does not
  drop a last empty record; header names go out unquoted, and `CsvReadsBackIffPlainHeaders` says exactly
  which headers survive that.
- `strip_yaml_blocks` is modelled for keys without leading white space, which is what its caller passes
  (`strip_compose_build.py:57-62`).
- `RetryClient` takes the request's method name in lower case.
- `ListCache` lets a commit install any database whatever, so its results cover every mutation the service
  performs; `ProductService` counts the clears that follow the commits.

## Model

| member | source | states |
|---|---|---|
| PlanGraph.GroundedIffLoopFree | etlnexus-hooks/src/etlnexus_hooks/spark_introspect.py:251-311 | no walk below a node meets a node twice exactly when the nodes below it can be ranked with children below parents |
| PlanGraph.AcyclicIffGrounded | etlnexus-hooks/src/etlnexus_hooks/spark_introspect.py:251-311 | a graph has no closed walk exactly when every node is so grounded |
| PlanTree.FiniteIffGrounded | etlnexus-hooks/src/etlnexus_hooks/spark_introspect.py:251-311 | a node has a finite unfolding exactly when it is grounded, which is what makes the recursion without a visited set stop |
| PlanGraph.RootsReachEverything | etlnexus-hooks/src/etlnexus_hooks/spark_introspect.py:231-247 | a non-empty acyclic graph with known edge ends has a root, and every node hangs below some root |
| PlanGraph.RootMembers | etlnexus-hooks/src/etlnexus_hooks/spark_introspect.py:245 | the root ids are exactly the known nodes that are no edge's child |
| PlanGraph.LookupMeaning | etlnexus-hooks/src/etlnexus_hooks/spark_introspect.py:231-234 | a known node is what its last listing says, and only listed nodes are known |
| PlanGraph.ChildrenMeaning | etlnexus-hooks/src/etlnexus_hooks/spark_introspect.py:236-243 | a node's children are those of the edges into it, in edge order, none left out and none twice |
| PlanGraph.RootsMeaning | etlnexus-hooks/src/etlnexus_hooks/spark_introspect.py:231-245 | the root ids are the listed ids that no edge has for its child, each once, in order of first listing |
| PlanTree.UnfoldingMeaning | etlnexus-hooks/src/etlnexus_hooks/spark_introspect.py:251-300 | below a known node come the unfoldings of the children of the edges into it, in edge order, and nothing else |
| PlanTree.UnfoldIgnoresRank | etlnexus-hooks/src/etlnexus_hooks/spark_introspect.py:251-311 | what is unfolded below a node belongs to the graph, not to the ranking used to show it finite |
| PlanTree.ContractionKeepsOperators | etlnexus-hooks/src/etlnexus_hooks/spark_introspect.py:259-311 | contraction keeps the forest of operators exactly, builds nothing exactly when there is no operator, and leaves a wrapper only over at least two children |
| PlanTree.ContractionKeepsLineages | etlnexus-hooks/src/etlnexus_hooks/spark_introspect.py:259-311 | the post-order of operators, each with its chain of operator ancestors, is the same before and after contraction |
| PlanCoverage.ContractionListsKept | etlnexus-hooks/src/etlnexus_hooks/spark_introspect.py:259-311 | the tree lists, in the unfolding's post-order, exactly the operators and the wrappers with operators below two or more children |
| PlanCoverage.TreeShapedGraph | etlnexus-hooks/src/etlnexus_hooks/spark_introspect.py:236-311 | in an acyclic graph with at most one parent per node and one root, each kept node is shown exactly once and no other node is |
| PlanRecords.Numbering | etlnexus-hooks/src/etlnexus_hooks/spark_introspect.py:249-311 | ids run upwards by one in post-order from the counter, each record shows its own source node, and the root's id is the counter plus the node count |
| PlanRecords.BuildersAgree | etlnexus-hooks/src/etlnexus_hooks/spark_introspect.py:364-409 | from one shape and counter, what the builder without metrics is specified to make is the other's with the metrics emptied |
| PlanRecords.TreesAgree | etlnexus-hooks/src/etlnexus_hooks/spark_introspect.py:344-415 | on one graph the trees that the two builders are proved to return are the same apart from metrics, with the same number of nodes, or both none |
| PlanRecords.TreeMeaning | etlnexus-hooks/src/etlnexus_hooks/spark_introspect.py:249-317 | the tree is that of the first root with an operator under it, with ids 1..N in post-order and root id N even when earlier roots built to nothing |
| PlanRecords.BothPlansShown | etlnexus-hooks/src/etlnexus_hooks/spark_introspect.py:251-317 | both builders' trees have the shape of the first root with operators and show of each node its last listing: an operator's kind, details, name without one leading "Batched" and, in the live tree only, metrics; of a wrapper its name alone |
| PlanRecords.TreeMissingIffNoOperators | etlnexus-hooks/src/etlnexus_hooks/spark_introspect.py:228-317 | no tree is built exactly when the plan holds nothing but wrappers |
| PlanRecords.TreeShapedRecords | etlnexus-hooks/src/etlnexus_hooks/spark_introspect.py:236-317 | on a tree-shaped graph the number of records is the number of operators plus branching wrappers |
| PlanBuilder.IndexNodes | etlnexus-hooks/src/etlnexus_hooks/spark_introspect.py:231-234 | the node dictionary maps each id to its last listing, its keys in order of first listing |
| PlanBuilder.IndexEdges | etlnexus-hooks/src/etlnexus_hooks/spark_introspect.py:236-243 | the children dictionary lists each parent's children in edge order, and the child set holds every edge's child |
| PlanBuilder.RootIds | etlnexus-hooks/src/etlnexus_hooks/spark_introspect.py:245-247 | the loop collects exactly the roots, in listing order |
| PlanBuilder.TreeBuilder.BuildNode | etlnexus-hooks/src/etlnexus_hooks/spark_introspect.py:251-311 | the built record is the numbered contraction of the node's unfolding, and the shared counter grows by its node count, by nothing if it is None |
| PlanBuilder.TreeBuilder.BuildChildren | etlnexus-hooks/src/etlnexus_hooks/spark_introspect.py:296-300 | the child loop collects the surviving children's records in order, numbered one after the other |
| PlanBuilder.BuildTree | etlnexus-hooks/src/etlnexus_hooks/spark_introspect.py:228-317 | the live builder returns the tree specified for the graph, which shows the plan with its metrics, or nothing if there is no operator below any root; whenever its recursion stops below each root it tries |
| InitialPlan.IndexNodes | etlnexus-hooks/src/etlnexus_hooks/spark_introspect.py:344-347 | the initial plan's own node dictionary maps each id to its last listing |
| InitialPlan.IndexEdges | etlnexus-hooks/src/etlnexus_hooks/spark_introspect.py:349-356 | its own children dictionary is in edge order and its own child set is complete |
| InitialPlan.RootIds | etlnexus-hooks/src/etlnexus_hooks/spark_introspect.py:358-360 | its own root list is the specified one |
| InitialPlan.InitialBuilder.BuildNode | etlnexus-hooks/src/etlnexus_hooks/spark_introspect.py:364-409 | its own recursion builds the numbered contraction of the node's unfolding, with no metrics |
| InitialPlan.InitialBuilder.BuildChildren | etlnexus-hooks/src/etlnexus_hooks/spark_introspect.py:373-398 | its own child loop collects the surviving children's records in order |
| InitialPlan.BuildInitialTree | etlnexus-hooks/src/etlnexus_hooks/spark_introspect.py:339-415 | the initial builder returns the tree specified for the graph, which shows the plan without metrics, or nothing if there is no operator below any root; whenever its recursion stops below each root it tries |
| PlanExtract.ExtractExecutionPlan | etlnexus-hooks/src/etlnexus_hooks/spark_introspect.py:175-194 | the reported tree's root id is its node count; the initial plan replaces the live one exactly when the live one has at most three nodes and the initial one more; what is reported shows the plan it comes from |
| PlanExtract.OperatorsOfListing | etlnexus-hooks/src/etlnexus_hooks/spark_introspect.py:424-432 | a node is an operator exactly when its last listing has none of the twelve names left out |
| Scanners.BalanceMeaning | etlnexus-hooks/src/etlnexus_hooks/spark_introspect.py:483-490 | balancing equalises the counts, is idempotent, and gives a well-nested text exactly when no prefix falls below the smaller of 0 and the total depth |
| Scanners.BalanceAdds | etlnexus-hooks/src/etlnexus_hooks/spark_introspect.py:483-490 | balancing keeps the text and adds either the missing opening parentheses before it or the missing closing ones after it |
| Scanners.StripKeepsText | etlnexus-hooks/src/etlnexus_hooks/spark_introspect.py:433-437 | text before the first column id stays and stripping goes on behind it |
| Scanners.StripDropsId | etlnexus-hooks/src/etlnexus_hooks/spark_introspect.py:433-437 | a hash sign, a whole number and a capital L after it go, and stripping goes on behind them |
| Scanners.StrippingKeepsDepth | etlnexus-hooks/src/etlnexus_hooks/spark_introspect.py:433-437 | removing column ids changes neither the total nor the lowest parenthesis depth |
| Scanners.FallbackDetailNested | etlnexus-hooks/src/etlnexus_hooks/spark_introspect.py:577-580 | the detail cut off at 100 characters of a well-nested description is well-nested |
| Scanners.FallbackDetailMeaning | etlnexus-hooks/src/etlnexus_hooks/spark_introspect.py:577-580 | of a well-nested description the detail is empty, the text without column ids, or its first 100 characters, three dots and the missing closing parentheses, by length |
| TopLevel.SplitTopLevelByScan | etlnexus-hooks/src/etlnexus_hooks/spark_introspect.py:464-480 | the loop returns the stripped non-empty pieces of the scan |
| TopLevel.ScanIsLossless | etlnexus-hooks/src/etlnexus_hooks/spark_introspect.py:468-479 | before stripping, the pieces joined by the separator are the text |
| TopLevel.ScanCutsMeaning | etlnexus-hooks/src/etlnexus_hooks/spark_introspect.py:468-479 | of any text the raw pieces are what stands between the separators outside parentheses: each of those cuts and nothing else does |
| TopLevel.PiecesNested | etlnexus-hooks/src/etlnexus_hooks/spark_introspect.py:464-480 | every piece of a well-nested text is well-nested, trimmed and non-empty |
| TopLevel.SplitOfJoinedParts | etlnexus-hooks/src/etlnexus_hooks/spark_introspect.py:464-480 | splitting the ", "-join of trimmed, non-empty, nested parts without top-level commas gives the parts back |
| TopBrackets.ExtractTopBrackets | etlnexus-hooks/src/etlnexus_hooks/spark_introspect.py:493-515 | the loop returns the result of the step-by-step scan |
| TopBrackets.ExtractMeaning | etlnexus-hooks/src/etlnexus_hooks/spark_introspect.py:493-515 | a text is made of gaps and bracketed bodies, up to an unfinished tail, exactly when it has no stray closing bracket, and then exactly the bodies come out |
| TopBrackets.ExtractsSpans | etlnexus-hooks/src/etlnexus_hooks/spark_introspect.py:493-515 | from any text, stray brackets or not, come out exactly the texts between each rise of the net depth from 0 to 1 and its next fall to 0, from left to right |
| TopBrackets.StrayBracketHides | etlnexus-hooks/src/etlnexus_hooks/spark_introspect.py:506-512 | after a stray closing bracket a plain bracketed body is not found |
| Units.FormatsFaithful | etlnexus-hooks/src/etlnexus_hooks/spark_introspect.py:1585-1604 | the value read back from a formatted count or size is within half a unit of the last printed digit |
| Units.RowsShown | etlnexus-hooks/src/etlnexus_hooks/spark_introspect.py:1585-1594 | which unit a row count gets and which digits, to the nearest tenth of millions or thousands |
| Units.BytesShown | etlnexus-hooks/src/etlnexus_hooks/spark_introspect.py:1597-1604 | which unit a byte size gets and which digits, to the nearest tenth of GB or MB or whole KB |
| Units.RowsMonotone | etlnexus-hooks/src/etlnexus_hooks/spark_introspect.py:1585-1594 | more rows never read back as fewer, across unit boundaries too |
| Units.BytesMonotone | etlnexus-hooks/src/etlnexus_hooks/spark_introspect.py:1597-1604 | more bytes never read back as fewer, across unit boundaries too |
| WriteCapture.Process.Invoke | etlnexus-hooks/src/etlnexus_hooks/spark_introspect.py:41-43 | a write is appended once to each open list and passed once to the original |
| WriteCapture.Process.Enter | etlnexus-hooks/src/etlnexus_hooks/spark_introspect.py:33-47 | entering hands out a new empty list and, if it can, puts an interceptor over the current method |
| WriteCapture.Process.Exit | etlnexus-hooks/src/etlnexus_hooks/spark_introspect.py:51-57 | leaving puts the replaced method back, if one was replaced |
| WriteCapture.Process.RunCapture | etlnexus-hooks/src/etlnexus_hooks/spark_introspect.py:20-57 | a capture's list ends with exactly the writes inside it, outer lists and the original see each once, and the method is restored even after an exception |
| WriteCapture.WrittenConcat | etlnexus-hooks/src/etlnexus_hooks/mixin.py:75-78 | the stages' writes are those of their concatenation, cut off at the first exception |
| WriteCapture.WrittenMore | etlnexus-hooks/src/etlnexus_hooks/spark_introspect.py:41-43 | a write is recorded even if its original raises, a block adds its own writes, and nothing is recorded after an exception |
| WriteCapture.ShortNameMeaning | etlnexus-hooks/src/etlnexus_hooks/spark_introspect.py:60-67 | the short name has no dot and is what follows the last dot, or the whole name |
| WriteCapture.EmitWrites | etlnexus-hooks/src/etlnexus_hooks/mixin.py:95-101 | each short name is printed once, at its first occurrence |
| WriteCapture.PrintedNames | etlnexus-hooks/src/etlnexus_hooks/mixin.py:95-101 | the printed names are distinct, in first-write order, and exactly the short names written to |
| WriteCapture.Process.RunEtl | etlnexus-hooks/src/etlnexus_hooks/mixin.py:41-124 | the interceptor is gone after the run; the description is printed exactly if there is one, after an exception nothing more; else exactly the short names written to under an installed interceptor, each once in order of first write, then the metrics and then the plan, each exactly if collected |
| TtlCache.PutKeepsAgreement | backend/app/cache.py:38-44 | storing, with or without bulk eviction, keeps the dict in agreement with the record of all sets |
| TtlCache.AgreementAnswers | backend/app/cache.py:29-36 | a dict in agreement answers as the unbounded record does at any later time |
| TtlCache.AnswerMeaning | backend/app/cache.py:29-44 | an answer is given exactly while the key's last set since any clear is at most the TTL old, and is its value |
| TtlCache.Cache.Get | backend/app/cache.py:29-36 | get returns a value exactly when the key's latest set since the last clear is at most the TTL old |
| TtlCache.Cache.SetValue | backend/app/cache.py:38-44 | a set puts the value, evicts nothing below 5000 entries, and leaves at most 5000 entries or only unexpired ones |
| TtlCache.Cache.Clear | backend/app/cache.py:46-48 | a clear empties the dict and the record |
| TtlCache.Replay | backend/app/cache.py:21-48 | in any run on a clock that does not go back, every get answers by the latest set alone |
| ListCache.CacheKeyInjective | backend/app/services/data_product_service.py:65 | different pages have different cache keys |
| ListCache.RowsMeaning | backend/app/repositories/data_product_repo.py:68-71 | a page is the products from position skip on, at most limit of them, fewer only at the end |
| ListCache.CachedPageAge | backend/app/services/data_product_service.py:63-92 | in any interleaving a cached answer's rows and total are the fresh ones at two instants of one and the same earlier query, no older than the TTL plus that query's own duration |
| ListCache.CachedPageAtOneInstant | backend/app/services/data_product_service.py:63-92 | a cached page whose count and rows no commit separated was fresh as a whole when its rows were loaded, and is the fresh page until the next commit |
| ListCache.CachedPageFresh | backend/app/services/data_product_service.py:63-92 | in any run, a cached answer given while no mutation is between commit and clear is the fresh one exactly when its query's reads were still true when it stored them; in particular if no commit fell between that query's count and its store |
| ListCache.LateStoreServesOldPage | backend/app/services/data_product_service.py:70-92 | a page loaded before a commit and stored after its clear is served with nothing in flight and no time gone by, whatever the commit changed |
| ListCache.CachedPageTornIff | backend/app/repositories/data_product_repo.py:63-72 | in any run, a cached page with one commit between its count and its load was the fresh page at some instant from the one to the other exactly when that commit left alone the rows of the page or the number of products |
| ListCache.StraddledCommitTearsPage | backend/app/repositories/data_product_repo.py:63-72 | for any two databases there is a run that serves a page counted on the one and loaded on the other, which is the fresh one at no instant of the run unless they agree on the number of products or the rows of that page |
| ProductStore.Dedupe | backend/app/repositories/data_product_repo.py:144-152 | the loop keeps the distinct non-empty names |
| ProductStore.DedupedMeaning | backend/app/repositories/data_product_repo.py:144-152 | every non-empty name appears once, in order of first mention |
| ProductStore.HandleKeepsValid | backend/app/services/data_product_service.py:139-266 | every request keeps names unique and every revision tied to an existing product, in creation order |
| ProductEffects.CreateEffect | backend/app/services/data_product_service.py:139-165 | a new product has the name, texts, team, schedule, creator and updater of the request and its tables without repetition, and nothing else changes; refused exactly if the name is taken |
| ProductEffects.UpdateEffect | backend/app/services/data_product_service.py:167-207 | an update assigns exactly the columns it names, an empty name excepted, logs the old content of each text that changes, description first, and is refused exactly if the product is gone or another has its name |
| ProductEffects.SetTablesEffect | backend/app/services/data_product_service.py:209-222 | the tables are replaced, without repetition, the updater is noted and nothing else changes |
| ProductEffects.DeleteEffect | backend/app/services/data_product_service.py:224-230 | a deleted product goes with all its revisions; every other product and revision stays, in order |
| ProductEffects.RestoreEffect | backend/app/services/data_product_service.py:232-266 | a revision of the product is restored and the content it replaces is logged; a missing or foreign one changes nothing |
| ProductEffects.LoggedMeaning | backend/app/repositories/revision_repo.py:13-31 | a field's logged contents are those of its revisions, oldest first |
| ProductStore.UpdateTwice | backend/app/services/data_product_service.py:181-207 | the same update sent again is accepted, logs nothing and changes nothing |
| ProductStore.CreatedHistory | backend/app/services/data_product_service.py:139-165 | a new product starts with its own contents and an empty log |
| ProductStore.UpdateHistory | backend/app/services/data_product_service.py:181-207 | an update appends a field's new content to its history exactly when it changes the field |
| ProductStore.HistoryGrows | backend/app/services/data_product_service.py:181-266 | one request, handled as one transaction, leaves the histories of a product it does not delete as they were, extended at the end by what was set |
| ProductStore.HistoryIsPrefix | backend/app/services/data_product_service.py:181-266 | over any run of requests that do not overlap, the history at an earlier point is a prefix of the history at the end |
| ProductStore.NothingIsLost | backend/app/repositories/revision_repo.py:13-31 | every content a field had at any point of such a run is in its history at the end |
| ProductStore.RestoreMakesCurrent | backend/app/services/data_product_service.py:243-266 | any revision can be restored; its content becomes current and nothing else in the products changes but who updated them |
| ProductStore.RestoreUndoes | backend/app/services/data_product_service.py:243-266 | restoring the newest revision right after a change brings the old content back |
| ProductRaces.FinishAloneIsHandle | backend/app/services/data_product_service.py:167-266 | a request that commits onto what it read does what it does as one transaction |
| ProductRaces.FinishColumns | backend/app/services/data_product_service.py:167-266 | whatever the request had read, other products stay, and so do team and creator; the updater is written if it differs from the one read |
| ProductRaces.UpdatedColumns | backend/app/services/data_product_service.py:195-201 | an update's name, texts and schedule are written where they differ from what was read, and are left as others have set them elsewhere |
| ProductRaces.OtherColumns | backend/app/services/data_product_service.py:209-266 | the same for new tables and for a restored text |
| ProductRaces.FinishKeepsValid | backend/app/services/data_product_service.py:201-205 | whatever a request had read, its commit keeps names unique and the log in creation order |
| ProductRaces.RefusedStepsChangeNothing | backend/app/services/data_product_service.py:159-205 | a refused write changes neither products nor log; an update is refused for its name exactly when it changes the name it read to one that another product now has |
| ProductRaces.FinishKeepsHistoryIff | backend/app/services/data_product_service.py:181-202 | a commit extends a history at its end exactly when it sets nothing that has changed since it was read |
| ProductRaces.OverwrittenContentLost | backend/app/services/data_product_service.py:184-194 | the content a commit overwrites is in the history after it exactly when it was logged before, or is what was read or what is now current |
| ProductRaces.HistoryKeptIffNoStaleWrite | backend/app/services/data_product_service.py:167-266 | in any interleaving all earlier histories are prefixes of the present one exactly when no commit so far set a field that had changed since that request read it |
| ProductRaces.NothingIsLostWithoutStaleWrites | backend/app/repositories/revision_repo.py:13-31 | then every content the field ever had is in its history |
| ProductRaces.StaleNeedsOverlap | backend/app/services/data_product_service.py:175-202 | such a commit needs another request's commit of the same field between its own read and commit |
| ProductRaces.OverlappingUpdatesLoseOne | backend/app/services/data_product_service.py:175-202 | two updates that both read A and set B and C leave the history A, A, C, in which the committed B is found only if it was logged before |
| ProductService.DataProductService.CreateProduct | backend/app/services/data_product_service.py:139-165 | performs the create transaction; the list cache is cleared exactly when it commits |
| ProductService.DataProductService.UpdateProductMetadata | backend/app/services/data_product_service.py:167-207 | performs the update transaction, snapshots included; a taken name leaves the database as it was |
| ProductService.DataProductService.UpdateMetadata | backend/app/repositories/data_product_repo.py:101-127 | assigns exactly the fields the request names, an empty name excepted |
| ProductService.DataProductService.SetProductTables | backend/app/services/data_product_service.py:209-222 | performs the set-tables transaction |
| ProductService.DataProductService.DeleteProduct | backend/app/services/data_product_service.py:224-230 | performs the delete transaction, whose effect is `ProductEffects.DeleteEffect`; the list cache is cleared exactly when the product was there |
| ProductService.DataProductService.RestoreRevision | backend/app/services/data_product_service.py:232-266 | performs the restore transaction; a foreign, unknown or unrestorable revision changes nothing |
| LikeSearch.EscapeIsOnePass | backend/app/repositories/data_product_repo.py:14-16 | the three successive replacements are one pass that puts a backslash before each special character |
| LikeSearch.SearchMeansContains | backend/app/repositories/iceberg_metrics_repo.py:49-50 | a column matches the pattern exactly when it contains the raw query up to case |
| LikeSearch.TableSearchExact | backend/app/repositories/data_product_repo.py:48-57 | for a non-empty query, matching the comma-joined tables is matching some one table, whatever the tables, exactly when the query has no comma |
| LikeSearch.ProductSearchMeaning | backend/app/repositories/data_product_repo.py:46-57 | every search finds exactly the products whose name, description or comma-joined tables contain the query up to case; without a comma in the query, whose name, description or some table does |
| RequestMetrics.CountKeyInjective | backend/app/routers/metrics.py:35-36 | a count key belongs to one duration key and one status, whatever bars the path holds |
| RequestMetrics.DurationKeyInjective | backend/app/routers/metrics.py:36 | methods without a bar and their paths are told apart |
| RequestMetrics.RecordKeepsConsistent | backend/app/routers/metrics.py:29-54 | each call keeps every duration count equal to the sum of its per-status counts, the duration dictionaries on one key set, and that set within 10,000 |
| RequestMetrics.RunConsistent | backend/app/routers/metrics.py:29-54 | the same after any sequence of calls |
| RequestMetrics.RunTells | backend/app/routers/metrics.py:39-54 | after any sequence a call is counted in all three dictionaries or in none, durations summed |
| RequestMetrics.CapHeldIff | backend/app/routers/metrics.py:39-50 | after any run the request dictionary is within 10,000 keys exactly when no request found it full, its method and path known and its status new to them |
| RequestMetrics.RequestKeysBound | backend/app/routers/metrics.py:39-50 | in any run the request dictionary holds at most 10,000 keys for each status that occurs |
| RequestMetrics.RequestKeysBoundReached | backend/app/routers/metrics.py:39-50 | that bound is reached, whatever the statuses, by 10,000 paths under the first status and then under each other one |
| RequestMetrics.TwoStatusesPassTheCap | backend/app/routers/metrics.py:46-50 | a run with statuses 200 and 404 alone ends with 20,000 keys, twice the cap |
| RequestMetrics.IdMeaning | backend/app/routers/metrics.py:26-63 | a segment is an id exactly when it is written as a UUID, a line feed allowed after it, or in digits alone |
| RequestMetrics.NormalizeMeaning | backend/app/routers/metrics.py:57-67 | slashes at either end aside, each id segment becomes the placeholder and each other segment stays |
| RequestMetrics.RootNormalized | backend/app/routers/metrics.py:57-67 | slashes alone become one slash |
| RequestMetrics.NormalizeTwice | backend/app/routers/metrics.py:57-67 | normalising a normalised path changes nothing |
| RequestMetrics.NormalizedSplitsBack | backend/app/routers/metrics.py:57-67 | a normalised path splits back into its segments, none of which is an id |
| RequestMetrics.PlainPathsStay | backend/app/routers/metrics.py:57-67 | a path without ids stays as it is |
| RequestMetrics.Metrics.RecordRequest | backend/app/routers/metrics.py:29-54 | the module's state is that of the run of all recorded calls, and the warning is set exactly from the first dropped call on |
| Csv.ReadsBack | frontend/src/lib/export.ts:9-17 | a table printed with the rows' quoting reads back as itself |
| Csv.PrintIsShortest | frontend/src/lib/export.ts:9-17 | no text that reads as a table is shorter than that printing |
| Csv.CsvReadsBackIffPlainHeaders | frontend/src/lib/export.ts:2-18 | the downloaded text reads back as header row and cell texts exactly when there is a header and no header name holds a comma, quote or line feed |
| Csv.CellsReadBack | frontend/src/lib/export.ts:3-18 | with plain headers a reader finds the header row and then, row by row and column by column, the row's value under that name, or nothing for a missing or null one |
| Csv.DifferentTablesPrintDifferently | frontend/src/lib/export.ts:2-18 | two tables with plain headers that print alike have the same headers and cell texts |
| YamlStrip.KeyFollowsIndent | scripts/strip_compose_build.py:35-38 | for a trimmed key the regular expression's group is the whole indentation |
| YamlStrip.WrittenKeyLine | scripts/strip_compose_build.py:33-45 | an indented line with a key is a key line, and opens a block exactly when its value is empty or starts with a brace, bar or angle bracket |
| YamlStrip.JudgeMeaning | scripts/strip_compose_build.py:33-47 | for any trimmed key list a line is a key line exactly if it is no blank or comment line and is written as white space, some key of the list, a colon and a tail; the tail after the first such key says whether a block opens |
| YamlStrip.RemovedMeaning | scripts/strip_compose_build.py:19-50 | a line goes exactly if it is such a key line, or only blank, comment or deeper-indented lines lie from it up to one that opens a block |
| YamlStrip.StripLines | scripts/strip_compose_build.py:13-50 | the automaton keeps exactly the lines that are neither key lines nor in the unbroken run of blank, comment or deeper lines below a block-valued key line |
| YamlStrip.JudgeLine | scripts/strip_compose_build.py:33-47 | the key loop decides by the first matching key |
| YamlStrip.OutputHasNoKeyLine | scripts/strip_compose_build.py:11-52 | the output is made of source lines, none a key line |
| YamlStrip.StripYamlBlocks | scripts/strip_compose_build.py:11-52 | the text that comes out is the source lines that do not go so, in order |
| YamlStrip.StripTwice | scripts/strip_compose_build.py:11-52 | stripping twice equals stripping once |
| RetryClient.CourseOf | frontend/src/api/client.ts:31-80 | at most as many further sends as the marks on the config allow, at most one for a method that is not idempotent |
| RetryClient.CourseJustified | frontend/src/api/client.ts:31-80 | each further send answers a renewed 401 or a transient error before it, with the right token, and the caller gets the last reply |
| RetryClient.CourseCounts | frontend/src/api/client.ts:31-80 | at most one further send follows a renewal and at most two follow transient errors, none of those without idempotence; the session is given up only over a first 401 |
| RetryClient.NothingLeftToTry | frontend/src/api/client.ts:31-80 | the caller is refused only when the marks allow no further send for the last reply |
| RetryClient.FourSendsHappen | frontend/src/api/client.ts:40-76 | four sends do happen |
| RetryClient.ApiCall.Request | frontend/src/api/client.ts:22-28 | a send carries the store's token or the config's header, and its outcome is the specified course |
| RetryClient.ApiCall.OnError | frontend/src/api/client.ts:33-79 | the error interceptor follows the specified course |
| RetryClient.ApiCall.Renew | frontend/src/api/client.ts:40-60 | a renewed token is stored and the request sent again with it, or the session is given up |
| RetryClient.Call | frontend/src/api/client.ts:13-80 | one API call by method names and statuses: one to four sends, two at most and none after a transient error unless get, head, options or put; each further send follows a renewed 401 or a missing, 0, 502, 503 or 504 status, with the right token; two sends follow transient errors before such a method is refused over one; and which token is stored and whether the session is given up at the end |

## Left out

- Spark, py4j and sparkMeasure calls: the plan graph, descriptions and metrics are inputs.
- Cutting an operator name out of a description, classifying it, and the `_parse_*` detail texts: display text, taken as fields of a node.
- PlanBuilder.BuildTree: only if the recursion stops below every root that is tried; otherwise `build_node` runs into Python's recursion limit, and `extract_execution_plan` catches that and reports no plan (for `PlanExtract.ExtractExecutionPlan` such a listing is a `None`). A plan nested deeper than that limit ends the same way, which is not modelled.
- InitialPlan.BuildInitialTree: likewise; its own handler returns `None`.
- BaseException (interrupts) during a captured stage: `run` only catches Exception.
- Access control, routing, OIDC, the LLM and Spark Connect clients, and React components.
- Column lengths, timestamps and the order of revisions with equal creation times.
- ProductStore.HistoryIsPrefix: for requests that do not overlap; `ProductRaces.HistoryKeptIffNoStaleWrite` is the statement for those that may.
- ProductStore.NothingIsLost: for requests that do not overlap, as above.
- ProductStore.HistoryGrows: for one request as one transaction; `ProductRaces.FinishKeepsHistoryIff` is the statement for a commit that follows its read later.
- ProductRaces.HistoryKeptIffNoStaleWrite: a request reads its product once and its writes take effect together at its commit, as under a session that keeps what it loaded, a row lock from the first write on, and committed reads; the flush of a revision before that is not a step of its own, and the log is in the order of commits.
- YamlStrip.StripYamlBlocks: only for keys without leading white space, which the command line strips.
- LikeSearch.SearchMeansContains: for a folding that works character by character and keeps the LIKE characters and the comma apart from the rest.
- Units.FormatsFaithful: over exact reals; a printed number is its digits, decimal place and suffix, and its text and floating-point rounding are not modelled.
- WriteCapture.Process.RunEtl: gives the printed lines in order, not their interleaving with what the stages print.
- ProductService.DataProductService.UpdateProductMetadata: with a revision repository supplied and the product read in the same session, as the routes do.
- Listing revisions page by page, newest first: `Newest` stands for the head of that list.
- Waiting times and jitter between sends, and token changes by other calls while one call is under way.
- `catalog_context_cache`: mutations do not clear it, so only the time bound of `CachedPageAge`, which does not rely on clears, carries over.
- Taking the CSV header names from the first row's keys, and downloading nothing without rows.
- The DOM download, argument and file handling, and Prometheus text rendering.
