# Verification of gStore's query core

A Dafny model of how gStore answers a basic graph pattern, and of the stores and transactions beside it,
with proofs. The store is a finite set of id triples; every key-value lookup returns the matching ids in
increasing order. Methods carry the loops of the source; what they promise is stated against functions
and predicates, and the theorems are about those.

Five parts, each with its main results:

* **Plan execution** (`Executor`, `ExecutorFilter`, `HashJoin`, `DepthFirst`, `BreadthFirst`, with
  `ExactSteps`, `ExactJoins`, `JoinCounts`, `PlanMeaning`, `ChainLayouts`, `DepthSpec`, `DepthBreadth`, `OneStepPlans`,
  `ZeroLimit`, `DeadSteps`). A table is *exact* for some patterns when its
  rows are the solutions of the patterns, each once. Every operator keeps tables exact; the hash join is
  the natural join of bags; executing a whole plan tree gives the table of its solutions
  (`PlanMeaning.PlanExecutionMeaning`); depth-first execution with a limit gives the first rows of
  breadth-first execution, in order (`DepthBreadth.DepthFirstIsPrefix`).
* **Plan search** (`JoinGraph`, `PlanCost`, `PlanWorth`, `PlanGenerator`, `PlanTreeBuilder`, `CandidateFilters`). After
  the search the caches hold exactly the connected sets of variables, the plan found costs no more than any
  plan of the class, and the error exit for the full set is never taken (`PlanGenerator.PlanGenerator.GetPlan`).
* **Queries end to end** (`QueryAnswer`, `QueryRun`, `LimitedQuery`, `LostColumns`). Whatever plan of the class is chosen, with any
  choice of candidate filters that covers the constant patterns, the rows are the answers of the query,
  each once (`QueryAnswer.QueryAnswered`); for left-deep plans this holds for every connected order
  (`LimitedQuery.OrderAnswered`), and with a limit for the first rows (`LimitedQuery.LimitedAnswers`). From start to
  end: filtering, searching and executing a query in which no two patterns join the same two variables runs a
  cheapest plan and shows the answers, each in exactly one row (`QueryRun.DoQuery`).
* **The older join** (`TableGrowth`, `OldJoinEdges`, `OldJoin`, `OldJoinWalk`, `OldJoinOutput`, `OldJoinAnswer`,
  `OldJoinBasic`, `OldJoinPredicates`). One table grown in place while it is walked; a stack walk over the query graph that ends
  having joined exactly the component of its start (`OldJoinWalk.MultiJoin`); the output of satellite products
  in lexicographic order; and from start to end: the records written are exactly those that show an answer
  of the whole query, each once if all core variables are selected (`OldJoinBasic.JoinBasic`). With predicate variables the table after the
  walk and all rounds shows every solution of the core with every fitting choice of predicates, each once
  (`OldJoinPredicates.WalkAndLabel`).
* **Stores and transactions** (`IdSpaces`, `TripleUpdates`, `TripleStore`, `BatchUpdate`, `Csr`,
  `CacheSelection`, `UpdateLog`, `Transactions`, `TransactionManager`).

The specification of an answer is basic graph pattern matching and Join of SPARQL 1.1 Query Language
(sections 18.3.1 and 18.5): an assignment of the variables under which every pattern is a stored triple.

## What turned out not to hold

Where the code does not do what it is for, the model keeps the code, shows an input, and states exactly
when it does:

* A table join with an empty input loses its columns, which a join above it takes for "no table yet"
  (`Database/Executor.cpp:243-244`, `Database/Optimizer.cpp:691`). `LostColumns.SlipHappens` gives an input: a
  path query, a store without a path of two edges, and a plan with a table join that the search may choose;
  `PlanMeaning.PlanExecutionMeaning` says that execution goes through exactly if no node is joined above a
  table join one of whose inputs has no solutions.
* The layouts prepared for the depth-first search add a column for every joined node, stored or not
  (`Database/Optimizer.cpp:82`), and each step looks its variables up in the layout of the layer below
  (`Database/Optimizer.cpp:184-185`). `ChainLayouts.LayoutsServeIff`: every step finds every variable where the
  table has it exactly if no step reads a variable that was stored after some joined node was not. Then the rows
  are the first rows of the chain (`DepthFirst.ExecutionDepthFirst`); an unstored node in the last step only makes
  the returned columns wrong (`ChainLayouts.UnstoredLastStep`). `ChainLayouts.ReadsPastTheEnd` and
  `ChainLayouts.ReadsWrongColumn` give a chain that reads behind the end of its records and one that joins over
  the wrong variable.
* One-step plans ignore the limit (`Database/Optimizer.cpp:116-117`). `OneStepPlans.OneStepOverLimit` gives an
  input with two rows under a limit of one. `OneStepPlans.OneStepIsPrefixIff`: the limit is kept exactly if, for a
  scan, the variable has no more candidates than the limit (or live ids, without a candidate list), and, for a
  pair, no more stored triples fit the step's constant and the candidates of both ends.
* A limit of zero returns rows: the search ends with the first record that gets to the second layer
  (`Database/Optimizer.cpp:125-142`). `ZeroLimit.FirstBlockOfOne`: the rows are then all that one record of the last
  layer but one leads to, and `DepthSpec.FirstBlockPrefix`: they are the chain's first rows. `ZeroLimit.ZeroLimitReturnsRow` gives an input;
  `ZeroLimit.ZeroLimitMetIff`: nothing is returned exactly if no record of the first table gets to the second
  layer, or the first one that does leads to no row. What can be told before the search starts:
  `DeadSteps.SeenEmptyKeepsLimit`, an empty first table, an empty candidate list, or an edge whose constants no stored
  triple has, makes a chain keep to every limit.
* A pair plan is built for the only pattern between its two variables; for further ones the constructor writes
  through a null pointer (`Database/PlanTree.cpp:812-817`). `QueryRun.PlansSingleIff`: no plan of the class meets
  such a pair exactly if no two patterns of the query join the same two variables.
* Removing a triple whose subject is its object gives the id back twice (`Database/Database.cpp:3930-3967`).
  `TripleStore.Database.Remove`: the store stays sound exactly if this is not the last statement that
  mentions the word; `TripleUpdates.TwiceFreedIsShared`: afterwards two new words share an id.
* A commit of an unknown or finished transaction unlocks the checkpoint latch
  (`Database/Txn_manager.cpp:169`, `Database/Txn_manager.cpp:174`). `Transactions.WrongCommitBreaksLatch`: the
  latch stays right exactly if no transaction is unfinished; `Transactions.WrongCommitLetsCheckpointIn` gives a run.
  A commit of a running transaction without a database gives the latch up and leaves the transaction running
  (`Database/Txn_manager.cpp:181-186`): `TransactionManager.LostCommitBreaksLatch`.
* The test for predicate lists of more than 32 bits never fires (`Database/Database.cpp:1119`), and the size is cut
  to 32 bits. `CacheSelection.OversizedAdmitted`: such a list is let into the cache as if it were small;
  `CacheSelection.LoadedWithinIff`: the queued lists fit the budget when loaded exactly if none of them is that long,
  and so they do whenever no list that long passes the other tests (`CacheSelection.CandidateQueue.GetCandidatePreID`);
  one that passes may still be given up later for a more valuable list. If all lists that pass fit the budget by their
  cut sizes, all are queued, and they fit when loaded exactly if none of them is that long;
  `CacheSelection.QueueOversized` runs the selection on one such list.
* Netting the update log is replaying it only if the counts of each statement's updates agree with the
  last of them (`UpdateLog.RestoresIffCountsAgree`); a log of updates that took effect always qualifies, a
  log that also records updates without effect need not (`UpdateLog.IneffectiveLogFails`), and the source
  writes such logs because its filter is commented out (`Database/Database.cpp:5855-5862`).

## Model

| member | source | states |
|---|---|---|
| `IdList.IDList.IntersectList` | Query/IDList.cpp:136-240 | each of the three in-place strategies leaves exactly the common ids, in order, and returns how many were removed |
| `IdList.IDList.MergeIntersect` | Query/IDList.cpp:136-240 | the linear merge that compacts survivors in place is the intersection |
| `IdList.IntersectionCommutes` | Query/IDList.cpp:136-240 | on increasing lists it does not matter which list is walked and which is searched |
| `IdList.UpdateIDList` | Database/Executor.cpp:425-438 | the first edge fills the list, later ones intersect it; the list stays increasing |
| `TableOperator.IntermediateResult.AddNewNode` | Database/TableOperator.cpp:78-84 | a new variable gets the next column in both position maps |
| `TableOperator.AddNewNodeInverse` | Database/TableOperator.cpp:78-84 | adding a column keeps the position maps mutually inverse on the columns |
| `TableOperator.IntermediateResult.OnlyPositionCopy` | Database/TableOperator.cpp:112-120 | the copy has the columns and none of the rows |
| `ExecutorFilter.ConstantToVarReads` | Database/TableOperator.cpp:122-184 | an edge is classified as constant-to-variable exactly if it reads no variable |
| `Semantics.ExactMeansEachSolutionOnce` | Database/Executor.cpp:18-84 | in an exact table the solutions are the assignments of the rows, and no solution has two rows |
| `StepSpec.LookupMeaning` | Database/Executor.cpp:1010-1160 | the lookup chosen by an edge's join method returns an id exactly if a stored triple fits |
| `StepSpec.EdgeListMeaning` | Database/Executor.cpp:1010-1160 | the id list of an edge for a record is what makes the edge's pattern hold with the record's values |
| `Executor.ExtendRecordOneNode` | Database/Executor.cpp:967-1172 | the candidates of a record are the ids on all edge lists and in the node's cache, each once |
| `Executor.JoinANode` | Database/Executor.cpp:18-84 | consuming or keeping the old table, the new rows are the old rows with every candidate, in order; if the node is not stored, each row occurs as often as it did, times the number of ids that every edge and the cache allow, and with the distinct flag once for each time it did if there is such an id |
| `JoinCounts.EdgeAllowsIs` | Database/Executor.cpp:425-438 | an id is a candidate exactly if every edge has a stored triple that fits the record and the id, and the cache has the id |
| `JoinCounts.StepMultiplies` | Database/Executor.cpp:18-84 | how often each row occurs after a node is joined, stored or not, counted without the step's own functions |
| `JoinCounts.UnstoredIsDropped` | Database/Executor.cpp:68-76 | without the distinct flag an unstored node leaves, as a bag, the stored node's table with its last column dropped |
| `Executor.ExtendRecordTwoNode` | Database/Executor.cpp:1186-1292 | the pairs of a two-node edge that both caches allow, in lookup order |
| `ExecutorFilter.JoinTwoNode` | Database/Executor.cpp:171-218 | the new rows are the old rows with every allowed pair |
| `ExecutorFilter.OneEdgeConstraintFilter` | Database/Executor.cpp:482-779 | keeps exactly the rows that satisfy the edge, in order, whether or not the input is kept |
| `ExecutorFilter.FilterAVariableOnIDList` | Database/Executor.cpp:781-812 | the same with one list looked up for all rows |
| `ExecutorFilter.ANodeEdgesConstraintFilter` | Database/Executor.cpp:386-406 | filtering by all edges of a check step one after the other |
| `ExecutorFilter.AddConstantCandidates` | Database/Executor.cpp:814-922 | a constant edge fills the node's cache or intersects it |
| `ExecutorFilter.CacheConstantCandidates` | Database/Executor.cpp:408-417 | after all constant edges the cache holds the ids that all of them and the old cache allow; other caches are untouched |
| `ExecutorFilter.ConvertToTable` | Database/Executor.cpp:95-134 | a scan turns the candidates into one-column rows |
| `ExactSteps.JoinNodeExact` | Database/Executor.cpp:18-84 | joining a node turns an exact table into the exact table with the step's patterns added |
| `ExactSteps.ScanExact` | Database/Executor.cpp:95-134 | scanning a node gives the exact table for no patterns over its candidates |
| `ExactJoins.PairMeaning` | Database/Executor.cpp:1186-1292 | a pair is listed exactly if the edge's pattern holds for it |
| `ExactJoins.JoinTwoNodesExact` | Database/Executor.cpp:171-218 | joining two nodes along an edge keeps tables exact |
| `ExactJoins.EdgeCheckExact` | Database/Executor.cpp:386-406 | checking edges keeps tables exact with the checked patterns added |
| `HashJoin.JoinTwoTables` | Database/Executor.cpp:228-376 | whichever input is bigger and whether or not the inputs are kept, the result is the natural join of the two bags with inverse position maps; an empty input means failure and no columns |
| `HashJoin.ResultTable` | Database/Executor.cpp:268-300 | the result's columns are the big table's, then the small table's other ones, and the maps are mutually inverse |
| `HashJoin.BagJoinCommutes` | Database/Executor.cpp:255-267 | the join is the same bag of assignments whichever table is indexed |
| `TableJoin.CountJoinedRows` | Database/Executor.cpp:300-376 | a result row occurs as often as its two projections occur together: multiplicities multiply |
| `ExactJoins.TableJoinExact` | Database/Executor.cpp:228-376 | joining two exact tables gives the exact table of both pattern sets |
| `PlanChain.GenerateResultTemplate` | Database/Optimizer.cpp:60-90 | one layout a layer, each the previous one with the joined nodes added |
| `PlanChain.TemplatesMatchIff` | Database/Optimizer.cpp:60-90 | the prepared layouts are those of the tables exactly if every joined node is stored |
| `ChainLayouts.ShiftOf` | Database/Optimizer.cpp:60-90 | a layout has a variable as many places too far right as nodes were joined without being stored before it was |
| `ChainLayouts.LayoutsServeIff` | Database/Optimizer.cpp:175-215 | every step finds all its variables through the layout of the layer below exactly if none of them was stored after an unstored node |
| `ChainLayouts.LastLayoutIff` | Database/Optimizer.cpp:144-146 | the columns returned are those of the rows exactly if every joined node is stored |
| `ChainLayouts.UnstoredLastStep` | Database/Optimizer.cpp:144-146 | if only the last step does not store its node, all lookups are right and only the returned columns are wrong |
| `ChainLayouts.ReadsPastTheEnd` | Database/Optimizer.cpp:182-197 | a four-step chain whose last step is pointed behind the end of every record |
| `ChainLayouts.ReadsWrongColumn` | Database/Optimizer.cpp:182-197 | a five-step chain whose last step looks up another variable's value |
| `PlanChain.StepKeepsShape` | Database/Optimizer.cpp:175-258 | a fitting step keeps rows as wide as the columns and the maps inverse |
| `PlanChain.RestRowsAppend` | Database/Optimizer.cpp:213-257 | working through a table in parts gives the parts' rows one after the other |
| `DepthFirst.DepthSearchOneLayer` | Database/Optimizer.cpp:175-258 | the rows collected are a first part of what the layer leads to, all of it unless the limit is reached, and the shared counter grows by their number |
| `DepthFirst.SearchRecords` | Database/Optimizer.cpp:213-257 | the same for a loop over single records that stops at the limit |
| `DepthFirst.MergeResults` | Database/Optimizer.cpp:125-159 | merging the collected pieces cuts them to the limit; the single inner break suffices because only the last piece can reach it |
| `DepthFirst.ExecutionDepthFirst` | Database/Optimizer.cpp:92-163 | for chains whose lookups the layouts serve: the rows are those of the chain cut to the limit, for a limit of zero those found below the first record that gets on; one-step chains ignore the limit and negative limits give none; the columns are the last layout's |
| `DepthSpec.FirstBlockPrefix` | Database/Optimizer.cpp:125-142 | what a limit of zero returns is a first part of the chain's rows |
| `ZeroLimit.FirstBlockOfOne` | Database/Optimizer.cpp:125-142 | and they are all the rows that one record of the last layer but one leads to, if there are any |
| `ZeroLimit.ZeroLimitMetIff` | Database/Optimizer.cpp:125-142 | a limit of zero returns nothing exactly if no record gets to the second layer or the first that does leads to no row |
| `ZeroLimit.ZeroLimitReturnsRow` | Database/Optimizer.cpp:125-142 | a two-step chain over one triple returns a row under a limit of zero |
| `DeadSteps.DeadStepRow` | Database/Executor.cpp:967-1292 | a step with an edge whose constants no stored triple has, or a node with an empty candidate list, makes nothing of any record |
| `DeadSteps.SeenEmptyKeepsLimit` | Database/Optimizer.cpp:125-142 | a chain with such a step, or with an empty first table, returns nothing under any limit, also under a limit of zero |
| `BreadthFirst.ExecutionBreathFirst` | Database/Optimizer.cpp:586-797 | the result is computed by the tree's operators, or execution throws or reads a missing column |
| `PlanMeaning.ComputedIsExact` | Database/Optimizer.cpp:586-797 | what a sound plan tree computes is the exact table of its patterns, unless columns are lost |
| `PlanMeaning.LostMeansUnsolvable` | Database/Optimizer.cpp:691 | a tree loses its columns only if its patterns have no solutions |
| `PlanMeaning.PlanExecutionMeaning` | Database/Optimizer.cpp:586-797 | execution goes through exactly if no node is joined above a join with an unsolvable input, and then holds each solution once |
| `DepthBreadth.ChainComputes` | Database/Optimizer.cpp:586-797 | breadth-first execution of a chain computes the chain's rows in order |
| `DepthBreadth.DepthFirstIsPrefix` | Database/Optimizer.cpp:125-159 | for at least two steps and a limit of at least one, depth-first execution returns the first rows of breadth-first execution |
| `DepthBreadth.ZeroLimitIsPrefix` | Database/Optimizer.cpp:125-159 | for a limit of zero it returns first rows too |
| `OneStepPlans.InitialRowsSize` | Database/Executor.cpp:95-167 | the first table has as many rows as there are candidates, live ids or fitting stored triples |
| `OneStepPlans.OneStepIsPrefixIff` | Database/Optimizer.cpp:116-117 | a one-step chain keeps to the limit exactly if the candidates or the fitting stored triples are no more than the limit |
| `OneStepPlans.OneStepOverLimit` | Database/Optimizer.cpp:116-117 | a two-pattern query planned as one pair returns two rows under a limit of one |
| `JoinGraph.RemovableNode` | Database/PlanGenerator.cpp:1176-1215 | every connected set of at least two nodes has a node whose removal leaves it connected |
| `JoinGraph.ExtendConnected` | Database/PlanGenerator.cpp:1160-1174 | a neighbour extends a connected set to a connected set |
| `JoinGraph.ConnectedIffWalks` | Database/PlanGenerator.cpp:1160-1174 | connectedness by cuts is connectedness by walks |
| `PlanCost.AllowedConnected` | Database/PlanGenerator.cpp:1176-1271 | every plan of the class is about a connected set of variables |
| `PlanCost.OffersBeat` | Database/PlanGenerator.cpp:1176-1215 | once every best smaller plan has been extended by every neighbour, no extension or pair plan is cheaper |
| `PlanCost.MinAverageLeast` | Database/PlanGenerator.cpp:629-653 | the factor used is the average of some linked node and at most that of each |
| `PlanWorth.LeastIs` | Database/PlanGenerator.cpp:629-653 | a number is that factor exactly if it is the average of a plan's variable next to the new one and no other such variable has a smaller one |
| `PlanWorth.StepSizeIs` | Database/PlanGenerator.cpp:648-653 | the size charged for one more variable is the set's sampled size times the least average, or a single variable's count times its own |
| `PlanWorth.JoinWorthIs` | Database/PlanGenerator.cpp:679-689 | a table join costs its parts, the sum of both sizes, and the greater of them once more |
| `PlanWorth.WorthIsCost` | Database/PlanGenerator.cpp:679-689 | the computed cost of a plan of the class is the one number that its sampled values give it, by what is greatest, least and added up |
| `PlanGenerator.PlanGenerator.CardEstimator` | Database/PlanGenerator.cpp:658-668 | an estimate is the same whether computed now or found in the cache, and is cached afterwards |
| `PlanGenerator.PlanGenerator.CardEstimatorTwoNodes` | Database/PlanGenerator.cpp:170-412 | the estimate of a pair is the sampled size times the average in the direction asked for |
| `PlanGenerator.PlanGenerator.CardEstimatorMoreThanThreeNodes` | Database/PlanGenerator.cpp:416-655 | the estimate of a larger set is its smaller set's size times the least average among the plan's variables next to the new one |
| `PlanGenerator.PlanGenerator.LeastAverage` | Database/PlanGenerator.cpp:629-653 | the loop over the cached averages finds one of them, and none is smaller |
| `PlanGenerator.PlanGenerator.GetNeiBySubPlanNodes` | Database/PlanGenerator.cpp:1160-1174 | the nodes next to a sub-plan and not in it |
| `PlanGenerator.PlanGenerator.GetBestPlan` | Database/PlanGenerator.cpp:691-705 | the cheapest plan of a list |
| `PlanGenerator.PlanGenerator.InsertThisPlanToCache` | Database/PlanGenerator.cpp:875-891 | a plan is added under its set of nodes, opening the level if it is the first |
| `PlanGenerator.PlanGenerator.Considervarscan` | Database/PlanGenerator.cpp:1063-1150 | the first level holds one optimal scan for every join node |
| `PlanGenerator.PlanGenerator.Considerwcojoin` | Database/PlanGenerator.cpp:1176-1215 | the next level's keys are exactly the connected sets of that size, sizes are cached for all of them, and plans are optimal but for binary joins |
| `PlanGenerator.PlanGenerator.GetJoinNodes` | Database/PlanGenerator.cpp:862-873 | the nodes of one part that are adjacent to the other |
| `PlanGenerator.PlanGenerator.Considerbinaryjoin` | Database/PlanGenerator.cpp:1219-1271 | after trying every allowed split the level's plans are optimal in the whole class |
| `PlanGenerator.JoinPlanCheapest` | Database/PlanGenerator.cpp:679-689 | joining the best plans of the two parts is the cheapest join of any plans of the parts |
| `PlanGenerator.PlanGenerator.GetBestPlanByNum` | Database/PlanGenerator.cpp:708-739 | the cheapest plan of a level |
| `PlanGenerator.PlanGenerator.FillCaches` | Database/PlanGenerator.cpp:1314-1349 | after the rounds the caches hold exactly the connected sets of every size with optimal plans, and sizes for all sets of at least two nodes |
| `PlanGenerator.PlanGenerator.GetPlan` | Database/PlanGenerator.cpp:1314-1374 | the plan returned is of the class and for the whole query, costs what the sampled values say, and no plan of the class for the whole query costs less; its cost and the sampled size are reported, and the error exit is unreachable |
| `BasicGraphPattern.BuildEdgeInfo` | Query/BGPQuery.cpp:297-363 | the edge list of a variable has one entry for every pattern end at the variable |
| `BasicGraphPattern.InSoEdges` | Query/BGPQuery.cpp:297-363 | an entry says which pattern it is, whether the variable is its object, and what is at the other end |
| `BasicGraphPattern.JoinGraphIs` | Query/BGPQuery.cpp:297-363 | two variables are adjacent exactly if a pattern joins them |
| `PlanTreeBuilder.PlanTree.Scan` | Database/PlanTree.cpp:339-455 | the one-node constructor builds the scan of the plan's first variable |
| `PlanTreeBuilder.PlanTree.ExtendByOneNode` | Database/PlanTree.cpp:466-613 | the tree is the extension of the plan's tree by one step with the edges to the variables already joined |
| `PlanTreeBuilder.PlanTree.TwoNodes` | Database/PlanTree.cpp:784-905 | the tree of a pair is one two-node step along its one pattern |
| `PlanTreeBuilder.PlanTree.BinaryJoin` | Database/PlanTree.cpp:956-985 | the tree joins the two trees on their common variables |
| `PlanTreeBuilder.ExtendConstraints` | Database/PlanTree.cpp:466-529 | the patterns inside the larger set are those inside the smaller one and those of the step |
| `PlanTreeBuilder.EachPatternInOneStep` | Database/PlanTree.cpp:466-529 | no pattern of the step was inside already, and none is in the step twice |
| `CandidateFilters.FilterNodeOnConstantEdge` | Query/QueryPlan.cpp:658-727 | the filter of a variable has the edge of each of its patterns with a constant other end, and no other edge |
| `CandidateFilters.OnlyConstFilter` | Query/QueryPlan.cpp:975-994 | every pattern with one variable is in some filter |
| `CandidateFilters.Completecandidate` | Database/PlanGenerator.cpp:989-1051 | whatever predicate filters are added, each edge of them asks no more than one of the query's patterns does |
| `CandidateFilters.RunFilters` | Database/Optimizer.cpp:286-303 | after the filters a cache holds exactly the given candidates that pass every filter of the variable |
| `QueryAnswer.SplitCovers` | Database/PlanGenerator.cpp:1232-1263 | with the join nodes added to the rest, every pattern inside the whole set lies inside one of the two parts, and the parts meet in the join nodes |
| `QueryAnswer.TreeConstraints` | Database/PlanTree.cpp:956-985 | the steps of a plan's tree together check exactly the patterns inside its variables |
| `QueryAnswer.TreeFitsShape` | Database/PlanTree.cpp:466-529 | the tree of every plan of the class can be executed and its steps mean their patterns |
| `QueryAnswer.SatisfiesIffAnswer` | Database/Executor.cpp:814-922 | with the caches filled by the filters, satisfying the joined patterns is answering the query |
| `QueryAnswer.QueryAnswered` | Database/Optimizer.cpp:586-797 | the rows of any plan of the class are the query's answers, each once, whenever execution goes through |
| `QueryRun.PlansSingleIff` | Database/PlanTree.cpp:784-905 | every pair of every plan of the class has a single pattern exactly if no two patterns join the same two variables |
| `QueryRun.CachedTwice` | Database/Optimizer.cpp:286-303 | filtering with the constant edges first and the predicate filters afterwards is filtering with all of them |
| `QueryRun.FilterCandidates` | Database/Optimizer.cpp:286-303 | the caches before planning are what the filters, all constant edges among them, make of the candidates given |
| `QueryRun.DoQuery` | Database/Optimizer.cpp:267-315 | a query without doubly joined variables runs a cheapest plan of the class; it goes through exactly if the plan reads no lost column, and then shows the answers, each in exactly one row |
| `LostColumns.SlipHappens` | Database/Executor.cpp:243-244 | a query, store and plan of the class on which every execution reads a missing column |
| `LostColumns.PathInput` | Database/PlanGenerator.cpp:1219-1271 | that query, store and plan written down |
| `LimitedQuery.OrderAnswered` | Database/PlanTree.cpp:466-529 | for every connected order of the variables the left-deep plan goes through and yields each answer once and nothing else |
| `LimitedQuery.PreTravel` | Query/QueryPlan.cpp:1037-1044 | the operations of a tree are collected children first |
| `LimitedQuery.PostOrderInverse` | Query/QueryPlan.cpp:1037-1044 | for left-deep trees the tree can be read back from the collected operations |
| `LimitedQuery.LimitedAnswers` | Database/Optimizer.cpp:92-163 | a left-deep query with a limit returns the first rows of the breadth-first result |
| `LimitedQuery.SearchApplies` | Database/Optimizer.cpp:92-163 | the operations of every left-deep plan of the class form a chain that the depth-first search accepts and whose lookups the layouts serve |
| `LimitedQuery.DoLimitedQuery` | Database/Optimizer.cpp:405-420 | collecting a left-deep plan's operations and searching them depth first gives the first rows of its breadth-first table under the same columns |
| `TableGrowth.GrownAsBag` | Database/Join.cpp:1054-1271 | growing in place and appending gives the bag of all rows with every valid id |
| `TableGrowth.WalkStep` | Database/Join.cpp:1054-1271 | the walk visits each old row once and never an appended one; the border is the first appended row or the end |
| `OldJoin.MatchRow` | Database/Join.cpp:1075-1225 | with columns as the walk hands them over, the valid ids of a row are those the cache allows and every column with entries allows: by all its constant-predicate entries if it has some, else by a stored triple in each direction that occurs |
| `OldJoin.Join.GrowRow` | Database/Join.cpp:1226-1258 | a row takes its first id in place, the others are appended, and a row without ids is erased |
| `OldJoin.Join.JoinTwo` | Database/Join.cpp:1054-1271 | the table becomes the kept rows and then the appended ones, and the call fails exactly if there are none; with columns as the walk hands them over, each row with an id beside it occurs as often as the row did if its columns and the cache allow the id, and otherwise not at all |
| `OldJoin.JoinedMeaning` | Database/Join.cpp:1116-1230 | the kept and appended rows together have these counts |
| `OldJoinEdges.ColumnMeaning` | Database/Join.cpp:1205-1230 | a column's edges hold exactly if all its constant-predicate entries are stored triples, or, without such entries, each direction that occurs has a stored triple of some predicate |
| `OldJoinEdges.CandidatesMeanRows` | Database/Join.cpp:1116-1230 | an id is a candidate of a row exactly if each column with entries allows it in this sense, and the cache has it |
| `OldJoin.Join.AddIdPosMapping` | Database/Join.cpp:1273-1279 | the variable gets the next column in both maps |
| `OldJoinWalk.ChooseNextNode` | Database/Join.cpp:938-978 | the first edge over an undealt pattern to a core neighbour of the greatest score, or none exactly if there is no such edge |
| `OldJoinWalk.ScoreNode` | Database/Join.cpp:82-132 | the score is one, the shares of the open edges' predicates, and a million over one more than the number of candidates |
| `OldJoinWalk.EntryAdds` | Database/Join.cpp:82-132 | an entry adds ten thousand over one more than its predicate's triples exactly if it is open, leads to a core variable and has a constant predicate |
| `OldJoinWalk.QuietScore` | Database/Join.cpp:82-132 | without such entries the edges add nothing |
| `OldJoinWalk.GrowthMeaning` | Database/Join.cpp:1342-1430 | growing by a neighbour keeps the table exact for the patterns inside the joined variables |
| `OldJoinWalk.ColumnsForEntries` | Database/Join.cpp:1342-1430 | the columns the walk hands over are, for each joined variable, the entries between it and the new one |
| `OldJoinWalk.DealtAfter` | Database/Join.cpp:1436-1444 | every pattern between two joined columns is marked as dealt with |
| `OldJoinWalk.Advance` | Database/Join.cpp:1342-1448 | each turn pops the variable on top of the stack if nothing is open at it, and else joins and pushes its neighbour of the greatest score, or fails if the component has no solutions; the walk's invariant is kept |
| `OldJoinWalk.MultiJoin` | Database/Join.cpp:1298-1466 | the walk ends; on success it has joined exactly the core component of its start, each solution once, with inverse maps and all patterns dealt with; on failure the component has no solutions |
| `OldJoinOutput.PreCandidates` | Database/Join.cpp:330-520 | the predicates allowed for a row by all triples of a predicate variable |
| `OldJoinOutput.PreVarRound` | Database/Join.cpp:305-550 | a round for a predicate variable grows the table by exactly those predicates |
| `OldJoinOutput.ResultWriter.Cartesian` | Database/Join.cpp:722-742 | emits the product of the satellite lists from a position on, and leaves the other columns alone |
| `OldJoinOutput.ProductMembers` | Database/Join.cpp:722-742 | a record is in the product exactly if it takes each satellite column from its list and agrees elsewhere |
| `OldJoinOutput.ProductIncreasing` | Database/Join.cpp:722-742 | the product comes in lexicographic order, so no record comes twice |
| `OldJoinOutput.CopyToResult` | Database/Join.cpp:563-720 | each row emits the product of its satellite lists, and nothing if one of them is empty |
| `OldJoinOutput.RowRecordsMeaning` | Database/Join.cpp:586-742 | which records a row emits |
| `OldJoinAnswer.AnswerSplits` | Database/Join.cpp:619-680 | an answer is a solution of the core together with stored triples to the satellites |
| `OldJoinAnswer.RecordsAreAnswers` | Database/Join.cpp:563-720 | a record is written exactly if it shows an answer's values at the places of the selected variables |
| `OldJoinAnswer.RecordsDistinct` | Database/Join.cpp:563-720 | if all core variables are selected, no record is written twice |
| `OldJoinBasic.LayoutWritesOut` | Database/Join.cpp:586-680 | the places and satellite edges taken from the walk's columns are those of the query, each satellite once |
| `OldJoinBasic.JoinBasic` | Database/Join.cpp:220-287 | walking the core and writing its rows out gives exactly the records of the query's answers, or there are no answers |
| `OldJoinPredicates.PreVarHandler` | Database/Join.cpp:305-556 | all rounds together: the rows there were, with every choice of predicates that their patterns allow beside them, none twice, in the next columns |
| `OldJoinPredicates.WalkAndLabel` | Database/Join.cpp:220-287 | after the walk and the rounds the table holds the solutions of the core, each with every choice of predicates its patterns allow, none twice; or the core has no solutions |
| `OldJoinPredicates.EachChoiceOnce` | Database/Join.cpp:305-556 | an assignment and a choice of predicates fit exactly if a row shows them, and no two rows show the same |
| `OldJoinPredicates.WriteLabelled` | Database/Join.cpp:563-720 | a record is written exactly if a solution of the core with fitting predicates emits it |
| `IdSpaces.IdSpace.Alloc` | Database/Database.cpp:386-414 | serves the head of the free list or the next unused id, and fails once the range is used up |
| `IdSpaces.IdSpace.Free` | Database/Database.cpp:416-432 | the last id lowers the limit, any other goes on the free list |
| `IdSpaces.GivenBackIff` | Database/Database.cpp:386-432 | an id given back is the next one served exactly if it was not the highest one or no other is free, and serving it undoes giving it back |
| `IdSpaces.ResolvedSound` | Database/Database.cpp:3697-3721 | a new word gets an id that was not live; dictionaries stay inverse, live and free ids partition the range, the counter is right |
| `IdSpaces.DroppedSound` | Database/Database.cpp:3930-3950 | forgetting a word and freeing its id keeps all of that |
| `IdSpaces.DroppedTwiceUnsound` | Database/Database.cpp:3930-3967 | freeing a live id twice always breaks it |
| `IdSpaces.EmptySpaceResets` | Database/Database.cpp:153-156 | with no live id the allocator can start over |
| `TripleUpdates.StoresIff` | Database/Database.cpp:3795-3811 | a statement is stored exactly if its words are known and its id triple is stored |
| `TripleUpdates.InsertMeaning` | Database/Database.cpp:3680-3812 | an insertion stores its statement and changes no other |
| `TripleUpdates.RemoveMeaning` | Database/Database.cpp:3848-4003 | a removal removes its statement and changes no other |
| `TripleUpdates.RemovalEnds` | Database/Database.cpp:3930-3967 | the state after a removal is sound exactly if no id was freed twice |
| `TripleUpdates.SelfStatementFreesTwice` | Database/Database.cpp:3930-3967 | a store whose only statement has its subject as object is such a case |
| `TripleUpdates.TwiceFreedIsShared` | Database/Database.cpp:386-432 | after it the next two new words share an id |
| `TripleStore.Database.Insert` | Database/Database.cpp:3679-3845 | reports whether the statement was new, adds exactly it, and keeps ids, dictionaries and counts exact |
| `TripleStore.Database.Remove` | Database/Database.cpp:3848-4003 | reports whether it was there, removes exactly it, and keeps everything exact if and only if no id is freed twice |
| `TripleStore.Database.Run` | Database/Database.cpp:3679-4003 | any run of updates that never removes the last mention of a word that is subject and object at once leaves an id live exactly if a stored triple uses it, and stores what replaying the run on sets gives |
| `TripleStore.Database.RemoveAll` | Database/Database.cpp:5113-5142 | after removing several statements the allocators restart at zero triples and lose no live id |
| `BatchUpdate.GroupsExact` | Database/Database.cpp:5518-5632 | in a sorted batch each key is one group, groups come by increasing key, and a group holds exactly its key's pairs |
| `BatchUpdate.SortedBatchSorted` | Util/Util.cpp:2010-2083 | sorting and dropping repeats gives the batch's triples in strictly increasing order of the pass |
| `BatchUpdate.TripleIndexes.SubBatchUpdate` | Database/Database.cpp:5518-5632 | the accumulate-and-flush loop hands the groups to the index of the pass one after the other and sums up their counts |
| `BatchUpdate.FlushAllMeaning` | Database/Database.cpp:5518-5632 | handing over groups adds or removes their triples, and the counts sum to the triples that changed |
| `BatchUpdate.TripleIndexes.BatchUpdate` | Database/Database.cpp:5323-5366 | the three indexes denote one triple set again, the old one with or without the batch; all three counts equal the number of triples that changed; no key is left with nothing under it |
| `BatchUpdate.DenoteIff` | Database/Database.cpp:5323-5366 | the indexes denote a set exactly if each lists the other two ids of every triple of the set under its key, and no more |
| `Csr.CSR.BuildOut` | Database/Database.cpp:857-897 | the row of a predicate lists the subjects with entity objects, each slice exactly those objects, with inverse numbering |
| `Csr.CSR.BuildIn` | Database/Database.cpp:909-940 | the same for entity objects and their subjects |
| `Csr.RowMatchesStore` | Database/Database.cpp:857-957 | a row lists an edge exactly if the triple is stored and its object is an entity |
| `Csr.RowsTransposed` | Database/Database.cpp:857-957 | the two rows of a predicate are transposes of each other with equally long adjacency lists |
| `Csr.LoadCsr` | Database/Database.cpp:845-957 | this holds for every predicate after loading |
| `CacheSelection.CandidateQueue.Consider` | Database/Database.cpp:1130-1155 | an item is admitted exactly if it fits beside the items at least as valuable; items evicted are less valuable, and none of them has room beside the items kept that are at least as valuable as it; without admission the queue is the same multiset |
| `CacheSelection.CandidateQueue.MakeRoom` | Database/Database.cpp:1135-1141 | never looks at the top of an empty queue, and finds room exactly for admitted items |
| `CacheSelection.CandidateQueue.PutBack` | Database/Database.cpp:1147-1154 | the most valuable first, what fits goes back in, and what stays out has no room beside the items kept that are at least as valuable |
| `CacheSelection.CandidateQueue.GetCandidatePreID` | Database/Database.cpp:1107-1159 | the running total is the sum of the queued sizes and below the budget throughout, in 32-bit sums that never wrap; only lists of predicates in use are queued that are long by the lowest 32 bits of their size; the queue is what considering all such lists one after the other leads to; if all of them fit, all are queued, and they fit when loaded exactly if no size exceeded 32 bits |
| `CacheSelection.InEligibleItems` | Database/Database.cpp:1112-1129 | the lists considered are those of predicates in use that are long and below the budget by the lowest 32 bits of their size |
| `CacheSelection.EligibleIncreasing` | Database/Database.cpp:1112-1129 | each of them once, by increasing predicate |
| `CacheSelection.ConsideredNext` | Database/Database.cpp:1130-1155 | considering one more of them extends what the earlier ones led to |
| `CacheSelection.LoadedWithinIff` | Database/Database.cpp:1118-1121 | the queued lists are within the budget when loaded exactly if none of their sizes exceeded 32 bits |
| `CacheSelection.OversizedAdmitted` | Database/Database.cpp:1118-1121 | a list beyond 32 bits is let in if its lowest 32 bits look small enough |
| `CacheSelection.QueueOversized` | Database/Database.cpp:1107-1159 | the selection run on one list beyond 32 bits queues it, and the queue exceeds the budget when loaded |
| `CacheSelection.NoWrap` | Database/Database.cpp:1130-1154 | within the budget 32-bit sums and differences are the plain ones |
| `UpdateLog.NetUpdates` | Database/Database.cpp:5771-5790 | the loop that erases one round late leaves I-R and R-I as multisets |
| `UpdateLog.EffectiveLogRestores` | Database/Database.cpp:5771-5827 | a log of updates that took effect restores what replaying it in order gives |
| `UpdateLog.RestoresIffCountsAgree` | Database/Database.cpp:5771-5827 | for any log this holds exactly if every statement's counts agree with its last update |
| `UpdateLog.IneffectiveLogFails` | Database/Database.cpp:5855-5862 | a log that records an update without effect and restores something else |
| `UpdateLog.RestoreUpdate` | Database/Database.cpp:5771-5827 | restoring a database leaves it sound and holding what netting leaves |
| `Transactions.LatchStep` | Database/Txn_manager.cpp:144-299 | every step keeps the latch held shared exactly once by each unfinished transaction, and the dirty keys those of the committed write sets already added |
| `Transactions.CheckpointSeesAllCommitted` | Database/Txn_manager.cpp:277-299 | in every run a checkpoint finds no unfinished transaction and dirty keys equal to the committed write sets |
| `Transactions.RecordsRight` | Database/Txn_manager.cpp:238-299 | in every run a transaction's write set holds exactly the keys of its earlier update steps, and it is committed exactly if its commit step is among the earlier ones |
| `Transactions.CheckpointFindsWrites` | Database/Txn_manager.cpp:277-299 | when a checkpoint holds the latch, a key is dirty exactly if some earlier step of the run wrote it for a transaction that has committed |
| `Transactions.CheckpointCleansWrites` | Database/Txn_manager.cpp:383-393 | the keys a checkpoint cleans are exactly those |
| `Transactions.FinalForever` | Database/Txn_manager.cpp:162-217 | committed and aborted transactions stay so, and a committed one writes no more |
| `Transactions.CounterOrderIsHistory` | Database/Txn_manager.cpp:129-160 | over all runs a commit id exceeds its transaction's own id, and one transaction had its commit id before another began exactly if that commit id is at most the other's id |
| `Transactions.WrongCommitBreaksLatch` | Database/Txn_manager.cpp:166-176 | a wrong commit keeps the latch right exactly if no transaction is unfinished, and is harmless exactly if nobody holds it |
| `Transactions.WrongCommitLetsCheckpointIn` | Database/Txn_manager.cpp:166-176 | after one a checkpoint can start beside a running transaction |
| `TransactionManager.TxnManager.Begin` | Database/Txn_manager.cpp:144-160 | a new transaction runs under the next id, with nothing written and the latch held shared: exactly the steps of the interleaved model |
| `TransactionManager.TxnManager.Commit` | Database/Txn_manager.cpp:162-201 | return codes and state of a commit, with a database or without, the steps it is made of, whose hold of the latch ends and which keys become dirty, and when it asks for a checkpoint |
| `TransactionManager.LostCommitBreaksLatch` | Database/Txn_manager.cpp:177-186 | after a commit without a database the transaction runs on and the latch is held once less than transactions are running |
| `TransactionManager.TxnManager.Rollback` | Database/Txn_manager.cpp:225-236 | only a running transaction is rolled back, and only with a database; it lets go of the latch, and no key becomes dirty |
| `TransactionManager.TxnManager.Query` | Database/Txn_manager.cpp:238-275 | the keys written before and the new ones are all in the write set; a conflicting statement aborts its transaction; refused calls, and calls without a database, change nothing |
| `TransactionManager.TxnManager.FailStatement` | Database/Txn_manager.cpp:257-262 | a failed statement aborts its transaction and keeps the record of what it wrote |
| `TransactionManager.TxnManager.Checkpoint` | Database/Txn_manager.cpp:277-299 | cleans exactly the dirty keys if there is a database |
| `TransactionManager.QuietCommitted` | Database/Txn_manager.cpp:162-201 | the six steps of a commit keep the invariants, and amount to one closed change of state |

## Left out

- `Executor.ExtendRecordOneNode`: as for `Executor.JoinANode`.
- `Executor.JoinANode`: lookups by one id are modelled for calls that ask for distinct ids, or where the lookup has no duplicates; the bag-valued variant of one-id lookups is not modelled.
- `ExecutorFilter.OneEdgeConstraintFilter`: edges without any variable are excluded; the loop that erases at `Database/Executor.cpp:773` is modelled as erasing from its input list, which is what the other branches do.
- `ExecutorFilter.ANodeEdgesConstraintFilter`: edges without any variable are excluded here too.
- `IdList.IDList.IntersectList`: the choice among the three strategies depends on the ratio of the sizes and is left open, which covers every choice.
- `DepthFirst.DepthSearchOneLayer`: a table join inside a limited query throws in the source; chains with table joins are excluded.
- `DepthFirst.ExecutionDepthFirst`: for chains whose lookups the layouts serve; what a record holds behind its end is not modelled, so the rows of other chains are not either.
- `BreadthFirst.ExecutionBreathFirst`: operations that fill candidate lists during execution or return all triples (`Database/Optimizer.cpp:619-656`) are not modelled; the plans of the search have none.
- `PlanGenerator.PlanGenerator.GetPlan`: needs at least two join nodes (`Database/PlanGenerator.cpp:1351`) and a connected join graph.
- `PlanGenerator.PlanGenerator.CardEstimator`: sampling is random, so the sampled sizes and averages are arbitrary functions of the set or pair, each drawn once because it is cached; the machine product of a size and an average is an arbitrary function of the two; sums of costs are unbounded integers.
- `PlanTreeBuilder.PlanTree.Scan`: for constant predicates and no satellites, as for the extension.
- `PlanTreeBuilder.PlanTree.BinaryJoin`: predicate variables common to both plans are not among the join columns.
- `PlanTreeBuilder.PlanTree.TwoNodes`: for one pattern between the two nodes; with several, the source uses a null vector (`Database/PlanTree.cpp:812-817`).
- `PlanTreeBuilder.PlanTree.ExtendByOneNode`: for constant predicates; the predicate-variable branches (`Database/PlanTree.cpp:530-612`, `Database/PlanTree.cpp:615-780`) are not modelled. They use a wrong index at line 562, and line 972 compares with the wrong end.
- `QueryRun.DoQuery`: for at least two variables and a connected join graph, as the plan search; queries of a single pattern take another path (`Database/Optimizer.cpp:284-285`). Copying the table into the result list is not part of it.
- `LimitedQuery.DoLimitedQuery`: for left-deep plans of at least two steps and a limit of at least one; the search may also choose plans with table joins, which a limited query cannot run.
- `QueryAnswer.QueryAnswered`: for patterns with constant predicates, at least one variable each, and different variables at the two ends; satellites are not part of it.
- `OldJoinWalk.MultiJoin`: exactness is for constant predicates; `OldJoin.MatchRow` also covers the variable predicates of a row. An invalid predicate id is a lookup without results.
- `OldJoinBasic.JoinBasic`: for constant predicates, satellites that are all selected and have no candidate list, and a core that hangs together; predicate variables are `OldJoinPredicates.WalkAndLabel`.
- `OldJoinPredicates.WalkAndLabel`: for predicate variables whose patterns have at most one end in the core, which the walk passes by; with two core ends the walk follows the pattern too, as a filter by subject or object (`Database/Join.cpp:1116-1230`), and that is not modelled.
- `OldJoinPredicates.WriteLabelled`: the layout of the record's places is given; `OldJoinBasic.LayoutWritesOut` derives it without predicate variables.
- `OldJoin.Join.JoinTwo`: rows are values, so sharing of row vectors between lists is not captured.
- `TripleStore.Database.RemoveAll`: the last statement that mentions a word as subject and object at once is not among those removed; what its removal does is `TripleStore.Database.Remove`.
- `TripleStore.Database.Run`: needs room in the id ranges; exhaustion is only stated for `IdSpaces.IdSpace.Alloc`. The counter of subjects is not modelled, nor are the lists of changed ids for the string index.
- `BatchUpdate.TripleIndexes.BatchUpdate`: starts from id triples; the lookup of words is the one of `TripleStore`. A removal batch with unknown words leaves uninitialised entries (`Database/Database.cpp:5392-5413`), and triples are not counted by batches; neither is modelled. The three threads work on separate indexes and are run one after the other.
- `Csr.LoadCsr`: the number of predicates is a parameter.
- `CacheSelection.CandidateQueue.GetCandidatePreID`: which lists are long is a parameter.
- `UpdateLog.RestoreUpdate`: logged removals of statements whose subject is their object are excluded, since the order of the netted removals decides whether an id is given back twice. Log lines are statements; the source's lines also hold a time (`Database/Database.cpp:5875`), so equal statements of different times do not net there.
- `TransactionManager.TxnManager.Commit`: reports that a checkpoint is due, which the source runs inside the call; runs alone; interleavings are in `Transactions`, where one client drives each transaction. The lookup of an unknown transaction keeps the table latch (`Database/Txn_manager.cpp:51-53`), and the id counter can wrap; neither is modelled.
- Key-value store internals, the string index, statistics, the top-k and random plans, and the preparation of the older join.
- Bounds of machine integers other than where a line above mentions them, files, networking, timing and printing.
