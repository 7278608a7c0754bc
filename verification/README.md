# A verified model of the pointer analysis and of the algorithms in its bundled libraries

The repository is a race detector built on an inclusion-based pointer analysis; it carries copies of
spdlog and googletest.  This project models its hardest parts and proves what they promise:

- **Constraint solvers** (`Constraints`, `AndersenSolver`, `FirstPass`, `AndersenExact`, `AndersenLate`,
  `AndersenPrograms`, `AndersenOrder`, `GraphBuilding`, `Reachability`, `CopyGraph`, `SccOrder`,
  `SccSearch`, `SccIteration`, `Sweeping`, `ConsGraph`, `WaveSolver`, `DeepSteps`, `DeepColors`,
  `DeepSolver`, `DeepForks`, `DeepExact`).  The reference is the least assignment of points-to sets that
  satisfies every addr_of, copy, load and store inclusion (`Constraints`).  The worklist solver, the
  wave solver with collapsing of copy cycles, and the deep solver are classes whose points-to sets and
  copy edges change in place.  The wave solver computes exactly the least assignment; the components it
  collapses come from Tarjan's search, which is proved. The other two solvers stay below the least
  assignment and can miss facts.  For the worklist solver, graphs built from programs are solved exactly
  if the pointers of all stores are fed in the order of their nodes; where every store is of this kind
  or fed from behind, the result is exact iff no late store has anything to do; a program that fails is
  run through the solver; and the outcome of one program is shown to depend on an order the source
  leaves open.  For the deep solver, a fork in the copy edges that is fed late is always missed; a node
  stays grey only if its copy edges lead into a cycle; for systems with loads only the result is exact
  iff no fork needs anything that the given copies do not bring, and an input that fails is run through
  the solver.
- **K-limited contexts and the call graph** (`CallStrings`, `CallGraphs`).  Ring buffer and context
  table, and the breadth-first construction of the context-sensitive call graph, re-entered when
  indirect calls are resolved.  One invariant over every run gives soundness and completeness of the
  edges, says why a node is not expanded, and discharges what the code assumes and asserts.
- **Asynchronous logging** (`BoundedQueue`, `ThreadPool`).  The ring refines a sequence that drops its
  oldest items; the pool is a transition system over all interleavings of posts, takes, finishes and the
  destructor's terminate messages, with safety and progress of the shutdown and the messages that each
  overflow policy can lose; the methods that post and process messages are proved to be its steps.
- **Diffs, regular expressions and UTF-8 in googletest** (`EditDistance`, `UnifiedDiff`, `Regex`,
  `Utf8`).  The edit-script tables and traceback, the unified diff as a patch that can be applied and
  that keeps the lines the script matches and no others, the validator and the backtracking matcher
  against a grammar and a language, the UTF-8 encoder against the UTF-8 validator, and wide strings.
- **Log rotation** (`RotatingFile`).  What becomes of every attempt at removing and renaming a file is
  an input.  Every run in which no renaming fails twice keeps the end of the log; otherwise the files
  hold a subsequence of it; files never exceed the limit; logging fails exactly if some renaming fails
  twice.

`Lists`, `Options` and `Rings` are small helpers.  The project is checked with `dafny verify dfyconfig.toml`.

Conventions: a node of the constraint graph is a number below `n`; an object is the number of its
node; an instruction or function is a number.  A method that changes state says in its contract what
the new state is as a function of the old one, and lemmas about those functions carry the results.
Where the source throws or asserts, the model returns a value that says so.

Where code and comments or names disagree, the model follows the code:

- `CodePointToUtf8` accepts code points up to 0x1FFFFF, although its comment says 10FFFF, and gives
  the empty string for 0 (`Utf8.EncodedIsAcceptedIff` says when the result is valid UTF-8).
- `CalculateOptimalEdits` is not always optimal (`EditDistance.EditsNeedNotBeOptimal`); it is exactly when
  every move on the path it traces is (`EditDistance.ScriptIsOptimalIff`).
- `FullMatch` is a prefix match for expressions that end in an escaped `\$` (`Regex.FullMatchIsExactIff`).
- `CreateUnifiedDiff` prints nothing when no context is asked for (`UnifiedDiff.CreateUnifiedDiff`).
- The deep solver's loop over copy successors returns at its first successor, although its comment points
  to the loop of the published algorithm (`DeepForks.ForkIsMissed`).
- The deep phase reads the points-to set of a collapsed object, and pushes new facts into it, without going
  to its super node (DeepPropagation.h:96 and 116-123), a second cause of missed facts; the model follows it
  (`DeepSteps.Brought`, `DeepSteps.Happens`).
- A store is carried out when its source is popped from the worklist, never when its pointer grows
  (`AndersenLate.LateStoreIsMissed`).
- The iterator over components begins at node 0 even if that has been collapsed, and delivers it as a
  component of its own (`SccIteration.FindSccs`).
- A rotating sink that rotates on opening keeps the size of the old file (`RotatingFile.SizeIsExactIff`).

## Model

| member | source | states |
|---|---|---|
| Constraints.LeastIsUnique | include/aser/PointerAnalysis/Solver/Andersen.h:27-63 | there is at most one least closed state of points-to sets and copy edges, so "the" solution is well defined |
| Constraints.SolvesIffClosed | include/aser/PointerAnalysis/Solver/Andersen.h:27-63 | an assignment satisfies all four kinds of inclusion iff, with the copy edges it justifies, it is closed under the solver's four rules; no closed state has fewer edges |
| Constraints.LeastClosedIsLeastPts | include/aser/PointerAnalysis/Solver/Andersen.h:27-63 | a state is the least closed one iff its points-to sets are the least solution and its copy edges are exactly the justified ones |
| Constraints.LeastPtsIsLeast | include/aser/PointerAnalysis/Solver/Andersen.h:27-63 | every system has a least solution: what all solutions have in common solves it, and holds objects only |
| AndersenSolver.Andersen.constructor | include/aser/PointerAnalysis/Graph/ConstraintGraph/ConstraintGraph.h:167-184 | the facts of the system's addr_of pairs are in the points-to sets before solving and nothing else is; in the graphs of `GraphBuilding` those are the anonymous nodes' only |
| AndersenSolver.Andersen.AddCopy | include/aser/PointerAnalysis/Graph/ConstraintGraph/ConstraintGraph.h:59-118 | a self copy edge is refused; the result is true iff the edge is new |
| AndersenSolver.Andersen.ProcessCopy | include/aser/PointerAnalysis/Solver/SolverBase.h:490-501 | the target's set becomes the union; true iff it grew |
| AndersenSolver.Andersen.ProcessLoad | include/aser/PointerAnalysis/Solver/SolverBase.h:187-209 | a copy edge to the target from every object pointed to; true iff an edge is new |
| AndersenSolver.Andersen.ProcessStore | include/aser/PointerAnalysis/Solver/SolverBase.h:216-239 | a copy edge from the source to every object pointed to; true iff an edge is new |
| AndersenSolver.Andersen.ProcessCopies | include/aser/PointerAnalysis/Solver/Andersen.h:36-40 | after the copies every target has its union, and the targets pushed are exactly those that grew |
| AndersenSolver.Andersen.ProcessStores | include/aser/PointerAnalysis/Solver/Andersen.h:51-57 | all store edges of the node are there, and the node itself is pushed iff one is new |
| AndersenSolver.Andersen.ProcessLoads | include/aser/PointerAnalysis/Solver/Andersen.h:41-50 | all load edges of the node are there, and the objects it points to are pushed iff one is new |
| AndersenSolver.Andersen.ProcessNode | include/aser/PointerAnalysis/Solver/Andersen.h:27-63 | one pop is one step of the run relation: the new facts, and the queue extended by exactly the nodes the rules push |
| AndersenSolver.Andersen.RunSolver | include/aser/PointerAnalysis/Solver/Andersen.h:65-79 | the worklist begins with all nodes in id order and always empties; the result is a complete run, closed under copies and loads, stays below every solution, is the least solution iff the stores are met, and is unchanged iff it was closed already |
| AndersenSolver.RunSound | include/aser/PointerAnalysis/Solver/Andersen.h:27-79 | no fact and no copy edge of any run goes beyond any closed state |
| AndersenSolver.RunPending | include/aser/PointerAnalysis/Solver/Andersen.h:36-57 | in every reachable state the source of every unmet copy or load constraint is in the queue |
| AndersenSolver.RunExit | include/aser/PointerAnalysis/Solver/Andersen.h:65-79 | when the queue is empty every copy edge, also those added on the way, and every load are met |
| AndersenSolver.ExitIsLeastIffStoresMet | include/aser/PointerAnalysis/Solver/Andersen.h:51-79 | the exit state is the least solution iff it meets the store constraints |
| AndersenSolver.PassAddsNothingIffClosed | include/aser/PointerAnalysis/Solver/Andersen.h:65-79 | a whole run adds nothing iff it started at a closed state, so a pass that adds nothing certifies closure under all four kinds |
| AndersenSolver.StepDecreases | include/aser/PointerAnalysis/Solver/Andersen.h:65-79 | every step shrinks the set of missing facts and edges, or leaves it and shortens the queue |
| AndersenSolver.RunOutcome | include/aser/PointerAnalysis/Solver/Andersen.h:65-79 | all that a finished run promises, together |
| FirstPass.RunFlow | include/aser/PointerAnalysis/Solver/Andersen.h:65-79 | in every state of every run on a new graph: the queue still begins with the nodes the first pass has not come to, and a pointer fed in order holds exactly what its copy predecessors held at their turn |
| FirstPass.PushedIff | include/aser/PointerAnalysis/Solver/Andersen.h:36-57 | a node that is no object is pushed iff it grew or a store of its own added an edge |
| AndersenExact.RunServes | include/aser/PointerAnalysis/Solver/Andersen.h:51-79 | in every state the source of a store with fed pointers waits in the queue, or has been popped when its pointers were complete, or nothing has come of it yet |
| AndersenExact.ExactWhenPointersFed | include/aser/PointerAnalysis/Solver/Andersen.h:27-79 | if the pointers of all stores are fed in order and no source of a store starts with facts, as in every graph that is built, every finished run ends with the least solution |
| AndersenExact.ExactIffNoSourceTooEarly | include/aser/PointerAnalysis/Solver/Andersen.h:27-79 | over fed pointers and sources a finished run is the least closed state iff every source that ever needs a new edge receives something by a copy or has an early store edge to add |
| AndersenExact.FirstAndStillIsTooEarly | include/aser/PointerAnalysis/Solver/Andersen.h:51-57 | a source that receives nothing and stands before all facts about its pointer is such a failure |
| AndersenLate.RunStaysTooEarly | include/aser/PointerAnalysis/Solver/Andersen.h:36-57 | in every run the source of a store that is fed from behind is never queued behind a relay that has facts, and never gets a new copy edge |
| AndersenLate.LateStoreIsMissed | include/aser/PointerAnalysis/Solver/Andersen.h:36-57 | if all facts about a store's pointers come through nodes that stand before their own feeders, its edges are never added, and the result is not the least solution, whatever the order of pushes |
| AndersenLate.ExactIffLateStoresIdle | include/aser/PointerAnalysis/Solver/Andersen.h:27-79 | where every store is fed in order or late, a finished run has the least solution iff no late store has anything to store or anywhere to store it |
| AndersenOrder.PushOrderDecides | include/aser/PointerAnalysis/Solver/Andersen.h:36-40 | a program with two complete runs, differing in the order in which one pop pushes two nodes: one ends with the least solution, the other does not |
| GraphBuilding.BuildKeepsMeaning | include/aser/PointerAnalysis/Graph/ConstraintGraph/ConstraintGraph.h:67-90 | facts only at anonymous nodes and copy edges from them instead of addr_of: every node of the program has the same least points-to set, an anonymous node that of its object |
| AndersenPrograms.SolveProgram | include/aser/PointerAnalysis/Solver/Andersen.h:65-79 | a program built and solved: below the least solution; equal to it if all pointers of stores are fed in order; different if there is a late store; and where each store is one or the other, equal iff no late store has anything to do |
| AndersenPrograms.SolveStoreOfItself | include/aser/PointerAnalysis/Solver/Andersen.h:65-79 | the solver run on a program of five nodes ends without a fact of the least solution |
| Reachability.ReachIsClosed | include/aser/PointerAnalysis/Solver/DeepPropagation.h:42-72 | the nodes reached along edges are closed under the edges |
| Reachability.ReachIsLeast | include/aser/PointerAnalysis/Solver/DeepPropagation.h:42-72 | and every closed set that has the start has them |
| Reachability.ReachesIffPath | include/aser/PointerAnalysis/Solver/DeepPropagation.h:42-72 | a node is reached iff it is the end of a path |
| CopyGraph.FixpointIsLeast | include/aser/PointerAnalysis/Solver/WavePropagation.h:30-112 | a graph, collapsed or not, that covers the constraints, goes beyond no solution and has copies, loads and stores met gives, read through super nodes, the least solution |
| CopyGraph.PropagateKeeps | include/aser/PointerAnalysis/Solver/WavePropagation.h:64-69 | handing a points-to set to the copy successors keeps the graph well formed, sound and covering |
| CopyGraph.CollapseKeeps | include/aser/PointerAnalysis/Graph/ConstraintGraph/ConstraintGraph.h:122-162 | collapsing a node into another that has its facts loses no constraint and no fact |
| CopyGraph.CollapseSound | include/aser/PointerAnalysis/Graph/ConstraintGraph/ConstraintGraph.h:122-162 | and goes beyond no assignment in which the two nodes are equal |
| CopyGraph.CollapseDerived | include/aser/PointerAnalysis/Solver/SolverBase.h:83-105 | collapsing a copy cycle's node after the merge keeps the graph covering the system and below every solution |
| SccIteration.FindSccs | include/aser/PointerAnalysis/Graph/ConstraintGraph/SCCIterator.h:186-197 | iterating to the end delivers every live node once, components exactly the copy cycles, no copy edge to a later component; a collapsed node 0 comes first, alone |
| SccSearch.EnterKeepsValid | include/aser/PointerAnalysis/Graph/ConstraintGraph/SCCIterator.h:211-244 | meeting a new child keeps the invariant of the search: numbers in stack order, path nodes reach what was met after them and are reached by what lies below them, every edge looked at has counted |
| SccSearch.LookKeepsValid | include/aser/PointerAnalysis/Graph/ConstraintGraph/SCCIterator.h:229-244 | so does counting the number of a child that was met before |
| SccSearch.LeaveKeepsValid | include/aser/PointerAnalysis/Graph/ConstraintGraph/SCCIterator.h:256-271 | so does leaving a node that is not the root of a component; the path does not become empty by it |
| SccSearch.DeliverKeepsValid | include/aser/PointerAnalysis/Graph/ConstraintGraph/SCCIterator.h:271-285 | at a root what lies above it on the stack is a component: its nodes reach each other and its edges lead nowhere else but to what was delivered before |
| SccIteration.SccIterator.constructor | include/aser/PointerAnalysis/Graph/ConstraintGraph/SCCIterator.h:83-88 | the iterator stands at the first component |
| SccIteration.SccIterator.GetNextSCC | include/aser/PointerAnalysis/Graph/ConstraintGraph/SCCIterator.h:248-286 | delivers one more component, or nothing if the path is empty |
| SccIteration.SccIterator.NextSubGraph | include/aser/PointerAnalysis/Graph/ConstraintGraph/SCCIterator.h:161-184 | the search goes on at the next node that is neither visited nor collapsed; if there is none, everything has been delivered |
| Sweeping.PropagateSweeps | include/aser/PointerAnalysis/Solver/DeepPropagation.h:57-70 | visiting a component of one node settles it: everything it holds has been handed on |
| Sweeping.SccSweeps | include/aser/PointerAnalysis/Solver/DeepPropagation.h:54-57 | collapsing a whole component settles it, and the cache set to the super node's set is right |
| Sweeping.SkipIsPropagate | include/aser/PointerAnalysis/Solver/DeepPropagation.h:59-69 | where the difference to the cache is empty, skipping the propagation is the same as doing it |
| Sweeping.SweptIsClosed | include/aser/PointerAnalysis/Solver/DeepPropagation.h:51-72 | after the sweep every copy edge is an inclusion |
| Sweeping.SweepIsExact | include/aser/PointerAnalysis/Solver/DeepPropagation.h:42-72 | one sweep is enough: every node then reads exactly the union of the initial sets of the nodes with a copy path to it |
| ConsGraph.ConstraintGraph.constructor | include/aser/PointerAnalysis/Graph/ConstraintGraph/ConstraintGraph.h:167-184 | the graph before solving covers the system and goes beyond no solution |
| ConsGraph.ConstraintGraph.AddCopy | include/aser/PointerAnalysis/Graph/ConstraintGraph/CGNodeBase.h:89-110 | the edge goes between super nodes, a self edge is refused, true iff new |
| ConsGraph.ConstraintGraph.ProcessCopy | include/aser/PointerAnalysis/Solver/SolverBase.h:490-501 | union into the target; true iff it grew |
| ConsGraph.ConstraintGraph.ProcessSuccessors | include/aser/PointerAnalysis/Solver/WavePropagation.h:66-68 | every copy successor gets the node's set |
| ConsGraph.ConstraintGraph.CollapseInto | include/aser/PointerAnalysis/Graph/ConstraintGraph/ConstraintGraph.h:134-160 | the edges of every kind are moved in two loops and cleared, and the node is redirected: together one renaming of the graph |
| ConsGraph.MoveEdges | include/aser/PointerAnalysis/Graph/ConstraintGraph/ConstraintGraph.h:134-155 | inserting what leads to the node at the super node, then what leaves it, and clearing the rest leaves the old edges with the node renamed, for copy edges without self edges |
| ConsGraph.ConstraintGraph.ProcessCopySCC | include/aser/PointerAnalysis/Solver/SolverBase.h:83-105 | merge, collapse and hand on, as one transformation of the graph |
| ConsGraph.ConstraintGraph.VisitNode | include/aser/PointerAnalysis/Solver/WavePropagation.h:57-70 | the node's set is handed on and its cache becomes its set, whether or not the difference was empty |
| ConsGraph.ConstraintGraph.VisitComponent | include/aser/PointerAnalysis/Solver/WavePropagation.h:52-72 | one round of the stack loop keeps the sweep invariant and settles one more component |
| ConsGraph.ConstraintGraph.Sweep | include/aser/PointerAnalysis/Solver/WavePropagation.h:43-72 | every copy edge is satisfied afterwards, every node reads exactly what has a copy path to it, and only nodes on a common copy cycle are merged |
| Sweeping.SccIsQuotient | include/aser/PointerAnalysis/Graph/ConstraintGraph/ConstraintGraph.h:122-162 | collapsing a component merges only nodes on one copy cycle, and every edge remains the image of an edge |
| ConsGraph.LoadIncludes | include/aser/PointerAnalysis/Solver/SolverBase.h:182-209 | a copy edge that a load asks for is an inclusion of every solution |
| ConsGraph.StoreIncludes | include/aser/PointerAnalysis/Solver/SolverBase.h:211-239 | so is one that a store asks for |
| WaveSolver.QuietPassIsLeast | include/aser/PointerAnalysis/Solver/WavePropagation.h:74-111 | copies satisfied and every edge cache full: the points-to sets are the least solution |
| WaveSolver.WavePropagation.LinkNodes | include/aser/PointerAnalysis/Solver/SolverBase.h:197-202 | a new copy edge, and the facts along it; true iff the edge is new |
| WaveSolver.WavePropagation.ProcessLoad | include/aser/PointerAnalysis/Solver/SolverBase.h:187-209 | each object of the difference has its copy edge; nothing changed iff no edge is new |
| WaveSolver.WavePropagation.ProcessStore | include/aser/PointerAnalysis/Solver/SolverBase.h:216-239 | the same for stores |
| WaveSolver.WavePropagation.VisitLoad | include/aser/PointerAnalysis/Solver/WavePropagation.h:79-89 | one load edge: keeps the pass invariant, with its cache holding the whole points-to set |
| WaveSolver.WavePropagation.VisitStore | include/aser/PointerAnalysis/Solver/WavePropagation.h:91-101 | one store edge, likewise |
| WaveSolver.WavePropagation.LoadStorePass | include/aser/PointerAnalysis/Solver/WavePropagation.h:74-110 | keeps the caches right; either some pair of nodes becomes related, or nothing changes and every cache is full |
| WaveSolver.WavePropagation.RunSolver | include/aser/PointerAnalysis/Solver/WavePropagation.h:30-112 | terminates, and what clients read is the least solution of the system |
| DeepSolver.LeastIffCopiesMet | include/aser/PointerAnalysis/Solver/DeepPropagation.h:74-137 | with loads and stores met the result is the least solution iff every copy edge is satisfied, which `DeepExact` turns into a condition on the system |
| DeepSolver.QuietDeepPass | include/aser/PointerAnalysis/Solver/DeepPropagation.h:74-137 | a pass that changed no set has all loads and stores met, and every cache equals the points-to set |
| DeepSolver.DeepPropagation.UnmarkBlack | include/aser/PointerAnalysis/Solver/DeepPropagation.h:190-195 | exactly the nodes in the list of black nodes get the default color back; grey nodes stay grey |
| DeepSolver.DeepPropagation.DeepPropagate | include/aser/PointerAnalysis/Solver/DeepPropagation.h:141-188 | exactly which facts are handed on along which path, and the colors and black list left behind; the path is one of copy edges past uncolored nodes, and the answer is true iff it ends at a grey node, or at an uncolored one with a copy edge to the node looked for; terminates below every solution; the flag is set iff a set grew |
| DeepSolver.DeepPropagation.PushOn | include/aser/PointerAnalysis/Solver/DeepPropagation.h:153-175 | the start's set strictly grows; one successor, if there is any and it is not the node looked for, receives exactly what was new, and no other does |
| DeepSolver.DeepPropagation.LinkLoad | include/aser/PointerAnalysis/Solver/DeepPropagation.h:93-97 | exactly the copy edges of the new objects are added, and exactly the facts of those newly linked are brought, the set of one node for each super node |
| DeepSolver.DeepPropagation.VisitLoad | include/aser/PointerAnalysis/Solver/DeepPropagation.h:84-103 | keeps the pass invariant with this load seen, and is one event: the new objects linked, their facts pushed from the target, the black nodes unmarked |
| DeepSolver.DeepPropagation.LinkOneStore | include/aser/PointerAnalysis/Solver/DeepPropagation.h:115-124 | the object is linked; if the edge is new and the object uncolored it receives all of the source's facts |
| DeepSolver.DeepPropagation.LinkStore | include/aser/PointerAnalysis/Solver/DeepPropagation.h:115-125 | all new objects are linked, by events of the phase; the flag is set iff a set grew |
| DeepSolver.DeepPropagation.VisitStore | include/aser/PointerAnalysis/Solver/DeepPropagation.h:108-126 | keeps the pass invariant with this store seen |
| DeepSolver.DeepPropagation.DeepPass | include/aser/PointerAnalysis/Solver/DeepPropagation.h:76-137 | true iff a set grew; otherwise loads and stores are met and caches exact |
| DeepSolver.DeepPropagation.RunSolver | include/aser/PointerAnalysis/Solver/DeepPropagation.h:32-139 | terminates below every solution with loads and stores met and caches exact; the events of the deep phase lead from the swept graph to the result; the least solution iff the copy edges are satisfied; if no node was colored before, only nodes that lead into a copy cycle are colored after, and they are grey |
| DeepSteps.ChainFrame | include/aser/PointerAnalysis/Solver/DeepPropagation.h:141-188 | one call changes points-to sets only, by parts of the given facts, along its path only, and an uncolored start receives them all |
| DeepColors.ChainAnswers | include/aser/PointerAnalysis/Solver/DeepPropagation.h:141-188 | a call follows copy edges past uncolored nodes and never to the node looked for; its last node decides the answer: grey says true, black says false, an uncolored one says whether it has the copy edge |
| DeepColors.ChainFinds | include/aser/PointerAnalysis/Solver/DeepPropagation.h:141-188 | where grey nodes lead into copy cycles, a call that answers true visited only nodes with a copy path to the node looked for or into a cycle |
| DeepColors.PhaseKeepsColors | include/aser/PointerAnalysis/Solver/DeepPropagation.h:74-137 | every run of the deep phase keeps: grey nodes have a copy path into a copy cycle, the black nodes are exactly those listed, and grey is for good |
| DeepColors.GreyMeansCycle | include/aser/PointerAnalysis/Solver/DeepPropagation.h:74-195 | so in every state of the phase of a new solver a grey node has a path of copy edges into a copy cycle |
| DeepColors.NoCycleNoColor | include/aser/PointerAnalysis/Solver/DeepPropagation.h:74-195 | as long as the copy edges have no cycle, no node is colored after any load, or after the unmarking at the end of a store |
| DeepForks.ChainKeepsSplit | include/aser/PointerAnalysis/Solver/DeepPropagation.h:166-175 | one call never brings a fact to both successors of a fork that feeds them alone |
| DeepForks.PhaseKeepsFork | include/aser/PointerAnalysis/Solver/DeepPropagation.h:74-137 | nor does any run of the deep phase, for every system |
| DeepForks.ForkIsMissed | include/aser/PointerAnalysis/Solver/DeepPropagation.h:32-139 | if a fork has to receive an object that the given copies do not bring, the result is not the least solution, whatever the order of nodes and successors |
| DeepExact.ChainCloses | include/aser/PointerAnalysis/Solver/DeepPropagation.h:141-188 | below a load without forks that grow, one call satisfies every copy edge that was open, and never finds its stop node |
| DeepExact.ExactIffForksNeedNothing | include/aser/PointerAnalysis/Solver/DeepPropagation.h:32-139 | without stores, with no object and nothing below a load on a copy cycle, the result is the least solution iff every fork below a load has its least points-to set from the given copies |
| DeepExact.NoForksNoNeed | include/aser/PointerAnalysis/Solver/DeepPropagation.h:166-175 | in particular if nothing below a load has two copy successors |
| DeepExact.Solve | include/aser/PointerAnalysis/Solver/DeepPropagation.h:32-139 | a system solved with a new solver: below every solution, not the least one if there is a late fork, and for systems with loads only the least one exactly if no fork needs anything |
| DeepExact.SolveTwoReaders | include/aser/PointerAnalysis/Solver/DeepPropagation.h:32-139 | the solver run on the graph built for a program of eight nodes does not give the least solution |
| CallStrings.EvolveKeepsSuffix | include/aser/PointerAnalysis/Context/PtrRingBuffer.h:73-76 | after any pushes a context is the last K entries of what was in it followed by the pushes |
| CallStrings.SameContextIffSameSuffix | include/aser/PointerAnalysis/Context/KCallSite.h:28-31 | two call strings share a context iff their null-padded K-suffixes agree |
| CallStrings.OldCallsAreForgotten | include/aser/PointerAnalysis/Context/KCallSite.h:28-31 | the same last K calls give the same context whatever came before |
| CallStrings.AllContextsAreAll | include/aser/PointerAnalysis/Context/KCallSite.h:88-91 | the finite set of all contexts over a set of instructions is exactly the contexts of length K over it |
| CallStrings.EvolveStaysInside | include/aser/PointerAnalysis/Context/KCallSite.h:88-91 | a call leads from this finite set into it, so there are finitely many contexts |
| CallStrings.PtrRingBuffer.constructor | include/aser/PointerAnalysis/Context/PtrRingBuffer.h:51-86 | a new buffer holds N nulls |
| CallStrings.PtrRingBuffer.Copy | include/aser/PointerAnalysis/Context/KCallSite.h:28-31 | a copy has the same contents in a buffer of its own |
| CallStrings.PtrRingBuffer.Push | include/aser/PointerAnalysis/Context/PtrRingBuffer.h:73-76 | the oldest entry is dropped and the new one is the newest |
| CallStrings.PtrRingBuffer.ToSeq | include/aser/PointerAnalysis/Context/PtrRingBuffer.h:14-47 | iterating from begin to end takes exactly N steps and yields the contents, oldest first |
| CallStrings.ContextTable.ContextEvolve | include/aser/PointerAnalysis/Context/KCallSite.h:88-91 | the context after one more call, found or made; contexts made before stay where they are |
| CallStrings.ContextTable.PointersAreContents | include/aser/PointerAnalysis/Context/KCallSite.h:88-91 | pointers to contexts made by calls are equal iff their contents are |
| CallGraphs.VisitStep | include/aser/PointerAnalysis/Program/CtxModule.h:192-254 | linking one call site of the visited node keeps the invariant of every run |
| CallGraphs.ResolveStep | include/aser/PointerAnalysis/Program/CtxModule.h:287-329 | so does linking an indirect call's caller to a resolved target |
| CallGraphs.StartVisit | include/aser/PointerAnalysis/Program/CtxModule.h:192-196 | the head of the queue has never been visited before |
| CallGraphs.CallerOfIndirect | include/aser/PointerAnalysis/Program/CtxModule.h:142-161 | two edges into an indirect node are the same edge, from the function that holds its instruction, under its context |
| CallGraphs.IndirectHasOneCaller | include/aser/PointerAnalysis/Program/CtxModule.h:299-308 | every indirect node has exactly one incoming edge, as resolveCallTo asserts |
| CallGraphs.EdgesAreExact | include/aser/PointerAnalysis/Program/CtxModule.h:163-254 | the edges are exactly those that a call site of a visited node, or a resolution, accounts for |
| CallGraphs.EveryCallSiteIsLinked | include/aser/PointerAnalysis/Program/CtxModule.h:192-285 | on return every call site of every node that is not external has the edge to the node of the evolved context and redirected target, or of the indirect instruction |
| CallGraphs.ExtIsDecided | include/aser/PointerAnalysis/Program/CtxModule.h:100-128 | the target of a direct call is kept out of the expansion only if it is an external function or the language model chose the call site only; it is expanded only if it is not external and the choice was to expand the body |
| CallGraphs.ExternalForAReason | include/aser/PointerAnalysis/Program/CtxModule.h:121-128 | in every run a node marked external has an external function, or an incoming edge at whose instruction the language model redirected a call to that function as a call site only |
| CallGraphs.ExternalIsNotVisited | include/aser/PointerAnalysis/Program/CtxModule.h:121-128 | a visited node other than the entry has a function that is not external and an incoming edge for which the body was to be expanded |
| CallGraphs.WholeProgramIsLinked | include/aser/PointerAnalysis/Program/CtxModule.h:192-285 | with no external function and no call-site-only choice no node is external, and each call of each node is ignored or has its edge to the function it is redirected to, under the context with its instruction last, or to its own indirect node |
| CallGraphs.ContextsFollowEdges | include/aser/PointerAnalysis/Program/CtxModule.h:192-254 | an edge to a function leads to the caller's context without its oldest entry and with the instruction last, one to an indirect node stays in the caller's context |
| CallGraphs.EveryNodeHasAPath | include/aser/PointerAnalysis/Program/CtxModule.h:261-285 | no node is there without a path of call edges from the entry |
| CallGraphs.CtxModule.GetOrCreateCallNode | include/aser/PointerAnalysis/Program/CtxModule.h:50-140 | the node the language model asks for, found or made; to be expanded iff it is new, direct and not external; `CallGraphs.ExtIsDecided` says what external means |
| CallGraphs.CtxModule.GetOrCreateInDirectCallNode | include/aser/PointerAnalysis/Program/CtxModule.h:142-161 | the node keyed by context and instruction, found or made |
| CallGraphs.CtxModule.CreateEdge | include/aser/PointerAnalysis/Program/CtxModule.h:163-176 | one edge more, unless the call is ignored |
| CallGraphs.CtxModule.LinkCallSite | include/aser/PointerAnalysis/Program/CtxModule.h:228-254 | the target is known and linked, and queued iff it is new and to be expanded |
| CallGraphs.CtxModule.VisitCallNode | include/aser/PointerAnalysis/Program/CtxModule.h:192-225 | the node was not visited before; all its call sites are linked; the queue is unchanged or a new key exists |
| CallGraphs.CtxModule.ExpandFromNode | include/aser/PointerAnalysis/Program/CtxModule.h:178-190 | the breadth-first search ends with an empty queue and the invariant |
| CallGraphs.CtxModule.BuildInitCallGraph | include/aser/PointerAnalysis/Program/CtxModule.h:261-285 | builds the graph from the entry, with an empty queue and the invariant, or does nothing if the entry cannot be expanded; with no external function and no call-site-only choice nothing is external and every call of every node is linked |
| CallGraphs.CtxModule.LinkResolution | include/aser/PointerAnalysis/Program/CtxModule.h:287-322 | ignored, refused by an assertion, or linked: exactly when, and the new state of each |
| CallGraphs.CtxModule.ResolveCallTo | include/aser/PointerAnalysis/Program/CtxModule.h:287-329 | the single caller is linked to the redirected target, a new target is expanded, and the invariant holds again; with no external function and no call-site-only choice nothing is external and every call of every node is linked |
| BoundedQueue.RingAppend | include/spdlog/details/circular_q.h:43-54 | writing at the tail appends to the sequence the ring stands for, without its first item if the tail meets the head |
| BoundedQueue.RingDrop | include/spdlog/details/circular_q.h:80 | advancing the head drops the first item |
| BoundedQueue.CircularQueue.constructor | include/spdlog/details/circular_q.h:25-28 | an empty queue with room for the given number of items |
| BoundedQueue.CircularQueue.MoveFrom | include/spdlog/details/circular_q.h:96-107 | takes over contents and counter, and leaves the other queue disabled |
| BoundedQueue.CircularQueue.PushBack | include/spdlog/details/circular_q.h:43-54 | append, dropping the oldest past the capacity and counting it; a disabled queue stays empty |
| BoundedQueue.CircularQueue.Front | include/spdlog/details/circular_q.h:58-60 | the oldest item |
| BoundedQueue.CircularQueue.Size | include/spdlog/details/circular_q.h:63-69 | the number of items, also when the ring wraps around |
| BoundedQueue.CircularQueue.At | include/spdlog/details/circular_q.h:73-76 | the i-th oldest item |
| BoundedQueue.CircularQueue.PopFront | include/spdlog/details/circular_q.h:80 | the oldest item goes |
| BoundedQueue.CircularQueue.Empty | include/spdlog/details/circular_q.h:82 | true iff there is no item |
| BoundedQueue.CircularQueue.Full | include/spdlog/details/circular_q.h:84-90 | true iff the queue is not a disabled one and holds as many items as it has room for |
| BoundedQueue.Conservation | include/spdlog/details/circular_q.h:43-54 | over any run pushes = pops + size + overruns |
| BoundedQueue.HistoryOfPush | include/spdlog/details/mpmc_blocking_q.h:29-45 | a push keeps: what went in is, in order, what came out or was overrun, followed by what is there |
| BoundedQueue.HistoryOfLeave | include/spdlog/details/mpmc_blocking_q.h:49-60 | so does the oldest item's leaving, popped or overrun |
| BoundedQueue.MpmcBlockingQueue.Enqueue | include/spdlog/details/mpmc_blocking_q.h:29-36 | waits while full; never overruns |
| BoundedQueue.MpmcBlockingQueue.EnqueueNowait | include/spdlog/details/mpmc_blocking_q.h:39-45 | never waits; the oldest item is overrun iff the queue is full |
| BoundedQueue.MpmcBlockingQueue.DequeueFor | include/spdlog/details/mpmc_blocking_q.h:49-60 | false iff there is nothing to take, otherwise the oldest item |
| ThreadPool.NewIsFine | include/spdlog/details/thread_pool-inl.h:15-28 | built iff 1 to 1000 threads are asked for, and then with the given capacity, an empty queue, that many workers and the invariant |
| ThreadPool.StepKeepsInv | include/spdlog/details/thread_pool-inl.h:34-102 | every step of every interleaving keeps the invariant: live workers = terminates queued + unposted, nothing follows a terminate, every message is accounted for |
| ThreadPool.RunKeepsInv | include/spdlog/details/thread_pool-inl.h:34-102 | so does every run |
| ThreadPool.PostWaitsIff | include/spdlog/details/thread_pool-inl.h:59-65 | a post that may overrun the oldest message never waits, a blocking one waits iff there is no room |
| ThreadPool.RunLoses | include/spdlog/details/thread_pool-inl.h:59-65 | in every run exactly one message is lost for each post that may overrun the oldest and meets a full queue, and none otherwise |
| ThreadPool.LostByOverrunsOnly | include/spdlog/details/thread_pool-inl.h:30-102 | the same for every run of a new pool; if all posts block nothing is lost: what was taken followed by the queue is what was posted, in order |
| ThreadPool.PostAsyncMsg | include/spdlog/details/thread_pool-inl.h:59-65 | posting through the queue is the step of the pool; it waits iff the policy is to block and there is no room; the overrun counter grows iff it overran |
| ThreadPool.ProcessNextMsg | include/spdlog/details/thread_pool-inl.h:75-102 | processing a message is the steps of one worker of the pool; it stays active unless the oldest message was a terminate |
| ThreadPool.ShutdownIsClean | include/spdlog/details/thread_pool-inl.h:34-45 | whenever all workers have exited the queue is empty, each worker has handled exactly one terminate, as the last of its messages, and every earlier message was handled or counted as overrun; no terminate is ever overrun |
| ThreadPool.ProgressDecreases | include/spdlog/details/thread_pool-inl.h:67-102 | in a closing pool every step but a timeout shrinks what remains |
| ThreadPool.ProgressIsPossible | include/spdlog/details/thread_pool-inl.h:34-102 | with room for one message, a closing pool that is not done can take such a step |
| ThreadPool.ShutdownIsBounded | include/spdlog/details/thread_pool-inl.h:34-45 | so the number of steps of a shutdown without timeouts is bounded |
| ThreadPool.NoCapacityNoShutdown | include/spdlog/details/thread_pool-inl.h:34-45 | with no room at all no run of a closing pool posts a terminate or lets all workers exit, so the destructor waits forever |
| EditDistance.CalculateOptimalEdits | utils/googletest/src/gtest.cc:1035-1090 | the script is the traceback of the tables, turns left into right with matches only at equal elements, costs what the last cell says, and is a cheapest one iff every move on its path is best |
| EditDistance.ScriptIsValid | utils/googletest/src/gtest.cc:1080-1090 | every traceback ends at the origin with a valid script whose moves sum up to the cell's cost |
| EditDistance.CheaperIffFewerEdits | utils/googletest/src/gtest.cc:1069-1075 | below 100000 moves a script is cheaper than another iff it has fewer edits, or as many and fewer replacements |
| EditDistance.FillBorders | utils/googletest/src/gtest.cc:1042-1051 | first row and column of both tables |
| EditDistance.FillRow | utils/googletest/src/gtest.cc:1053-1078 | one more row of both tables |
| EditDistance.FillCell | utils/googletest/src/gtest.cc:1055-1076 | one more cell of both tables; all others keep what they have |
| EditDistance.ChoiceIsBestIffDecided | utils/googletest/src/gtest.cc:1062-1076 | the cost chosen from three neighbours is the least possible iff the elements are equal or one neighbour is strictly the cheapest; a tie takes the replacement, which is then too dear |
| EditDistance.TraceBack | utils/googletest/src/gtest.cc:1080-1090 | following the moves from the last cell never leaves the table and gives the script front to back |
| EditDistance.NoScriptIsCheaper | utils/googletest/src/gtest.cc:1035-1090 | the textbook distance is a lower bound of every valid script's cost |
| EditDistance.BestIsAttained | utils/googletest/src/gtest.cc:1035-1090 | and some valid script attains it |
| EditDistance.TableOptimalIffDecided | utils/googletest/src/gtest.cc:1055-1076 | all cells are optimal iff every mismatched cell has a strictly cheapest neighbour |
| EditDistance.ScriptIsOptimalWhenDecided | utils/googletest/src/gtest.cc:1055-1090 | if all mismatched cells are decided, no valid script is cheaper than the one returned |
| EditDistance.ScriptIsOptimalIff | utils/googletest/src/gtest.cc:1055-1090 | the returned script is a cheapest one iff on its path every replacement is strictly cheaper than removing and adding, and every removal or addition at most as dear as the others, judged by least costs |
| EditDistance.CellOptimalIffPathIsBest | utils/googletest/src/gtest.cc:1055-1090 | a cell holds the least cost iff every move of its traceback is best |
| EditDistance.EditsNeedNotBeOptimal | utils/googletest/src/gtest.cc:1065-1075 | two three-element inputs for which the script costs more than another valid one |
| EditDistance.InternalStrings.GetId | utils/googletest/src/gtest.cc:1095-1107 | equal strings get equal ids, different strings different ones, and ids never change |
| EditDistance.InternalStrings.GetIds | utils/googletest/src/gtest.cc:1111-1122 | the ids of a list of strings, in order |
| EditDistance.CalculateOptimalEditsOfLines | utils/googletest/src/gtest.cc:1111-1125 | comparing ids is comparing lines: the same script as on the strings |
| UnifiedDiff.Hunk.PushLine | utils/googletest/src/gtest.cc:1142-1158 | the line joins exactly the side or sides it belongs to, and counts, leading and trailing context follow, although removed lines are moved before added ones |
| UnifiedDiff.Hunk.FlushEdits | utils/googletest/src/gtest.cc:1173-1176 | the waiting lines, removed ones first, follow the others |
| UnifiedDiff.Hunk.PrintTo | utils/googletest/src/gtest.cc:1160-1194 | the header names a side iff it has lines of its own, with its start and true length; no added line is directly before a removed one |
| UnifiedDiff.SkipMatches | utils/googletest/src/gtest.cc:1218-1223 | the edits up to the next that is not a match, over equal lines on both sides |
| UnifiedDiff.PushPrefix | utils/googletest/src/gtest.cc:1228-1230 | the hunk begins with the given number of lines before the current one, as context of both sides |
| UnifiedDiff.StartHunk | utils/googletest/src/gtest.cc:1218-1230 | the hunk's start on both sides does not underflow; its context is what was asked for, or all there is |
| UnifiedDiff.NextIsFar | utils/googletest/src/gtest.cc:1236-1245 | true iff the next edit is at least the context away or does not exist |
| UnifiedDiff.PushEdit | utils/googletest/src/gtest.cc:1247-1260 | each edit adds its line to the side or sides it belongs to; only a match is no edit |
| UnifiedDiff.FillHunk | utils/googletest/src/gtest.cc:1232-1261 | the hunk lists the lines of both sides it moved over, keeps the pairs of lines that the edits match, ends only with enough context behind it and no edit near, and has fewer than twice the context between two of its edits |
| UnifiedDiff.NextHunk | utils/googletest/src/gtest.cc:1217-1269 | the next hunk follows the ones before it without overlap and over equal gaps; start lines never underflow |
| UnifiedDiff.PrintHunks | utils/googletest/src/gtest.cc:1215-1270 | the loop's hunks lead from the beginning to a place from which both texts are the same; the lines they and the gaps keep are those the edits match |
| UnifiedDiff.OneMoreHunk | utils/googletest/src/gtest.cc:1217-1269 | a hunk in its place extends a list of hunks that do not overlap |
| UnifiedDiff.HunksPatch | utils/googletest/src/gtest.cc:1203-1209 | applying such hunks to the left text, by what is printed only, gives the right text |
| UnifiedDiff.KeptOrMarked | utils/googletest/src/gtest.cc:1203-1209 | every line of the left text is kept by the diff or has a minus, every line of the right one is kept or has a plus |
| UnifiedDiff.DiffKeepsScript | utils/googletest/src/gtest.cc:1210-1271 | a diff that keeps the pairs a script matches has as many minus lines as the script removes or replaces, and as many plus lines as it adds or replaces |
| UnifiedDiff.SameTextsMatch | utils/googletest/src/gtest.cc:1055-1090 | the script of a text and itself keeps every line |
| UnifiedDiff.CreateUnifiedDiff | utils/googletest/src/gtest.cc:1210-1271 | with context the hunks are exact slices, do not overlap, have the asked context around their edits, and join edits exactly when their contexts would overlap; the diff is a correct patch iff context was asked for or the texts are equal; with context it keeps exactly the pairs of lines the edit script matches, removes and adds as many lines as the script, and is empty iff the texts are equal |
| Regex.AtomIsDocumented | utils/googletest/src/gtest-port.cc:794-813 | a valid atom matches exactly the characters it is documented to match |
| Regex.ValidEscapesAreListed | utils/googletest/src/gtest-port.cc:777-790 | what may follow a backslash is exactly the visible ASCII characters that are no letters or digits, and eleven letters |
| Regex.ValidateRegex | utils/googletest/src/gtest-port.cc:823-874 | true iff the text is written out from the grammar |
| Regex.RegexIsUnique | utils/googletest/src/gtest-port.cc:823-874 | a text is at most one expression |
| Regex.MatchRepetitionAndRegexAtHead | utils/googletest/src/gtest-port.cc:883-905 | true iff some allowed number of repetitions leaves a rest whose head matches |
| Regex.MatchRegexAtHead | utils/googletest/src/gtest-port.cc:910-936 | true iff some prefix, the whole string if the expression ends in $, is in the language; neither string is read beyond its terminator |
| Regex.HeadIsStepwise | utils/googletest/src/gtest-port.cc:910-936 | matching a prefix is matching one item some number of times and then a prefix of the rest |
| Regex.RepeatsByFirst | utils/googletest/src/gtest-port.cc:883-905 | what the marks mean by their first character: ? tries the rest without the atom or with it once, * without it or with it and then again, + with it and then as * |
| Regex.MatchRegexAnywhere | utils/googletest/src/gtest-port.cc:946-958 | true iff some substring, respecting ^ and $, is in the language |
| Regex.WriteFullPattern | utils/googletest/src/gtest-port.cc:990-1010 | the buffer is big enough, and holds the text with ^ and $ added where they are missing |
| Regex.FullPatternIsPrinted | utils/googletest/src/gtest-port.cc:990-1010 | the full pattern is the same expression anchored at both ends, but not at the end if it ends in an escaped dollar |
| Regex.RE.constructor | utils/googletest/src/gtest-port.cc:979-1010 | valid iff the text is an expression; the full pattern is then built |
| Regex.RE.FullMatch | utils/googletest/src/gtest-port.cc:968-970 | whole-string membership, or a prefix match for expressions that end in an escaped dollar |
| Regex.RE.PartialMatch | utils/googletest/src/gtest-port.cc:974-976 | some substring is in the language |
| Regex.FullMatchIsExactIff | utils/googletest/src/gtest-port.cc:968-1010 | FullMatch is whole-string membership for every string iff the expression does not end in an escaped dollar |
| Utf8.CodePointToUtf8 | utils/googletest/src/gtest.cc:1764-1790 | the bytes of the RFC 3629 table up to 21 bits, nothing for 0, an error text above |
| Utf8.ChopLowBits | utils/googletest/src/gtest.cc:1752-1756 | the lowest bits and the shifted rest; for six bits, put together again, they are the original bits |
| Utf8.IsValidUTF8 | utils/googletest/src/gtest-printers.cc:382-415 | the loop accepts iff the bytes split into accepted characters, without reading past the end |
| Utf8.HeadIsEncoded | utils/googletest/src/gtest-printers.cc:386-412 | what is accepted as one character is the encoding of one scalar value |
| Utf8.EncodedHead | utils/googletest/src/gtest.cc:1764-1790 | an encoding is accepted as one character and read back iff the code point is a scalar value |
| Utf8.EncodedIsAcceptedIff | utils/googletest/src/gtest-printers.cc:382-415 | the encoding of a text is accepted iff the text consists of scalar values |
| Utf8.AcceptedIffEncoded | utils/googletest/src/gtest-printers.cc:382-415 | accepted byte strings are exactly the encodings of texts of scalar values |
| Utf8.NulFreeAcceptedIff | utils/googletest/src/gtest-printers.cc:382-415 | for bytes without a zero, of scalar values other than zero |
| Utf8.EncodingIsUnique | utils/googletest/src/gtest.cc:1764-1790 | different texts have different encodings |
| Utf8.WideStringToUtf8 | utils/googletest/src/gtest.cc:1831-1852 | the pieces are those of the code points of the string, surrogate pairs joined if wide characters have 16 bits and none if they have 32, up to the terminator and the limit |
| Utf8.Utf16IsRead | utils/googletest/src/gtest.cc:1799-1852 | the code points of UTF-16 are read back exactly |
| Utf8.Utf32IsRead | utils/googletest/src/gtest.cc:1799-1852 | wide characters of 32 bits are read as the code points they are |
| Utf8.WideIsAcceptedIff | utils/googletest/src/gtest.cc:1799-1852 | the UTF-8 of a 16-bit wide string is accepted iff the string is well-formed UTF-16 |
| RotatingFile.ReadRotated | include/spdlog/sinks/rotating_file_sink-inl.h:77-105 | a rotation drops exactly the oldest file, and only if another takes its place; the rest stays in order |
| RotatingFile.RotatedFileByFile | include/spdlog/sinks/rotating_file_sink-inl.h:77-105 | after a rotation file 0 is empty and each other file is what the one before it was; the last one stays if there was none before it |
| RotatingFile.ReadBroken | include/spdlog/sinks/rotating_file_sink-inl.h:88-101 | a failed rotation loses the newest file, and of the oldest messages at most one file |
| RotatingFile.RunRetains | include/spdlog/sinks/rotating_file_sink-inl.h:55-105 | after any run without failures the files, oldest first, hold a suffix of everything ever logged |
| RotatingFile.RunWithRetries | include/spdlog/sinks/rotating_file_sink-inl.h:82-104 | a run in which no renaming fails twice is the run without failures |
| RotatingFile.RunKeepsOrder | include/spdlog/sinks/rotating_file_sink-inl.h:55-115 | whatever fails, they hold a subsequence of it |
| RotatingFile.RunKeepsInv | include/spdlog/sinks/rotating_file_sink-inl.h:55-115 | whatever fails, every file is within the limit or a single non-empty message, and no file has an index above the maximum |
| RotatingFile.LogFromNoFiles | include/spdlog/sinks/rotating_file_sink-inl.h:26-64 | a log opened where there were no files: all files within their limits at every moment, a subsequence of the log at the end whatever failed, and the end of it if no renaming failed twice |
| RotatingFile.SizeIsExactIff | include/spdlog/sinks/rotating_file_sink-inl.h:26-34 | the recorded size is file 0's size after opening iff no non-empty file was rotated away |
| RotatingFile.NextSizeIsExact | include/spdlog/sinks/rotating_file_sink-inl.h:55-101 | once right it stays right, and any rotation makes it right |
| RotatingFile.RotatesTwice | include/spdlog/sinks/rotating_file_sink-inl.h:26-64 | a sink that rotated on opening leaves an empty file behind at the first message that would not have fitted into the old file |
| RotatingFile.RotatingFileSink.Open | include/spdlog/sinks/rotating_file_sink-inl.h:26-34 | file 0 exists; it was rotated away iff that was asked for and it was not empty; throws iff in some round of that rotation with a file to rename both attempts fail |
| RotatingFile.RotatingFileSink.SinkIt | include/spdlog/sinks/rotating_file_sink-inl.h:55-64 | throws iff the message does not fit and in some round with a file to rename both attempts fail; otherwise the message is in file 0, after a rotation iff it did not fit, and that moves every file up by one |
| RotatingFile.RotatingFileSink.Rotate | include/spdlog/sinks/rotating_file_sink-inl.h:77-105 | succeeds iff in every round with a file to rename one of the two attempts succeeds; then all rounds are done and file 0 is empty, else the first round that failed, whether its target was removed, and file 0 emptied |
| RotatingFile.RotatingFileSink.RenameFile | include/spdlog/sinks/rotating_file_sink-inl.h:110-115 | the source replaces the target iff renaming succeeds; if not, the target is gone iff removing it succeeded |

## Left out

- AndersenSolver.Andersen.RunSolver: does not promise the store constraints, because one run does not meet them in general, and `AndersenOrder.PushOrderDecides` shows that whether it does is not a function of the input; the conditions of `AndersenExact` and `AndersenLate` are exact for the stores they cover.
- DeepSolver.DeepPropagation.RunSolver: does not promise satisfied copy edges, because the successor loop serves one successor only and grey nodes are never reset; `DeepExact.ExactIffForksNeedNothing` says exactly when they are satisfied for systems with loads only, `DeepForks.ForkIsMissed` gives the failing side for all.
- SccIteration.FindSccs: the empty graph, on which the source would read node 0; the iterator's second constructor with a work list; the overflow of its 32-bit visit numbers.
- Utf8.WideStringToUtf8: gives a list of pieces; the text "(Invalid Unicode 0x...)" is not spelled out.
- UnifiedDiff.CreateUnifiedDiff: gives hunks as records; rendering the header's numbers and the newlines as text is not modelled, nor are lines that contain newlines.
- RotatingFile.RotatingFileSink.SinkIt: opening and writing files always succeed; only removing and renaming may fail.
- ThreadPool.ShutdownIsClean: posts after the destructor has begun are not modelled; the source leaves them to the caller.
- Offset (field) constraints, creation of nodes while solving, and the loop that re-runs a solver after function pointers are resolved: they need the memory and language models.
- The set of collapsed child nodes and of indirect call nodes kept for clients of a super node.
- CallStrings.ContextTable.ContextEvolve: interns by equality of contents; `KCallSite::operator==` compares a context with itself, so it is always true, and which contexts share a hash bucket is left out.
- CallGraphs.CtxModule.GetOrCreateCallNode: the branch for the entry, which has no call instruction, is part of `CallGraphs.CtxModule.BuildInitCallGraph`.
- UnifiedDiff.Hunk.PrintTo: gives the header as numbers, not as text.
- The partial-update solver, the language models, LLVM IR and the passes.
- Formatting, patterns, clocks, consoles, and all other sinks; a formatted message is a value with a length.
- Mutexes, condition variables and time: critical sections are single steps and a timeout is a step that changes nothing.
- The wrap-around of size_t counters; strings longer than size_t can index are excluded for the matcher, as its comment says.
- Characters beyond 8 bits: the matcher's model takes any character, and only the ASCII ones are classified.
- Death tests, reporters, flags and the rest of googletest.
