# Verified models of the ns-3 tooling

Dafny models of the algorithms in the ns-3 repository that do not need the simulator library: the
programs under `utils/`, the test runner, the Python module loader and three example programs. Each
module states what the code computes as methods in the code's own form, and proves properties of that
behaviour against an independent definition.

| file | subject |
|---|---|
| `ConfigPaths.dfy` | the depth-first gatherer of configuration paths over the type graph; the reference is the set of simple walks |
| `TypeEdges.dfy` | which edges a type has, and in which order |
| `PathUniqueness.dfy` | which graphs make the gatherer repeat an entry |
| `WorkerPool.dfy` | the worker pool of the test runner as a step relation; conservation, progress, interrupts and counts over all schedules |
| `StyleFixer.dfy`, `StyleLaws.dfy`, `StyleEffects.dfy` | the whitespace and tab checks with clang-format guards; idempotence, both passes together, checking against fixing; what is done to each line, said in characters |
| `LoadOrder.dfy` | the layered load order of the libraries; the reference is the set of dependency chains |
| `EventBench.dfy` | the scheduler benchmark with its event queue |
| `Welford.dfy` | the running mean and variance over exact reals; the reference is the two-pass definition |
| `TimelineIndex.dfy` | binary searches, window queries and bounds of the timeline viewer |
| `Fairness.dfy` | the 64-bit computation of Jain's fairness index against the exact index |
| `StreamWriter.dfy` | the resumable writer against an adversarial socket |
| `AdjacencyMatrix.dfy`, `MatrixText.dfy` | the adjacency-matrix reader and printer over text; which texts are accepted and what is printed, said in characters |
| `Common.dfy` | shared notions |

`dafny verify dfyconfig.toml` checks the whole project.

## Where the code and its documentation differ

The models follow the code.

- `Uniquefy` is documented to modify its container in place, but takes it by value. `Gather` therefore
  neither sorts nor removes duplicates. `PathUniqueness.Icmpv4RepeatsEntry` shows it on the aggregations
  the program registers, where `ns3::Node` with `ns3::Icmpv4L4Protocol` occurs twice, and
  `PathUniqueness.OutputDiffersIff` says exactly when the entries of all searches are different.
- A window query on data ranges whose two endpoints both fall between ranges returns nothing, even when
  ranges lie inside the window (`TimelineIndex.BothMissLosesRanges`). `TimelineIndex.SelectionExactIff`
  says exactly when a query returns the ranges meeting its window.
- An event query whose endpoint is the time of several events may miss some of them
  (`TimelineIndex.SharedEndpointLosesEvents`); events strictly inside the window are never missed. All
  queries are complete exactly when no two events share a time (`AllCompleteIff`), a query for one time
  exactly when at most one event is at it (`InstantCompleteIff`), and a query over a proper window exactly
  when the halving meets the first event at its start and the last event at its end before the others,
  which depends on their positions only (`WindowCompleteIff`).
- The overall bounds of a timeline start from 0, so they are the least interval that contains 0 as well.
  `TimelineIndex.HullTightIff` says exactly when that makes no difference.
- The writer's callback does not return while the socket reports space and takes nothing.
  `StreamWriter.NeverReturnsIff` says exactly when it never returns.
- The fairness index is computed from products that wrap at 2^64. `Fairness.NothingWrapsIff` says exactly
  when nothing wraps, `Fairness.PrintedIsIndexIff` exactly when the printed value is the index all the
  same, and `Fairness.LargeCounterLosesIndex` gives a family of counters for which no index is printed.
- `dependency_order` recurses without end when a step loads nothing; the model reports that as `ok == false`, and
  `LoadOrder.ReturnsIff` says exactly when the recursion returns.

## Model

| member | source | states |
|---|---|---|
| ConfigPaths.StaticInformation.HasAlreadyBeenProcessed | ns-3-dev-git-master/utils/print-introspected-doxygen.cc:379-391 | true exactly for the types on the path stack |
| ConfigPaths.StaticInformation.GetCurrentPath | ns-3-dev-git-master/utils/print-introspected-doxygen.cc:360-370 | the labels of the current path, each behind a slash |
| ConfigPaths.StaticInformation.RecordOutput | ns-3-dev-git-master/utils/print-introspected-doxygen.cc:372-377 | appends the type with the current path |
| ConfigPaths.StaticInformation.DoGather | ns-3-dev-git-master/utils/print-introspected-doxygen.cc:447-531 | on every graph, cyclic ones and self-aggregations included, the search ends, leaves both stacks as on entry, keeps the type stack free of duplicates, and appends the entries that `SearchEnumeratesSimpleWalks` characterises |
| ConfigPaths.StaticInformation.GatherAttributes | ns-3-dev-git-master/utils/print-introspected-doxygen.cc:456-496 | the first loop follows the attribute edges in order, except pointers to Object |
| ConfigPaths.StaticInformation.GatherChildren | ns-3-dev-git-master/utils/print-introspected-doxygen.cc:497-509 | the second loop follows the registered descendants in registration order |
| ConfigPaths.StaticInformation.GatherAggregates | ns-3-dev-git-master/utils/print-introspected-doxygen.cc:510-530 | the third loop follows every aggregation of the type to its other end |
| ConfigPaths.StaticInformation.Gather | ns-3-dev-git-master/utils/print-introspected-doxygen.cc:439-445 | only appends what the search appends: the by-value `Uniquefy` changes nothing |
| ConfigPaths.StaticInformation.GatherAll | ns-3-dev-git-master/utils/print-introspected-doxygen.cc:586-590 | gathers the roots one after the other |
| ConfigPaths.StaticInformation.Get | ns-3-dev-git-master/utils/print-introspected-doxygen.cc:393-406 | the recorded paths of one type, in recording order |
| TypeEdges.EdgeIff | ns-3-dev-git-master/utils/print-introspected-doxygen.cc:456-530 | an edge leaves a type if and only if an attribute points to another type than Object, an attribute is a vector, a registered type descends from the type, or an aggregation has the type at either end; with the names each of these gives |
| TypeEdges.EdgesAreGiven | ns-3-dev-git-master/utils/print-introspected-doxygen.cc:456-530 | each attribute, registered type and aggregation that gives an edge gives one, attributes before types before aggregations and each kind by number, and nothing else does |
| TypeEdges.SourceGivesOneEdge | ns-3-dev-git-master/utils/print-introspected-doxygen.cc:476-523 | what such a source gives is determined |
| TypeEdges.PointersToObjectSkipped | ns-3-dev-git-master/utils/print-introspected-doxygen.cc:463-475 | an attribute pointing to Object gives no edge |
| TypeEdges.JoinIsSlashed | ns-3-dev-git-master/utils/print-introspected-doxygen.cc:360-370 | a path is a slash and its first label, followed by the path of the others |
| TypeEdges.GetKeepsRootOrder | ns-3-dev-git-master/utils/print-introspected-doxygen.cc:393-406 | the paths of a further root come behind those of the roots before it |
| ConfigPaths.OpenShrinks | ns-3-dev-git-master/utils/print-introspected-doxygen.cc:476-480 | following an edge strictly shrinks the finite set of types that may still be entered |
| ConfigPaths.SearchEnumeratesSimpleWalks | ns-3-dev-git-master/utils/print-introspected-doxygen.cc:447-531 | a search appends exactly one entry, end type and joined labels behind the current path, for each walk that repeats no type and avoids the types on the stack, in depth-first preorder, and nothing else |
| ConfigPaths.BeforeIsStrict | ns-3-dev-git-master/utils/print-introspected-doxygen.cc:447-531 | the preorder of walks is strict, so no walk is listed twice |
| ConfigPaths.GetReturnsSimplePaths | ns-3-dev-git-master/utils/print-introspected-doxygen.cc:393-406 | after gathering any roots, a path is returned for a type if and only if it labels a simple walk from a root to that type |
| ConfigPaths.GetListsEveryWalkOnce | ns-3-dev-git-master/utils/print-introspected-doxygen.cc:393-406 | for one root the returned paths are those of all simple walks to the type, each walk once, in preorder |
| ConfigPaths.RepeatedEdgeRepeatsEntry | ns-3-dev-git-master/utils/print-introspected-doxygen.cc:423-445 | two equal edges out of a type that a simple walk reaches give duplicate entries, which nothing removes; `PathUniqueness.EntriesDifferIff` has the other direction |
| PathUniqueness.EntriesDifferIff | ns-3-dev-git-master/utils/print-introspected-doxygen.cc:423-445 | when names tell edges apart, the entries of one search are all different if and only if no type reached by a simple walk has two equal edges to a type not yet visited; `OutputDiffersIff` is about all searches |
| PathUniqueness.OutputDiffersIff | ns-3-dev-git-master/utils/print-introspected-doxygen.cc:423-445 | when names tell edges apart, the output for any list of roots has no duplicates if and only if no search repeats an entry in that way and no two roots have simple walks with equal labels to the same type |
| PathUniqueness.SharedEntryIff | ns-3-dev-git-master/utils/print-introspected-doxygen.cc:586-590 | two searches share an entry if and only if simple walks from their roots have equal labels and the same end |
| PathUniqueness.WalksPart | ns-3-dev-git-master/utils/print-introspected-doxygen.cc:447-531 | two simple walks with the same labels part at a repeated edge |
| PathUniqueness.JoinInjective | ns-3-dev-git-master/utils/print-introspected-doxygen.cc:360-370 | a printed path determines its list of labels, although a label may end in `/[i]` |
| PathUniqueness.WellNamedTells | ns-3-dev-git-master/utils/print-introspected-doxygen.cc:483-525 | names tell edges apart when attribute names are unique in their type, without slash or leading `$`, and not `[i]`, and type names have no slash |
| PathUniqueness.RepeatedAggregationRepeatsEntry | ns-3-dev-git-master/utils/print-introspected-doxygen.cc:510-530 | an aggregation registered twice repeats an entry from every root that reaches one end before the other |
| PathUniqueness.Icmpv4RepeatsEntry | ns-3-dev-git-master/utils/print-introspected-doxygen.cc:559-579 | the aggregations the program registers repeat an entry, whatever the type registry holds, for every gathered root from which a simple walk reaches ns3::Node and not yet ns3::Icmpv4L4Protocol |
| PathUniqueness.Icmpv4RepeatsEntryOfNode | ns-3-dev-git-master/utils/print-introspected-doxygen.cc:559-579 | so they do below ns3::Node itself |
| WorkerPool.TestRunner.PutInput | ns-3-dev-git-master/test.py:1845-1848 | one dispatch: the next test, or one break job per worker after the last test |
| WorkerPool.TestRunner.GetOutput | ns-3-dev-git-master/test.py:1868-1869 | one collection from the head of the output queue |
| WorkerPool.TestRunner.JoinNext | ns-3-dev-git-master/test.py:2020-2021 | one join, possible when the next worker has stopped |
| WorkerPool.TestRunner.SigintHook | ns-3-dev-git-master/test.py:594-597 | the signal handler sets the exit flag and nothing else |
| WorkerPool.TestRunner.WorkerStep | ns-3-dev-git-master/test.py:1024-1108 | one atomic step of a worker: take a job, stop on a break job, hand back when interrupted or skipped, run, post |
| WorkerPool.NextInv | ns-3-dev-git-master/test.py:1024-1108 | every step of every thread keeps the invariant: FIFO input queue, conservation of jobs, genuine results |
| WorkerPool.ReachableInv | ns-3-dev-git-master/test.py:1561-1564 | the invariant holds in every reachable state, for any number of workers and any interleaving |
| WorkerPool.TimesTakenStep | ns-3-dev-git-master/test.py:1024-1051 | only taking from the input queue changes where a job is counted; all other steps move it on without loss or copy |
| WorkerPool.EveryJobInOnePlace | ns-3-dev-git-master/test.py:1583-1623 | in every reachable state every job, test or break job, is in exactly one of: undispatched, input queue, a worker, output queue, collected |
| WorkerPool.NoTestLeftBehind | ns-3-dev-git-master/test.py:1841-1848 | once any worker has met a break job, all tests were dispatched and none is left in the input queue |
| WorkerPool.MarkedBreaksNeverReachAWorker | ns-3-dev-git-master/test.py:1031-1041 | a test marked as break is only being posted, posted or collected; no worker stops on it, and it exists only after an interrupt |
| WorkerPool.InterruptStopsTheRest | ns-3-dev-git-master/test.py:1850-1858 | after an interrupt, along every continuation, no test that was still queued or undispatched is run; it is collected as interrupted |
| WorkerPool.NextDecreases | ns-3-dev-git-master/test.py:1024-1108 | a non-negative measure decreases at every step of any thread |
| WorkerPool.RunsAreBounded | ns-3-dev-git-master/test.py:1868-1869 | every run is finite: it has no more steps than the measure of its start |
| WorkerPool.NeverStuck | ns-3-dev-git-master/test.py:1868-1869 | with a worker, or with nothing to run, every reachable state before the end has an enabled step other than a signal, so all gets and joins complete |
| WorkerPool.NoWorkersHang | ns-3-dev-git-master/test.py:1561-1564 | without a worker and with a test, the collector waits forever |
| WorkerPool.FinishesIff | ns-3-dev-git-master/test.py:1561-1564 | the pool always gets to the end if and only if it has a worker or no test |
| WorkerPool.NoOutputLeft | ns-3-dev-git-master/test.py:1868-1869 | after as many gets as tests the output queue is empty |
| WorkerPool.FinalIsComplete | ns-3-dev-git-master/test.py:2015-2021 | at the end both queues are empty, all workers have stopped, and every test was collected exactly once |
| WorkerPool.Account | ns-3-dev-git-master/test.py:1860-1904 | the collection loop counts the jobs to skip and those that returned 0, 1, 2 and another code, and leaves out those marked as breaks |
| WorkerPool.FinalCounts | ns-3-dev-git-master/test.py:1860-1904 | with interrupts, each count is at most that of running the tests one by one, and short by at most the interrupted jobs |
| WorkerPool.CountsAreScheduleIndependent | ns-3-dev-git-master/test.py:1860-1904 | without an interrupt the counts are those of running the tests one by one, for every number of workers and every interleaving |
| WorkerPool.ReturnValueIsExact | ns-3-dev-git-master/test.py:2130-2133 | counts and interrupted jobs sum to the total, and the result is 0 if and only if nothing was interrupted and every test is skipped or passes |
| WorkerPool.FinalTally | ns-3-dev-git-master/test.py:1860-1904 | for every number of workers and every interleaving the passed, failed, valgrind, crashed and skipped counts are the numbers of tests that return 0, 1, 2, another code, and are to be skipped, each short by at most the interrupted tests, of which there are none without an interrupt |
| WorkerPool.SkippedNeverRuns | ns-3-dev-git-master/test.py:1047-1051 | no worker ever runs a test to be skipped, nor a break job |
| WorkerPool.ResultsKeepPostingOrder | ns-3-dev-git-master/test.py:1868-1869 | results are collected in the order in which they were posted |
| WorkerPool.TestRunner.RunTests | ns-3-dev-git-master/test.py:1561-2133 | any scheduler that keeps running enabled steps reaches the end and returns that tally and that result |
| StyleFixer.CheckManuallyFile | ns-3-dev-git-master/utils/check-style-clang-format.py:501-563 | the verdict is that of a full scan in every mode, the early exit included; a fix run writes the fixed lines exactly when some line offends; the reports are all offending lines, or the first one |
| StyleFixer.LinesAreText | ns-3-dev-git-master/utils/check-style-clang-format.py:525-526 | reading splits a text into lines that end with their only newline and join to the text again |
| StyleFixer.ReadAfterWrite | ns-3-dev-git-master/utils/check-style-clang-format.py:559-561 | written lines are read back unchanged |
| StyleLaws.StripParts | ns-3-dev-git-master/utils/check-style-clang-format.py:531 | strip removes only whitespace, at the ends |
| StyleLaws.StripOf | ns-3-dev-git-master/utils/check-style-clang-format.py:531 | strip removes all whitespace at the ends |
| StyleLaws.ExpandHasNoTabs | ns-3-dev-git-master/utils/check-style-clang-format.py:672-674 | a fixed line has no tab |
| StyleLaws.TabReachesTabStop | ns-3-dev-git-master/utils/check-style-clang-format.py:674 | a tab becomes one to four blanks up to the next multiple of the tab size |
| StyleLaws.ExpandKeepsGuard | ns-3-dev-git-master/utils/check-style-clang-format.py:531-536 | expanding tabs keeps a guard line the same guard |
| StyleLaws.ExpansionCreatesGuard | ns-3-dev-git-master/utils/check-style-clang-format.py:57-58 | expanding a tab can turn a line that is no guard into one |
| StyleLaws.FixedFileLines | ns-3-dev-git-master/utils/check-style-clang-format.py:528-561 | reading the file after a fix gives the fixed lines, one for one, with their boundaries kept |
| StyleLaws.FixRewritesExactlyOffenders | ns-3-dev-git-master/utils/check-style-clang-format.py:549-561 | the fix run changes the file if and only if the check finds an offence |
| StyleLaws.GuardedLinesUntouched | ns-3-dev-git-master/utils/check-style-clang-format.py:538-542 | a line in a guarded-off region that is no guard is left as it was |
| StyleLaws.EnabledBackwards | ns-3-dev-git-master/utils/check-style-clang-format.py:530-542 | formatting enabled at a line of the fixed file was enabled there before, although new guards may appear |
| StyleLaws.TabFixIsIdempotent | ns-3-dev-git-master/utils/check-style-clang-format.py:353-363 | after fixing tabs under guards a second run reports compliance and changes nothing |
| StyleLaws.WhitespacePassKeepsGuards | ns-3-dev-git-master/utils/check-style-clang-format.py:339-349 | the whitespace pass changes neither the guard status nor the enabled state of any line |
| StyleLaws.TabsKeepWhitespace | ns-3-dev-git-master/utils/check-style-clang-format.py:633-682 | a line fixed for whitespace complies, and still does after its tabs are fixed |
| StyleLaws.SecondPassKeepsFirst | ns-3-dev-git-master/utils/check-style-clang-format.py:528-561 | for any two checks with this property of lines, a guarded pass of the second keeps a file fixed by the first compliant |
| StyleLaws.ExpandKeepsTrimmed | ns-3-dev-git-master/utils/check-style-clang-format.py:670-682 | expanding tabs never brings trailing whitespace back |
| StyleLaws.BothPassesComply | ns-3-dev-git-master/utils/check-style-clang-format.py:339-363 | whitespace fixing and then guarded tab fixing leave a file that passes both checks, with the same number of lines |
| StyleLaws.BothFixedIsIdempotent | ns-3-dev-git-master/utils/check-style-clang-format.py:339-363 | running both passes a second time changes nothing |
| StyleEffects.SpaceIff | ns-3-dev-git-master/utils/check-style-clang-format.py:633 | the whitespace that strip and rstrip remove, character by character |
| StyleEffects.WhitespaceLine | ns-3-dev-git-master/utils/check-style-clang-format.py:633-647 | the whitespace check keeps a line up to its trailing whitespace and adds one newline; the line complies if and only if that changes nothing |
| StyleEffects.TabsLine | ns-3-dev-git-master/utils/check-style-clang-format.py:670-682 | a line complies if and only if it has no tab, and the fix expands its tabs |
| StyleEffects.ExpandFirstTab | ns-3-dev-git-master/utils/check-style-clang-format.py:674 | the first tab becomes blanks up to the next column that is a multiple of four, and the rest is expanded as a line of its own |
| StyleEffects.CheckedIff | ns-3-dev-git-master/utils/check-style-clang-format.py:529-542 | under guards a line is skipped if and only if it is no guard and the last guard before it turns formatting off |
| StyleEffects.OffencesAre | ns-3-dev-git-master/utils/check-style-clang-format.py:549-557 | a full scan reports exactly the checked lines that do not comply, each once and in order |
| StyleEffects.ReadFirstLine | ns-3-dev-git-master/utils/check-style-clang-format.py:525-526 | a line ends at a newline, a carriage return, or both together |
| StyleEffects.ReadLastLine | ns-3-dev-git-master/utils/check-style-clang-format.py:525-526 | what follows the last of these is a line without a newline, unless it is empty |
| StyleEffects.FixRunLine | ns-3-dev-git-master/utils/check-style-clang-format.py:339-363 | both passes turn each line into its text up to trailing whitespace, with tabs expanded unless guards protect it, and one newline |
| StyleEffects.FixRunWithoutTabs | ns-3-dev-git-master/utils/check-style-clang-format.py:339-363 | a line without tabs keeps its text up to trailing whitespace, indentation included |
| StyleEffects.FixStyle | ns-3-dev-git-master/utils/check-style-clang-format.py:339-363 | the two calls in the tool's order do this to each line of the file, and both checks then comply |
| LoadOrder.LoadState.ModulesThatCanBeLoaded | ns-3-dev-git-master/bindings/python/ns__init__.py:420-431 | the pending modules all of whose dependencies are loaded, in pending order |
| LoadOrder.LoadState.LoadStep | ns-3-dev-git-master/bindings/python/ns__init__.py:438-445 | one step moves exactly the next layer from the pending to the loaded modules |
| LoadOrder.LoadState.DependencyOrder | ns-3-dev-git-master/bindings/python/ns__init__.py:433-448 | recursion ends with nothing pending after at most one call more than there are modules, or at a step that loads nothing |
| LoadOrder.ReadyIsLayer | ns-3-dev-git-master/bindings/python/ns__init__.py:420-431 | after any number of steps the loadable pending modules are the next layer |
| LoadOrder.PendingStep | ns-3-dev-git-master/bindings/python/ns__init__.py:440-445 | removing them one by one leaves the modules of the later layers in order |
| LoadOrder.LoadableByChains | ns-3-dev-git-master/bindings/python/ns__init__.py:422-430 | a module is loaded within n steps if and only if no chain from it is longer than n modules or leaves the keys |
| LoadOrder.LayerIsLongestChain | ns-3-dev-git-master/bindings/python/ns__init__.py:438-445 | in a closed map step k holds exactly the modules whose longest dependency chain has length k |
| LoadOrder.CyclesNeverLoad | ns-3-dev-git-master/bindings/python/ns__init__.py:424-429 | a module on a cycle is never loaded |
| LoadOrder.StuckMeansBroken | ns-3-dev-git-master/bindings/python/ns__init__.py:436-448 | a step that loads nothing while modules are pending implies a cycle or a dependency outside the keys |
| LoadOrder.ReturnsIff | ns-3-dev-git-master/bindings/python/ns__init__.py:433-448 | some call of the recursion sees nothing pending, so that it returns, if and only if the map is closed and acyclic |
| LoadOrder.LayerKeepsKeyOrder | ns-3-dev-git-master/bindings/python/ns__init__.py:420-431 | within a step the modules keep the order of the dictionary |
| LoadOrder.LayersInOrder | ns-3-dev-git-master/bindings/python/ns__init__.py:450-455 | the concatenated layers hold no module twice and every dependency before its dependents |
| LoadOrder.StepsResult | ns-3-dev-git-master/bindings/python/ns__init__.py:433-455 | everything gets loaded if and only if the map is closed and acyclic; then the order is a permutation of the libraries with dependencies first and the steps are the ranks |
| LoadOrder.SortToDependencies | ns-3-dev-git-master/bindings/python/ns__init__.py:409-455 | the code returns such an order exactly for closed acyclic maps, in at most one call more than there are modules |
| EventBench.InsertSorted | ns-3-dev-git-master/utils/bench-scheduler.cc:147 | scheduling keeps the queue in order of time |
| EventBench.ScheduleAt | ns-3-dev-git-master/utils/bench-scheduler.cc:143-148 | scheduling never loses an event or puts one into the past |
| EventBench.RunHead | ns-3-dev-git-master/utils/bench-scheduler.cc:154 | running the earliest event keeps executed and pending events together in order of time |
| EventBench.Bench.Schedule | ns-3-dev-git-master/utils/bench-scheduler.cc:146-147 | one draw and one event at the current time plus the delay |
| EventBench.Bench.Cb | ns-3-dev-git-master/utils/bench-scheduler.cc:163-176 | below the total the callback counts and schedules one event; at the total it stops the simulator and schedules nothing |
| EventBench.Bench.Run | ns-3-dev-git-master/utils/bench-scheduler.cc:133-161 | the population is restored after every counted callback, no scheduled event is lost, event times never decrease, every event is scheduled one delay, the next one drawn, after time 0 or after the event that schedules it, and the run counts the requested total if and only if the population is positive or the total is zero |
| EventBench.RunSuite | ns-3-dev-git-master/utils/bench-scheduler.cc:286-305 | the priming run and all later runs count the same number of events: the total, or none without a population |
| Welford.AccumulateIsTwoPass | ns-3-dev-git-master/utils/bench-scheduler.cc:346-372 | one step turns mean and squared deviations of the samples so far into those of one sample more, whatever the average was preset to |
| Welford.TracksIsTwoPass | ns-3-dev-git-master/utils/bench-scheduler.cc:358-362 | what the loop keeps is equivalent to the two-pass mean and second moment |
| Welford.VarianceSign | ns-3-dev-git-master/utils/bench-scheduler.cc:374-381 | the variance is non-negative and zero exactly for equal samples |
| Welford.VarianceShares | ns-3-dev-git-master/utils/bench-scheduler.cc:374-381 | the variance is the squared deviations divided by the number of samples, not by one less |
| Welford.VarianceOfTwo | ns-3-dev-git-master/utils/bench-scheduler.cc:374-381 | for two samples it is a quarter of the square of their difference |
| Welford.FieldsDetermine | ns-3-dev-git-master/utils/bench-scheduler.cc:363-369 | the six fields make up a result, so the statistics leave none out |
| Welford.Log | ns-3-dev-git-master/utils/bench-scheduler.cc:331-388 | for two results or more, average and squared deviation are the mean and the population variance of each of the six fields |
| TimelineIndex.TimelineDataRange.Search | ns-3-dev-git-master/utils/grid.py:113-130 | on disjoint ranges the index of the range containing the key, or -1 exactly when there is none |
| TimelineIndex.LookupFinds | ns-3-dev-git-master/utils/grid.py:113-130 | on sorted disjoint ranges the halving search misses no range that contains the key |
| TimelineIndex.MiddleIsFound | ns-3-dev-git-master/utils/grid.py:119-124 | on any list a range in the middle that contains the key is found first |
| TimelineIndex.TimelineDataRange.GetRanges | ns-3-dev-git-master/utils/grid.py:147-163 | on any list the slice that the two lookups bound; on sorted disjoint ranges exactly the selected ranges |
| TimelineIndex.TimelineDataRange.GetRangesBounds | ns-3-dev-git-master/utils/grid.py:165-181 | the index window of that same slice on any list; on sorted disjoint ranges it holds exactly the selection |
| TimelineIndex.SelectionExactWhenBothHit | ns-3-dev-git-master/utils/grid.py:156-163 | both endpoints inside ranges: exactly the ranges meeting the window are selected |
| TimelineIndex.SelectionCovers | ns-3-dev-git-master/utils/grid.py:156-163 | one endpoint inside a range: every range meeting the window is selected |
| TimelineIndex.SelectionExactIff | ns-3-dev-git-master/utils/grid.py:165-181 | the selection is the ranges meeting the window if and only if no range lies beyond a side that misses, and none strictly inside when both miss |
| TimelineIndex.BothMissLosesRanges | ns-3-dev-git-master/utils/grid.py:174-175 | a window around a range with both endpoints outside selects nothing |
| TimelineIndex.TimelineEvent.Search | ns-3-dev-git-master/utils/grid.py:217-234 | on events in order of time, with repetitions, the place splits those up to the key from those from the key on; it is the number of events before the key when at most one is at the key |
| TimelineIndex.PlaceSplits | ns-3-dev-git-master/utils/grid.py:217-234 | the same of the halving search as a function |
| TimelineIndex.TimelineEvent.GetEventsBounds | ns-3-dev-git-master/utils/grid.py:255-264 | on events in order of time nothing strictly inside the window is missed, nothing before it and at most one event after it is taken; unless several events share an endpoint, the index window holds exactly the events not before the start that no event reaching the end precedes |
| TimelineIndex.TimelineEvent.GetEvents | ns-3-dev-git-master/utils/grid.py:244-253 | on any list the slice of that window, in order of time when the list is |
| TimelineIndex.EventSelectionExact | ns-3-dev-git-master/utils/grid.py:244-253 | the selected events are those of the window, and the first later one when no event is exactly at its end, if and only if no two events are at its end |
| TimelineIndex.WindowIsSelectionIff | ns-3-dev-git-master/utils/grid.py:255-264 | the index window is exactly the selection if and only if the halving meets the first event at either endpoint before the others |
| TimelineIndex.WindowCompleteIff | ns-3-dev-git-master/utils/grid.py:244-253 | a query over a proper window returns every event in it if and only if the halving meets the first event at its start and the last event at its end before the others |
| TimelineIndex.InstantCompleteIff | ns-3-dev-git-master/utils/grid.py:244-253 | a query for one time returns every event at it if and only if there is at most one |
| TimelineIndex.AllCompleteIff | ns-3-dev-git-master/utils/grid.py:244-253 | all queries return every event of their windows if and only if no two events share a time |
| TimelineIndex.PlaceIsFirstProbe | ns-3-dev-git-master/utils/grid.py:217-234 | among several events at the key the search stops at the first midpoint of the halving that falls among them |
| TimelineIndex.ProbeHalves | ns-3-dev-git-master/utils/grid.py:225-233 | the probes are the middle, rounded down, and then the middle of the half that holds the events |
| TimelineIndex.AtMostOneLaterEvent | ns-3-dev-git-master/utils/grid.py:244-253 | at most one event after the window is returned |
| TimelineIndex.SharedEndpointLosesEvents | ns-3-dev-git-master/utils/grid.py:222-224 | of three events at one time a query for that time returns one |
| TimelineIndex.RangeBoundsEnclose | ns-3-dev-git-master/utils/grid.py:190-200 | first start and last end enclose all ranges of a sorted disjoint list and are attained |
| TimelineIndex.HullTightIff | ns-3-dev-git-master/utils/grid.py:383-384 | the bounds are the least and greatest instants themselves if and only if these do not all lie on one side of 0 |
| TimelineIndex.WidenExtremes | ns-3-dev-git-master/utils/grid.py:385-390 | one step of the bounds loops takes one more child into the extremes |
| TimelineIndex.ExtremesHull | ns-3-dev-git-master/utils/grid.py:378-403 | the extremes of enclosing bounds are the hull of what they enclose |
| TimelineIndex.Timeline.GetBounds | ns-3-dev-git-master/utils/grid.py:378-403 | for any children the extremes of their bounds and 0; for sorted ones the least interval containing 0 and every instant |
| TimelineIndex.Timelines.GetBounds | ns-3-dev-git-master/utils/grid.py:444-457 | the same over all timelines |
| Fairness.CauchySchwarz | ns-3-dev-git-master/examples/tcp/dctcp-example.cc:191-197 | the square of the sum is at most n times the sum of squares, with equality exactly for equal flows |
| Fairness.SquareOfSum | ns-3-dev-git-master/examples/tcp/dctcp-example.cc:191-197 | the sum of squares is at most the square of the sum, with equality exactly when at most one flow received bytes |
| Fairness.IndexBounds | ns-3-dev-git-master/examples/tcp/dctcp-example.cc:183-197 | the index lies between 1/n and 1, is 1 exactly for equal flows and 1/n exactly when one flow takes all |
| Fairness.NothingWrapsIff | ns-3-dev-git-master/examples/tcp/dctcp-example.cc:191-197 | none of the four 64-bit results wraps if and only if n times the sum of squares fits |
| Fairness.BoundedCountersDoNotWrap | ns-3-dev-git-master/examples/tcp/dctcp-example.cc:191-197 | counters up to B are safe when (nB)^2 < 2^64 |
| Fairness.ProgramBounds | ns-3-dev-git-master/examples/tcp/dctcp-example.cc:191-225 | 214748364 bytes are safe for 20 flows and 429496729 for 10 |
| Fairness.PrintedIsIndex | ns-3-dev-git-master/examples/tcp/dctcp-example.cc:197 | without a wrap the printed quotient is the exact index, and no number exactly when nothing was received |
| Fairness.PrintedIsIndexIff | ns-3-dev-git-master/examples/tcp/dctcp-example.cc:191-197 | for any counters not all zero the printed value is the index if and only if the divisor does not wrap to zero and both wraps take off the same share |
| Fairness.PrintedKinds | ns-3-dev-git-master/examples/tcp/dctcp-example.cc:197 | the printed value is the quotient of what the two products leave modulo 2^64, infinite or no number when the divisor leaves nothing |
| Fairness.LargeCounterLosesIndex | ns-3-dev-git-master/examples/tcp/dctcp-example.cc:197 | one flow of 2^32 bytes beside idle ones makes both products wrap to zero |
| Fairness.Counters.TraceSink | ns-3-dev-git-master/examples/tcp/dctcp-example.cc:125-141 | adds the packet size to one counter modulo 2^64 and touches no other |
| Fairness.Counters.InitializeCounters | ns-3-dev-git-master/examples/tcp/dctcp-example.cc:143-158 | zeroes all forty counters |
| Fairness.Counters.FairnessOf | ns-3-dev-git-master/examples/tcp/dctcp-example.cc:191-197 | the wrapping loop computes the quotient of the wrapped exact products |
| Fairness.Counters.PrintFairness | ns-3-dev-git-master/examples/tcp/dctcp-example.cc:184-228 | does so for the three groups |
| StreamWriter.WindowContinuesStream | ns-3-dev-git-master/examples/tcp/tcp-large-transfer.cc:51-56 | any window of the buffer at the sent position modulo its size continues the endless stream |
| StreamWriter.PeriodFits | ns-3-dev-git-master/examples/tcp/tcp-large-transfer.cc:51-54 | because the buffer size is a multiple of 26 |
| StreamWriter.StreamIsAlphabet | ns-3-dev-git-master/examples/tcp/tcp-large-transfer.cc:105-110 | the stream is the alphabet over and over |
| StreamWriter.ToWrite | ns-3-dev-git-master/examples/tcp/tcp-large-transfer.cc:225-229 | a write offers the most that stays inside the buffer, the transfer and the free space |
| StreamWriter.CallWrites | ns-3-dev-git-master/examples/tcp/tcp-large-transfer.cc:223-229 | a call makes a write if and only if bytes are left and space is free, and the first one offers as much as fits |
| StreamWriter.NeverReturnsIff | ns-3-dev-git-master/examples/tcp/tcp-large-transfer.cc:223-238 | for every sequence of answers of the socket, the loop never returns if and only if, while bytes are left, the socket from some round on always reports space and takes nothing |
| StreamWriter.StallsAtLast | ns-3-dev-git-master/examples/tcp/tcp-large-transfer.cc:223-238 | a loop that never returns makes no progress from some round on |
| StreamWriter.Sender.constructor | ns-3-dev-git-master/examples/tcp/tcp-large-transfer.cc:105-110 | fills the buffer with the period |
| StreamWriter.Sender.StartFlow | ns-3-dev-git-master/examples/tcp/tcp-large-transfer.cc:209-219 | the first call keeps the invariant of the flow, makes only full writes, and ends with everything sent, no space left, or a refusal |
| StreamWriter.Sender.WriteUntilBufferFull | ns-3-dev-git-master/examples/tcp/tcp-large-transfer.cc:221-243 | each write stays inside the buffer, the accepted bytes stay a prefix of the stream of at most the total length, Close is called exactly when all was sent, and the call returns only then, without space, or when refused; every write is a full one on the space the one before it left, and the socket may take nothing any finite number of times in a row |
| StreamWriter.Sender.Transfer | ns-3-dev-git-master/examples/tcp/tcp-large-transfer.cc:209-243 | this holds over any sequence of callbacks: each of them, on the space announced to it, writes on until everything is sent, no space is left, or the socket refuses, and the calls account for all writes |
| AdjacencyMatrix.ExtractConsumes | ns-3-dev-git-master/examples/matrix-topology/matrix-topology.cc:321-330 | a successful extraction consumes blanks, an optional sign and all digits of a number that is 0 or 1 |
| MatrixText.ExtractIff | ns-3-dev-git-master/examples/matrix-topology/matrix-topology.cc:321-330 | an element is extracted if and only if the text begins with blanks, an optional sign, and zeros with at most a final one in place of the last; minus one is none |
| MatrixText.ParseSpelled | ns-3-dev-git-master/examples/matrix-topology/matrix-topology.cc:321-330 | a row is read up to the first text that is no element, whatever runs of blanks, tabs included, separate its elements |
| AdjacencyMatrix.ReadRow | ns-3-dev-git-master/examples/matrix-topology/matrix-topology.cc:321-330 | collects the elements of a line up to the first that cannot be read |
| AdjacencyMatrix.GetLine | ns-3-dev-git-master/examples/matrix-topology/matrix-topology.cc:311-314 | one line, with the end-of-file flag set when no newline ended it |
| AdjacencyMatrix.ReadNxNMatrix | ns-3-dev-git-master/examples/matrix-topology/matrix-topology.cc:298-361 | the outcome for every text and for a missing file, the first bad row included |
| AdjacencyMatrix.ReadExact | ns-3-dev-git-master/examples/matrix-topology/matrix-topology.cc:311-360 | a file is accepted if and only if its rows before the first blank line form a square matrix, which is then returned |
| MatrixText.RowsOfText | ns-3-dev-git-master/examples/matrix-topology/matrix-topology.cc:311-350 | the rows of a file are those of its lines up to the first empty one |
| MatrixText.ReadSpelled | ns-3-dev-git-master/examples/matrix-topology/matrix-topology.cc:298-361 | a file of rows with any blanks around and between their elements is accepted if and only if these form a square matrix, which is returned, whatever follows an empty line |
| MatrixText.ReadSpelledToEnd | ns-3-dev-git-master/examples/matrix-topology/matrix-topology.cc:298-361 | the same without a newline at the end |
| MatrixText.RejectedFor | ns-3-dev-git-master/examples/matrix-topology/matrix-topology.cc:337-358 | a file is rejected for its first row of another length than the first one, or else for having another number of rows than columns, with those numbers |
| MatrixText.PrintRowText | ns-3-dev-git-master/examples/matrix-topology/matrix-topology.cc:420-424 | a printed row alternates its digits with single blanks |
| AdjacencyMatrix.ParsePrintedRow | ns-3-dev-git-master/examples/matrix-topology/matrix-topology.cc:420-424 | a printed row is parsed back |
| AdjacencyMatrix.PrintThenRead | ns-3-dev-git-master/examples/matrix-topology/matrix-topology.cc:298-427 | reading the printed rows returns the matrix if and only if it is square, the empty one included |
| AdjacencyMatrix.PrintMatrix | ns-3-dev-git-master/examples/matrix-topology/matrix-topology.cc:414-427 | prints the rows between the two banner lines |

## Left out

- StreamWriter.Socket.Send: leaves out only the socket that takes nothing for ever while it reports space, because the source's loop then never returns (`StreamWriter.NeverReturnsIff`).
- RecordAggregationInfo and GetNoTypeIds: name lookup and the list of unknown names; the aggregations are given as pairs of types.
- The worker pool models a Job object as a value. A job leaves the input queue before a worker changes it, so no two threads hold it at once.
- The list of failed jobs, console output and the XML, HTML and text reports of test.py; what a test returns is a parameter.
- check_include_prefixes_line, running clang-format, walking directories and the process pool of the style tool; texts of the messages.
- The recursion limit of Python, which a very deep dependency map would reach.
- Finding, versioning and loading the libraries themselves; the dependency map is given.
- The simulator behind the benchmark is a time-ordered queue with a stop flag. Wall-clock times, rates and random streams are parameters or absent.
- Square roots and floating-point rounding of the statistics: `Welford.Log` returns the variance, over exact reals.
- Sorting the timelines and filling them: the lists are given, and where a result needs sorted lists it says so, because the sort calls use an interface that Python 3 dropped. Rendering and mouse handling of the viewer.
- Throughput averages of the fairness report, and the counter vectors' missing `resize`: the counters are arrays of the intended sizes.
- The digits an extraction accepts follow the usual stream library: it stops at the first character that is no digit.
- Coordinate files and the network set-up of the three examples.
