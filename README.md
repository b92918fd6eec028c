# Task-runtime demo programs, modelled in Dafny

This project models the demo programs of a talk on the `concore` task
runtime. The programs are small C++ examples. Each one uses the runtime
(spawn, continuations, serializers, task graphs, pipelines, parallel
reductions and scans) to coordinate a piece of application logic. The model
covers that application logic and the bookkeeping each demo builds on top of
the runtime. The runtime itself is not modelled. Its effects appear only in
abstract form:

- "spawn" appends a task to a `spawned` log.
- "run later" is a separate step that the caller invokes.
- A serializer makes calls sequential.

One Dafny module per demo:

- `CpuWork` (`cpu_work.dfy`): the Fibonacci busy loop over `uint64_t`, and the large unit that repeats it.
- `HttpContinuation` (`http_continuation.dfy`): choosing the HTTP response from the URL, and handing it to the callback.
- `ContinuationChain` (`continuation_chain.dfy`): `start_async`, `then` and `start` of the hand-written `async_result`. It also defines the tasks those build and how running them behaves.
- `ForkJoin` (`fork_join.dfy`): recursive range splitting by `conc_apply` and `conc_apply_variant`.
- `Histogram` (`histogram.dfy`): the `simple_histogram` letter counter, and the `op`/`reduction` pair handed to the parallel reduction.
- `ConcScan` (`conc_scan.dfy`): `create_consecutive_seq`, and the scan operator and result of `prefix_sum`.
- `TaskGraph` (`task_graph.dfy`): the request-handling task graph. Dependencies between `chained_task`s are declared first. A task then starts once its counter of unfinished predecessors reaches zero.
- `Pipeline` (`pipeline.dfy`): `frame_data`, and the stage protocol of the five stage functions.
- `RunningWindow` (`running_window.dfy`): the `running_window` class of the serializer demo.
- `PrioSerializer` (`prio_serializer.dfy`): the priority serializer built from per-priority queues and an atomic counter. It also covers its executor and the demo's priority assignment.
- `MatrixProcessing` (`matrix_processing.dfy`): the wavefront matrix processing. Each cell has a counter of the cells that must finish before it. Finishing a cell unblocks the cell to its right and the cell below-left. The module also covers the `my_matrix` result grid.

Where the source mutates state, the model mutates state:

- Classes with fields, arrays and `modifies` clauses: `SimpleHistogram`, `RunningWindow`, `FrameData`, `PrioSerializer`, `ProcessMatrix`, `MyMatrix`, `Graph`.
- Loops are kept as loops, with invariants: the busy loop, `create_consecutive_seq`, `start`, `start_next_task`, `add_text_part`, `join_with`, the matrix initialisation, and finishing a task of the graph.

Each stateful method is proved equal to a step function over a value-level state, for example `Abs() == StartNext(old(Abs()))`. The properties the source relies on are proved as lemmas about those step functions. Examples are "at most one task of the serializer runs at a time", "no matrix cell is spawned twice" and "a task of the graph runs only after all its predecessors".

## Model

| member | source | states |
|---|---|---|
| CpuWork.FibMonotone | common/cpu_work.hpp:6-12 | Fibonacci numbers never decrease, which keeps `a <= b` throughout the busy loop |
| CpuWork.CpuBusyWorkUnit | common/cpu_work.hpp:5-13 | the loop ends with `(a, b)` two consecutive Fibonacci numbers, `a <= b` and `b >= 2^63`, where `b` is the first Fibonacci number at or above 2^63; no addition wraps in 64 bits |
| CpuWork.CpuBusyWorkLargeUnit | common/cpu_work.hpp:15-18 | the large unit runs the small unit exactly 1,000,000 times |
| HttpContinuation.FindFrom | concurrency-tutorial/3_2_continuation.cpp:38 | `std::string::find`: the result is the first position at or after the start where the pattern occurs, or none when it occurs nowhere |
| HttpContinuation.ResponseFor | concurrency-tutorial/3_2_continuation.cpp:38-50 | a URL containing "mutex" gets 404 "Not found" with the mutex body; any other URL gets 200 "OK" with the success body; the status is 404 exactly when "mutex" is found |
| HttpContinuation.RequestCallsBackOnce | concurrency-tutorial/3_2_continuation.cpp:32-52 | every request invokes its callback exactly once, with the response chosen for its URL, which is one of the two fixed responses |
| HttpContinuation.DemoRequests | concurrency-tutorial/3_2_continuation.cpp:75-92 | "google.com?q=mutex" gets the 404 response and "google.com?q=concurrency" the 200 response |
| ContinuationChain.StartAsync | concurrency-tutorial/03_3_continuation.cpp:52-55 | `start_async(v)` allocates a fresh slot holding `v` and has no work items |
| ContinuationChain.Then | concurrency-tutorial/03_3_continuation.cpp:14-26 | `then` keeps the old items in order and appends exactly one item; the new item reads the old value slot and writes a freshly allocated slot, which becomes the result's value |
| ContinuationChain.StartAsyncIsLinked | concurrency-tutorial/03_3_continuation.cpp:52-55 | a chain just started is linked from its own slot |
| ContinuationChain.ThenKeepsLinked | concurrency-tutorial/03_3_continuation.cpp:20-22 | after `then`, item k still reads the slot item k-1 writes, the first item reads the origin slot, and the chain's value is the last item's slot |
| ContinuationChain.LinkedWritesGrow | concurrency-tutorial/03_3_continuation.cpp:20-22 | in a linked chain a later item writes a later-allocated slot, so no item overwrites another item's result |
| ContinuationChain.Compose | concurrency-tutorial/03_3_continuation.cpp:28-49 | the composed task is the empty function exactly when there are no items, and a continuation is never empty |
| ContinuationChain.ComposeRunsInOrder | concurrency-tutorial/03_3_continuation.cpp:32-47 | the composed task runs exactly the chain's items, in insertion order |
| ContinuationChain.Start | concurrency-tutorial/03_3_continuation.cpp:28-49 | the reverse loop of `start` builds the composed task; the spawned task runs the items in insertion order, and it is the empty function exactly when there are no items |
| ContinuationChain.RunItems | concurrency-tutorial/03_3_continuation.cpp:32-48 | running the items one after another never changes the number of slots; a throw is reported at the index of an item |
| ContinuationChain.ExecuteFollowsInsertionOrder | concurrency-tutorial/03_3_continuation.cpp:32-48 | running the spawned task gives the same slots as running the items in order: it completes when every item returns; it stops at the first item that throws, which terminates the program when that item has a continuation, while the last item's exception escapes the task; with no items the empty function is called |
| ContinuationChain.DemoChainShape | concurrency-tutorial/03_3_continuation.cpp:94-98 | `start_async(3).then(sqr).then(timesPi).then(print)` allocates four slots and builds three linked items |
| ContinuationChain.DemoChainRuns | concurrency-tutorial/03_3_continuation.cpp:66-98 | running the demo items leaves 3, 9, 9·pi and true in the four slots |
| ContinuationChain.DemoChainCompletes | concurrency-tutorial/03_3_continuation.cpp:94-101 | the task `chain.start()` spawns completes with 9·pi and true in the last two slots |
| ForkJoin.Range | concurrency-tutorial/5_fork_join.cpp:7-9 | the leaf loop visits `start, start+1, …, end-1` and nothing when `end <= start` |
| ForkJoin.Mid | concurrency-tutorial/5_fork_join.cpp:11 | the split point lies in `[start, end)`, strictly inside once the range has two or more elements |
| ForkJoin.UnitRangeRecursesOnItself | concurrency-tutorial/5_fork_join.cpp:7-17 | with `granularity <= 0` a one-element range splits into itself, so the recursion does not terminate |
| ForkJoin.ConcApply | concurrency-tutorial/5_fork_join.cpp:5-19 | the leaves together cover exactly the indices of `[start, end)`, each once, and each leaf is empty or holds at most `granularity` indices |
| ForkJoin.VariantCoversSameIndices | concurrency-tutorial/5_fork_join.cpp:21-34 | `conc_apply_variant` visits the same indices as `conc_apply`, with the same leaves |
| ForkJoin.EachIndexOnce | concurrency-tutorial/5_fork_join.cpp:5-19 | every index in the range is visited exactly once, and no other index is visited |
| ForkJoin.DemoCall | concurrency-tutorial/5_fork_join.cpp:51-53 | `conc_apply(0, 20, 1, work)` visits 0..19 with one index per leaf |
| Histogram.LetterBuckets | concurrency-tutorial/7_conc_reduce.cpp:8-45 | a letter lowers to a bucket index in `0..25`, and the index is 25, one past the last bucket, exactly for 'z' and 'Z' |
| Histogram.InBoundsIffNoZ | concurrency-tutorial/7_conc_reduce.cpp:8-44 | every write of `add_text_part` stays inside the 25 buckets exactly when the text holds no 'z' or 'Z' |
| Histogram.LetterCountAppend | concurrency-tutorial/7_conc_reduce.cpp:40-45 | the letters counted in a concatenation are those counted in each part |
| Histogram.AddTextTwice | concurrency-tutorial/7_conc_reduce.cpp:40-65 | adding text a and then text b gives the same histogram as adding a + b in one pass |
| Histogram.JoinIsCommutativeMonoid | concurrency-tutorial/7_conc_reduce.cpp:48-51 | `join_with` is commutative and associative, with the zero histogram as identity |
| Histogram.JoinOfParts | concurrency-tutorial/7_conc_reduce.cpp:48-71 | joining the histograms of two parts equals the histogram of the whole text added to the joined starting points |
| Histogram.AddTextTotal | concurrency-tutorial/7_conc_reduce.cpp:40-45 | `add_text_part` raises the total count by the number of letters in the text |
| Histogram.SimpleHistogram.constructor | concurrency-tutorial/7_conc_reduce.cpp:12-15 | a new histogram has 25 buckets, all 0 |
| Histogram.SimpleHistogram.Copy | concurrency-tutorial/7_conc_reduce.cpp:17-20 | the copy has its own buckets, equal to the other's |
| Histogram.SimpleHistogram.Assign | concurrency-tutorial/7_conc_reduce.cpp:22-26 | after assignment every bucket equals the other's |
| Histogram.SimpleHistogram.AddTextPart | concurrency-tutorial/7_conc_reduce.cpp:40-45 | bucket `c-'a'` grows by one for each character that is alphabetic after lowering; other characters change nothing |
| Histogram.SimpleHistogram.JoinWith | concurrency-tutorial/7_conc_reduce.cpp:48-51 | every bucket becomes the sum of the two histograms' buckets |
| Histogram.Op | concurrency-tutorial/7_conc_reduce.cpp:60-65 | `op` returns a histogram of its own: the copy of `lhs` with the string added |
| Histogram.Reduction | concurrency-tutorial/7_conc_reduce.cpp:66-71 | `reduction` returns a histogram of its own: the copy of `lhs` joined with `rhs` |
| Histogram.FoldOpIsOnePass | concurrency-tutorial/7_conc_reduce.cpp:60-72 | folding `op` over the words equals adding their concatenation in one pass |
| Histogram.ReductionIsSplitIndependent | concurrency-tutorial/7_conc_reduce.cpp:56-73 | for every split point, folding each half from the empty histogram and joining the results gives the histogram of the whole text |
| ConcScan.ScanOpIsMonoid | concurrency-tutorial/8_conc_scan.cpp:10-16 | the scan operator is integer addition: associative, with 0 as identity on both sides |
| ConcScan.CreateConsecutiveSeq | concurrency-tutorial/8_conc_scan.cpp:21-27 | for a count >= 0 the result has exactly `count` elements and element i is `start + i*step`; a negative count is the length error of `reserve` |
| ConcScan.InclusiveScan | concurrency-tutorial/8_conc_scan.cpp:7-18 | the scan result has the input's length |
| ConcScan.InclusiveScanAt | concurrency-tutorial/8_conc_scan.cpp:16 | element i of the scan is the initial value plus the sum of the first i+1 inputs |
| ConcScan.PrefixSumSpec | concurrency-tutorial/8_conc_scan.cpp:5-19 | `prefix_sum` has the input's length, and element i is the sum of inputs 0..i |
| ConcScan.ScanLast | concurrency-tutorial/8_conc_scan.cpp:16 | the accumulator after a non-empty scan is the scan's last element |
| ConcScan.InclusiveScanSplit | concurrency-tutorial/8_conc_scan.cpp:16 | scanning `xs + ys` is scanning `xs`, then scanning `ys` from the accumulator `xs` left |
| ConcScan.InclusiveScanShift | concurrency-tutorial/8_conc_scan.cpp:10-16 | since `op` is associative, scanning from any value equals scanning from 0 and adding that value to every element |
| ConcScan.ParallelScanSplit | concurrency-tutorial/8_conc_scan.cpp:5-19 | the prefix sums of `xs + ys` are those of `xs` followed by those of `ys`, computed on their own, each plus the sum of `xs`: the split a parallel scan relies on |
| ConcScan.DemoSequences | concurrency-tutorial/8_conc_scan.cpp:21-45 | the default arguments give 1..100, and the call at line 45 gives 2, 4, …, 200 |
| ConcScan.TriangularSums | concurrency-tutorial/8_conc_scan.cpp:43 | the sum of 1..i+1 is the triangular number (i+1)(i+2)/2 |
| ConcScan.PrefixSumOfNaturals | concurrency-tutorial/8_conc_scan.cpp:43 | the prefix sums of 1..n are the triangular numbers |
| ConcScan.DemoPrefixSum | concurrency-tutorial/8_conc_scan.cpp:43 | the last prefix sum printed by the first call is 5050 |
| TaskGraph.SuccessorsCount | concurrency-tutorial/9_task_graph.cpp:103-109 | u's successor list holds v once per declared dependency (u, v) |
| TaskGraph.SuccessorsWithin | concurrency-tutorial/9_task_graph.cpp:103-109 | successor lists name only tasks of the graph |
| TaskGraph.CompletedPredsAdd | concurrency-tutorial/9_task_graph.cpp:103-109 | finishing u adds to v's finished predecessors once per dependency (u, v), never beyond v's in-degree |
| TaskGraph.InDegreeByHeads | concurrency-tutorial/9_task_graph.cpp:103-109 | a task's predecessor counter counts the dependencies that point to it |
| TaskGraph.AllPredsDone | concurrency-tutorial/9_task_graph.cpp:103-109 | when all of v's counted predecessors are finished, every dependency into v comes from a finished task |
| TaskGraph.Release | concurrency-tutorial/9_task_graph.cpp:103-109 | finishing a task keeps every earlier spawn and spawns only its successors |
| TaskGraph.ReleaseEffect | concurrency-tutorial/9_task_graph.cpp:103-109 | each successor's counter drops once per occurrence in the list, and it is spawned exactly when the counter falls from positive to 0 |
| TaskGraph.CompleteKeepsRunning | concurrency-tutorial/9_task_graph.cpp:103-111 | finishing a spawned task keeps each counter equal to the unfinished predecessors, and a task with predecessors is spawned once, exactly when its counter is 0 |
| TaskGraph.RunsAfterPredecessors | concurrency-tutorial/9_task_graph.cpp:103-111 | a spawned task that has predecessors was spawned only after every predecessor finished |
| TaskGraph.DemoInDegree | concurrency-tutorial/9_task_graph.cpp:103-109 | the counter of any task of the demo, once the graph is built, is the number of dependencies pointing to it, summed over the seven `add_dependency`/`add_dependencies` calls |
| TaskGraph.DemoJoinInDegrees | concurrency-tutorial/9_task_graph.cpp:103-109 | t4, t6 and t7 each wait for 2 predecessors, and t_done waits for 3 |
| TaskGraph.DemoRootInDegree | concurrency-tutorial/9_task_graph.cpp:103-111 | t1, the task spawned by hand, waits for nothing |
| TaskGraph.DemoOtherInDegrees | concurrency-tutorial/9_task_graph.cpp:103-109 | t2, t3, t5, t8 and t9 each wait for one predecessor |
| TaskGraph.DemoEdgesAscend | concurrency-tutorial/9_task_graph.cpp:103-109 | every dependency of the demo goes from a lower-numbered task to a higher-numbered one |
| TaskGraph.PathAscends | concurrency-tutorial/9_task_graph.cpp:103-109 | along dependencies that ascend, every path ends higher than it starts |
| TaskGraph.DemoAcyclic | concurrency-tutorial/9_task_graph.cpp:103-109 | the demo graph has no cycle |
| TaskGraph.DemoReachableFromT1 | concurrency-tutorial/9_task_graph.cpp:103-111 | every task is reachable from t1 |
| TaskGraph.DemoLeadsToDone | concurrency-tutorial/9_task_graph.cpp:103-114 | every task leads to t_done |
| TaskGraph.TDoneRunsLast | concurrency-tutorial/9_task_graph.cpp:100-114 | when t_done is spawned, all nine request-handling tasks have finished |
| TaskGraph.Graph.constructor | concurrency-tutorial/9_task_graph.cpp:91-100 | new tasks have no dependencies, zero counters and empty successor lists |
| TaskGraph.Graph.AddDependency | concurrency-tutorial/9_task_graph.cpp:104-106 | `add_dependency(from, to)` appends `to` to from's successors and raises to's counter by one |
| TaskGraph.Graph.AddDependenciesFrom | concurrency-tutorial/9_task_graph.cpp:103-108 | the fan-out form declares the dependencies of `FanOut` |
| TaskGraph.Graph.AddDependenciesTo | concurrency-tutorial/9_task_graph.cpp:107-109 | the fan-in form declares the dependencies of `FanIn` |
| TaskGraph.Graph.Spawn | concurrency-tutorial/9_task_graph.cpp:111 | spawning a root task appends it to the spawned tasks |
| TaskGraph.Graph.FinishTask | concurrency-tutorial/9_task_graph.cpp:103-111 | the loop over the successors decrements counters and spawns as `Release` states |
| TaskGraph.Graph.RunContinuation | concurrency-tutorial/9_task_graph.cpp:103-111 | finishing a spawned task records it as finished and keeps the graph's invariant |
| TaskGraph.BuildDemo | concurrency-tutorial/9_task_graph.cpp:91-111 | the demo declares exactly the listed dependencies and then spawns only t1 |
| Pipeline.FrameData.constructor | concurrency-tutorial/10_pipeline.cpp:10-17 | a new frame has the given index and stage 0 |
| Pipeline.ParseFrame | concurrency-tutorial/10_pipeline.cpp:21-28 | requires stage 0 and leaves stage 1 |
| Pipeline.PreprocessFrame | concurrency-tutorial/10_pipeline.cpp:30-37 | requires stage 1 and leaves stage 2 |
| Pipeline.DecodeFrame | concurrency-tutorial/10_pipeline.cpp:39-46 | requires stage 2 and leaves stage 3 |
| Pipeline.PostprocessFrame | concurrency-tutorial/10_pipeline.cpp:47-54 | requires stage 3 and leaves stage 4 |
| Pipeline.WriteFrame | concurrency-tutorial/10_pipeline.cpp:55-62 | requires stage 4 and leaves stage 5 |
| Pipeline.RunStages | concurrency-tutorial/10_pipeline.cpp:73-84 | the five stages in declared order take a frame from stage 0 to 5 without changing its index |
| Pipeline.PushFrames | concurrency-tutorial/10_pipeline.cpp:87-88 | each pushed frame i ends at stage 5 with index i, and frames are distinct objects |
| Pipeline.RunOrderSucceedsIff | concurrency-tutorial/10_pipeline.cpp:21-62 | a sequence of stages passes every assertion exactly when it is consecutive from the current stage, and it then ends past the last one |
| Pipeline.DeclaredOrderIsTheOnlyOne | concurrency-tutorial/10_pipeline.cpp:21-84 | of all orders of the five stages, only the declared one passes every assertion |
| RunningWindow.AddAll | concurrency-tutorial/11_2_serializer.cpp:21-41 | after any number of `add` calls the buffer holds at most `window_size + 2` values |
| RunningWindow.WindowIsSuffix | concurrency-tutorial/11_2_serializer.cpp:26-29 | the buffer holds the most recent min(n, window_size + 2) values, in insertion order |
| RunningWindow.FullWindowSize | concurrency-tutorial/11_2_serializer.cpp:26-29 | once enough values were added the buffer holds window_size + 2 of them, the newest last |
| RunningWindow.RunningWindow.constructor | concurrency-tutorial/11_2_serializer.cpp:17-18 | a new window has the given size, no values and operation index 0, and is valid exactly when the size is at least -1 |
| RunningWindow.RunningWindow.Add | concurrency-tutorial/11_2_serializer.cpp:21-41 | the oldest value is erased when more than `window_size + 1` are stored, then `val` is appended as the last value; the operation index grows by exactly one, so the sanity check does not fire |
| RunningWindow.RunningWindow.GetAverage | concurrency-tutorial/11_2_serializer.cpp:44-65 | the NaN sentinel exactly when the buffer is empty, otherwise the mean of the values; nothing changes |
| RunningWindow.AddSequence | concurrency-tutorial/11_2_serializer.cpp:81-92 | the producer's `add` calls, made one at a time by the serializer, on a new window leave the most recent min(n, size + 2) values and operation index n |
| PrioSerializer.SetContinuation | extensibility/03_prio_serializer.cpp:51-66 | setting the continuation keeps the task's body and its own continuation |
| PrioSerializer.WrappedContinuationOrder | extensibility/03_prio_serializer.cpp:51-66 | the wrapped continuation runs the task's own continuation, if any, first, then `on_cont`, exactly once |
| PrioSerializer.QueuedZero | extensibility/03_prio_serializer.cpp:75-89 | no task is queued exactly when every queue is empty |
| PrioSerializer.FirstNonEmpty | extensibility/03_prio_serializer.cpp:79-88 | the scan stops at the first non-empty queue; all queues of more urgent priority are empty |
| PrioSerializer.AtMostOneInFlight | extensibility/03_prio_serializer.cpp:47-72 | under the invariant at most one task of the serializer runs, and one runs exactly when the counter is positive |
| PrioSerializer.Initial | extensibility/03_prio_serializer.cpp:32-35 | a new serializer has `num_prios` empty queues and satisfies the invariant |
| PrioSerializer.StartNext | extensibility/03_prio_serializer.cpp:75-89 | starting the next task removes one queued task from the first non-empty queue, the oldest there, and spawns exactly it |
| PrioSerializer.AddTaskPreservesInv | extensibility/03_prio_serializer.cpp:38-49 | `add_task` keeps the invariant that the counter is the number of queued tasks plus one running task |
| PrioSerializer.CompletePreservesInv | extensibility/03_prio_serializer.cpp:51-73 | completing the running task keeps the invariant, and starts another one exactly when tasks are queued |
| PrioSerializer.NextIsMostUrgentOldest | extensibility/03_prio_serializer.cpp:68-89 | the task started on completion is the oldest of the most urgent non-empty queue |
| PrioSerializer.PrioSerializer.constructor | extensibility/03_prio_serializer.cpp:32-35 | a new serializer has `num_prios` empty queues and count 0 |
| PrioSerializer.PrioSerializer.StartNextTask | extensibility/03_prio_serializer.cpp:75-89 | the scan of the queues performs the `StartNext` step |
| PrioSerializer.PrioSerializer.AddTask | extensibility/03_prio_serializer.cpp:38-49 | the task, with its continuation set, is pushed onto queue `prio`, the counter grows by one, and a task is started only when the counter was 0 |
| PrioSerializer.PrioSerializer.OnCont | extensibility/03_prio_serializer.cpp:68-73 | the counter drops by one, and another task is started only when the old value was greater than 1 |
| PrioSerializer.PrioSerializer.WrappedContinuation | extensibility/03_prio_serializer.cpp:51-73 | finishing the running task runs its continuations and keeps the invariant |
| PrioSerializer.PrioSerializerExecutor.constructor | extensibility/03_prio_serializer.cpp:92-95 | the executor keeps its serializer and its fixed priority |
| PrioSerializer.PrioSerializerExecutor.Execute | extensibility/03_prio_serializer.cpp:96-100 | `execute` is `add_task` at the executor's priority |
| PrioSerializer.FiveConsecutiveTasks | extensibility/03_prio_serializer.cpp:114-115 | among any 5k consecutive tasks, starting at any task number, each priority is used k times |
| PrioSerializer.NextFiveTasks | extensibility/03_prio_serializer.cpp:114-115 | any five consecutive tasks get the five priorities, one each |
| PrioSerializer.WindowSplit | extensibility/03_prio_serializer.cpp:114-115 | the tasks with a given priority in a window of a + b tasks are those of its first a tasks plus those of the b after them |
| PrioSerializer.DemoPrioritiesAreEven | extensibility/03_prio_serializer.cpp:109-115 | each of the 5 priorities gets 20 of the 100 tasks |
| MatrixProcessing.Idx | extensibility/04_matrix_processing.cpp:63-67 | the index `y*w + x` of an in-grid cell lies in `[0, w*h)` |
| MatrixProcessing.IdxInjective | extensibility/04_matrix_processing.cpp:75-81 | distinct in-grid cells have distinct indices |
| MatrixProcessing.TargetsAreUnblocked | extensibility/04_matrix_processing.cpp:50-56 | finishing u unblocks c exactly when u is c's left neighbour, or c's up-right neighbour inside the grid |
| MatrixProcessing.CountIsUnblockers | extensibility/04_matrix_processing.cpp:31-56 | for w >= 2, every cell but (0,0) starts with a count equal to the number of cells that unblock it |
| MatrixProcessing.WidthOneStalls | extensibility/04_matrix_processing.cpp:34-56 | with w == 1, cells (0, y > 0) start at 1 but no cell unblocks them |
| MatrixProcessing.PendingBound | extensibility/04_matrix_processing.cpp:34-56 | a cell's pending count covers each of its unfinished unblockers |
| MatrixProcessing.ReadyOnlyAfterUnblockers | extensibility/04_matrix_processing.cpp:50-67 | a cell whose count reached 0 has its left and up-right neighbours finished, where they exist |
| MatrixProcessing.PendingAfter | extensibility/04_matrix_processing.cpp:50-56 | finishing u lowers c's pending count by one exactly when u unblocks c |
| MatrixProcessing.NoDeadlock | extensibility/04_matrix_processing.cpp:31-67 | for w >= 2, if every ready cell has finished then every cell has finished |
| MatrixProcessing.PathToCorner | extensibility/04_matrix_processing.cpp:50-59 | for w >= 2 every cell is an ancestor of (w-1, h-1), along a path of unblocking steps |
| MatrixProcessing.NoCellSpawnedTwice | extensibility/04_matrix_processing.cpp:58-67 | no cell task and no done task is spawned twice |
| MatrixProcessing.WidthOneNeverSpawns | extensibility/04_matrix_processing.cpp:34-56 | with w == 1 the cells below (0,0) are never spawned, and the last cell never finishes |
| MatrixProcessing.SpawnedAfterUnblockers | extensibility/04_matrix_processing.cpp:50-67 | a cell runs only after (x-1, y) and (x+1, y-1) have completed, where those cells exist |
| MatrixProcessing.ContinueCounts | extensibility/04_matrix_processing.cpp:50-65 | the continuation of (x,y) decrements exactly the counters of the cells it unblocks |
| MatrixProcessing.ContinueSpawns | extensibility/04_matrix_processing.cpp:50-67 | the continuation spawns each unblocked cell whose counter was 1, and the done task after (w-1, h-1) |
| MatrixProcessing.ContinueKeepsCounts | extensibility/04_matrix_processing.cpp:50-65 | after the continuation each counter still equals the cell's unfinished unblockers |
| MatrixProcessing.ContinueReleases | extensibility/04_matrix_processing.cpp:50-67 | the continuation appends exactly the released cells to the spawned tasks |
| MatrixProcessing.ReleasedOnce | extensibility/04_matrix_processing.cpp:50-67 | a continuation releases each cell at most once, and the done task exactly when it finishes the last cell |
| MatrixProcessing.ContinueKeepsSpawnedOnce | extensibility/04_matrix_processing.cpp:50-67 | a continuation keeps every task spawned at most once |
| MatrixProcessing.ContinuationKeepsInvariant | extensibility/04_matrix_processing.cpp:48-67 | running the continuation of a spawned, unfinished cell keeps the processing invariant |
| MatrixProcessing.InitialStateValid | extensibility/04_matrix_processing.cpp:31-38 | the state left by `start` satisfies the invariant |
| MatrixProcessing.ProcessMatrix.constructor | extensibility/04_matrix_processing.cpp:41-46 | a new processor has width and height 0, no counters, and has spawned and completed nothing |
| MatrixProcessing.ProcessMatrix.Start | extensibility/04_matrix_processing.cpp:26-39 | each counter is 1 on the first row, the first column and the last column and 2 elsewhere; only (0,0) is spawned |
| MatrixProcessing.ProcessMatrix.InitialCounts | extensibility/04_matrix_processing.cpp:31-35 | the nested loop fills every counter with the initial count |
| MatrixProcessing.ProcessMatrix.UnblockCell | extensibility/04_matrix_processing.cpp:63-67 | `unblock_cell` decrements the cell's counter and spawns the cell exactly when the old value was 1 |
| MatrixProcessing.ProcessMatrix.CellContinuation | extensibility/04_matrix_processing.cpp:50-60 | the continuation unblocks (x-1, y+1) when `y < h-1 && x > 0`, then (x+1, y) when `x < w-1`, then spawns the done task after (w-1, h-1) |
| MatrixProcessing.ProcessMatrix.RunContinuation | extensibility/04_matrix_processing.cpp:48-67 | finishing a spawned cell records it as completed, releases exactly its released cells and keeps the invariant |
| MatrixProcessing.MyMatrix.constructor | extensibility/04_matrix_processing.cpp:75-79 | the result grid has `w*h` zeroed entries |
| MatrixProcessing.MyMatrix.SetDone | extensibility/04_matrix_processing.cpp:81 | `set_done(x, y)` writes 1 at index `y*width + x`, which is in bounds, and changes no other entry |

## Left out

- The `concore` runtime: thread pools, executors, `spawn`, `spawn_and_wait`, `wait`, `task_group`, `serializer`, `rw_serializer`, `pipeline_builder` with its stage orderings, `finish_wait`, `conc_reduce` and `conc_scan`. Their implementation is not part of this model. Spawning is modelled as appending to a log, and a spawned task's run is a separate call. The runtime's `chained_task` is modelled by its documented counting behaviour (a predecessor counter and a continuation that releases successors, in `TaskGraph`), not by its implementation.
- Concurrency and timing: tasks are modelled as running one at a time in some order, so `std::atomic` operations are plain updates. Sleeps, profiling macros and `printf` output are left out.
- `extensibility/02_multi_serialization.cpp` and `concurrency-tutorial/11_3_serializer.cpp` are not part of this model: they are correct only through the runtime's serializer guarantees.
- `RunningWindow.RunningWindow.GetAverage`: the values are exact reals rather than `double`s, the NaN sentinel is `None`, and the average is stated as the exact mean.
- `ContinuationChain.DemoChainRuns`: `timesPi` multiplies by a decimal approximation of pi as an exact real. The `double` rounding is not modelled.
- `ContinuationChain.Then`: the receiver whose `work_items_` vector is moved from is not returned. The demo never uses it again.
- `ContinuationChain.ExecuteFollowsInsertionOrder`: what the runtime does with an exception escaping a task, or with a call of an empty `std::function`, is outside this model. The model only tells those outcomes apart from completion and from `std::terminate`.
- The C++ `int` is modelled as an unbounded integer in every module: the scan values, the histogram counts, the matrix indices, `end - start` and `start + (end - start) / 2` in the fork-join (which overflow for a range such as (INT_MIN, INT_MAX)), `window_size_ + 1` and `op_idx_` in the running window (the former overflows at INT_MAX), `count_` in the priority serializer and the frame index in the pipeline. The inputs of the demos stay far from overflow. `uint64_t` in the busy loop is a bounded newtype, and no wrap-around is proved there.
- `RunningWindow.RunningWindow.Add`: requires `Valid()`, which excludes a window size below -1 with an empty buffer. There the source erases the first element of an empty vector, which is undefined behaviour. The constructor accepts any size, but a window built with a size below -1 does not satisfy `Valid()`, so the model describes no `add` on it; in the source its first `add` is already undefined.
- `PrioSerializer.PrioSerializer.constructor`: takes the number of priorities as a natural number, as does `PrioSerializer.Initial`. For a negative `num_prios` the source's `new task_queue[num_prios]` throws `std::bad_array_new_length`. That error path is not modelled.
- `ForkJoin.ConcApply`: the order of the leaf list is the model's. `spawn_and_wait` runs the two halves as concurrent tasks, so nothing orders leaves of different halves at run time; the model only states which indices the leaves visit and how many each holds.
- `Histogram.SimpleHistogram.AddTextPart`: requires a text without 'z' or 'Z'. Those letters write `cnt_[25]`, one past the last bucket of `int cnt_[num_letters]` with `num_letters` 25 (concurrency-tutorial/7_conc_reduce.cpp:8, 10 and 44), which is undefined behaviour. This is a defect in the source, not only a hypothetical input: the demo text contains "gazed" (concurrency-tutorial/7_conc_reduce.cpp:140), so the demo itself writes out of bounds. `Histogram.InBoundsIffNoZ` states exactly when the writes stay in bounds. Characters are 7-bit in `ToLower` and `IsAlpha`; locale-dependent classification is left out.
- `ConcScan.PrefixSumSpec`: the parallel scan of the runtime is modelled by a sequential inclusive scan with initial value 0.
- `MatrixProcessing.ProcessMatrix.Start`: requires `w >= 1` and `h >= 1`. With an empty grid the source spawns cell (0,0) outside the grid.
- `TaskGraph.Graph.AddDependency`: requires that dependencies are declared before any task runs, as the demo does. Adding a dependency to a running graph depends on the runtime's unmodelled locking.
- `TaskGraph.Graph.Spawn`: spawns only a task that has no predecessors, as the demo does with t1.
- `PrioSerializer.PrioSerializer.StartNextTask`: requires at least one queued task. With every queue empty the source spins forever; under the serializer's invariant that case does not arise.
- Pipeline stages run in the order the pipeline declares; the stage orderings of the runtime (in order, concurrent, out of order) only reorder frames between stages and are not modelled.
- The demo texts and `main` functions' printing are not modelled, apart from the demo calls the tables above name.
