# Models of the ROCprofiler SDK's algorithms and protocols

The project models the self-contained algorithms of the SDK's samples, scripts and common library,
and the small concurrent protocols between their callbacks, and proves what they are for.
`dafny verify dfyconfig.toml` checks all of it.

Concurrent code is a state machine: each thread is a program counter with its registers, one step is
one shared access, lock operation, barrier or atomic operation, and the theorems hold for every
interleaving. GPU launches are run by methods whose scheduler may pick any thread that can move.
Objects that the source updates in place are classes; their methods are tied to functions on values,
about which the lemmas speak.

| module | what it models |
|---|---|
| `SwapInplaceKernel`, `NoBankConflictsKernel`, `NaiveKernel` | the three square transposes, per thread, with shared tiles and barriers (`Gpu`, `Matrix`, `Sums` hold geometry and index arithmetic) |
| `RectKernel` | the rectangular tiled transpose and the host's sampled check |
| `GridStrideKernel` | the grid-stride loop |
| `TraceIndex`, `TraceReport`, `TraceDecode` | the shared hit/latency index of a thread trace with its reader-writer lock (`SharedMutex`), the final report, and entries without an instruction |
| `Rocpd` | merging the JSON results of several processes into one relational database |
| `DimTree`, `DimPresence` | the tree of counter dimensions: its value and meaning, and the heap structure |
| `CaptureAccount`, `CaptureRecords` | which counter is attempted when, how records are counted, what the final verdict means |
| `CounterSampler` | the sampler's cache of profiles and table of their sizes |
| `Demangle` | truncating a demangled symbol to its bare name |
| `ProfileCache` | the double-checked profile cache |
| `PcSampling` | negotiating a sampling configuration on a device shared by several processes |
| `CorrelationMonitor` | the run-time monitor of correlation-id retirement |
| `ExitToggle` | the shutdown handshake of the device-counting samples |
| `EnvPath`, `Arguments` | composing path variables for the launched application; merging arguments |

## Findings

Properties that one might expect of the code and that hold only under a condition; each condition is
proved to be exact.

- `transposeLdsNoBankConflicts` addresses tile row `threadIdx.y + y`: all rows stay inside the tile
  exactly when the block height divides 64 (`NoBankConflictsKernel.TileRowsInBounds`).
- `verify` indexes with the two sides exchanged: it accepts every correct result of the launch into
  the cleared buffer exactly when the matrix is square and its side a multiple of 32
  (`RectKernel.VerifyIsSoundExactlyForSquares`). A side below 32 gives an empty grid, a launch error
  that keeps the program from reaching `verify`; for such sides the statement is about the function
  alone.
- `get_trace_data` emplaces the decoder's pointer without testing it, and the finalizer dereferences
  it. The report can be made exactly when no entry was first made by a decode that returned no
  instruction (`TraceDecode.PrintableExactly`), that is, when no event handed over has an address that
  decodes to nothing (`TraceDecode.PrintableForDecoder`); `TraceDecode.BlankRun` is a run that fails.
- The database merge starts its correlation-id offset again from 0 after an input without API
  records. Whatever ids the inputs use, all merged ids are distinct exactly when no such input stands
  between two inputs that have API records (`Rocpd.DistinctExactlyWithoutGaps`).
- A counter's product of dimension sizes is the number of leaves of its tree exactly when no
  dimension is empty, because growing the tree by an empty dimension does nothing
  (`DimTree.LeavesAreProduct`, `CounterSampler.ExpectedIsLeaves`).
- A batch of records in which one record cannot be placed loses the counts of the whole batch, while
  the marks made before it stay. The counts are right, however the stream is split, exactly when every
  value record comes after the dispatch that registered its counter and lies in the box of that
  counter's dimensions (`CaptureAccount.CountsExact`); `CaptureAccount.LostBatch` is a run that fails.
- Operations are numbered from 0 in every merge, so the insertions into an output database that an
  earlier merge gave some go through only if they add none (`Rocpd.Database.Merge`,
  `Rocpd.SecondMergeRefused`). This is about source/scripts/generate-rocpd.py:478-513; the views made
  afterwards (line 522) exist already in a finished database, so that a second run fails in any case.
- The kernel view pairs every operation of a call with every dispatch of that call. It lists the
  dispatches once each and nothing else exactly when no dispatch shares its call with another dispatch
  or with a copy (`Rocpd.KernelViewExact`).
- If another process samples stochastically, the configuration loop finds no host-trap configuration
  and uses a null pointer; it does so exactly when the query delivers stochastic configurations only
  (`PcSampling.NullExactly`, `PcSampling.StochasticNeighbourNull`); the whole negotiation succeeds under
  few interferences exactly when none of its queries meets such a process
  (`PcSampling.FewInterferencesExactly`).

Where code and documentation disagree the model follows the code:

- The comment above `truncate_name` (source/lib/common/demangle.cpp:114-117) says that it finds the
  kernel name. A word after the parameter list, such as a const qualifier, is taken instead
  (`Demangle.TrailingWordWins`); `Demangle.TruncateExactly` says for every name what is found.
- The comment at samples/pc_sampling/pcs.cpp:264-267 says that configuring fails when the other
  process releases the device between query and configure. By the contract in
  source/include/rocprofiler-sdk/pc_sampling.h:56-85 and 104-108 the setting asked for is then
  supported and not contradicted, so the model lets it succeed; all theorems about retries concern
  the answer "not available" only.

## Model

| member | source | states |
|---|---|---|
| Matrix.TransposedFully | samples/advanced_thread_trace/transpose_kernels.hpp:44-106 | for a size that is a multiple of 64, what the three kernels compute is the full transpose, and transposing twice gives the matrix back |
| Matrix.TransposedUnique | samples/advanced_thread_trace/transpose_kernels.hpp:44-106 | the kernels' common specification fixes every output element, so all three produce equal results |
| Matrix.TransposedCell | samples/advanced_thread_trace/transpose_kernels.hpp:44-106 | out[row*size+col] is in[col*size+row] for rows and columns below the last multiple of 64, and what it was elsewhere |
| SwapInplaceKernel.InitInv | samples/advanced_thread_trace/transpose_kernels.hpp:81-87 | stale tiles and threads at their first iteration satisfy the invariant |
| SwapInplaceKernel.StepInv | samples/advanced_thread_trace/transpose_kernels.hpp:78-106 | any step of any thread keeps it: loaded cells hold their input element or, once the owning thread is past them in the swap loop, their mirror image; stored output cells are transposed, others untouched |
| SwapInplaceKernel.Loaded | samples/advanced_thread_trace/transpose_kernels.hpp:89-97 | past the first barrier a thread finds every cell of its tile loaded, and swapped exactly if its one swap owner has done so |
| SwapInplaceKernel.LoadTarget | samples/advanced_thread_trace/transpose_kernels.hpp:86-87 | each tile cell is loaded by exactly one thread in exactly one iteration |
| SwapInplaceKernel.Footprint | samples/advanced_thread_trace/transpose_kernels.hpp:84-105 | the cells declared read and written by a step are all that its effect depends on and changes in the tile |
| SwapInplaceKernel.TouchesOwn | samples/advanced_thread_trace/transpose_kernels.hpp:86-105 | in the load phase a thread writes only cells it owns; between the barriers it reads and writes only cells whose swap it owns; after them it writes none |
| SwapInplaceKernel.RaceFree | samples/advanced_thread_trace/transpose_kernels.hpp:84-105 | of two different threads, at any two moments between the same barriers of any runs, neither writes a tile cell the other reads or writes |
| SwapInplaceKernel.StoreTarget | samples/advanced_thread_trace/transpose_kernels.hpp:101-104 | an iteration of the store loop writes one output cell, and of the threads of its column the one whose loop reaches the row is the only writer |
| SwapInplaceKernel.Progress | samples/advanced_thread_trace/transpose_kernels.hpp:89-99 | until all threads are done some thread can move: the two barriers never deadlock |
| SwapInplaceKernel.StepWork | samples/advanced_thread_trace/transpose_kernels.hpp:78-106 | every step uses up work, so every schedule ends |
| SwapInplaceKernel.DoneTransposed | samples/advanced_thread_trace/transpose_kernels.hpp:78-106 | when all threads are done the reached part of the output is the transpose and the rest is unchanged |
| SwapInplaceKernel.Grid.constructor | samples/advanced_thread_trace/transpose_kernels.hpp:78-84 | a launch starts from any content of the tiles and of the output buffer |
| SwapInplaceKernel.Grid.TransposeLdsSwapInplace | samples/advanced_thread_trace/transpose_kernels.hpp:78-106 | under any scheduler, any size and any block height of at least 1, the launch ends with the transpose in odata |
| NoBankConflictsKernel.TileRowsInBounds | samples/advanced_thread_trace/transpose_kernels.hpp:68-75 | all tile rows addressed lie in the tile if and only if the block height divides 64 |
| NoBankConflictsKernel.Offsets | samples/advanced_thread_trace/transpose_kernels.hpp:61-75 | the computed offsets are those of the intended cells and stay inside the matrices |
| NoBankConflictsKernel.LoadTarget | samples/advanced_thread_trace/transpose_kernels.hpp:68-69 | each tile cell is loaded by exactly one thread in exactly one iteration |
| NoBankConflictsKernel.RaceFree | samples/advanced_thread_trace/transpose_kernels.hpp:68-75 | on either side of the barrier, at any two moments of any runs, no thread writes a tile cell that another reads or writes |
| NoBankConflictsKernel.StoreTarget | samples/advanced_thread_trace/transpose_kernels.hpp:74-75 | each output cell is stored by exactly one thread in exactly one iteration |
| NoBankConflictsKernel.StepInv | samples/advanced_thread_trace/transpose_kernels.hpp:55-76 | every access of every step is in bounds, and the invariant tying tile and output to the loop cursors is kept |
| NoBankConflictsKernel.Progress | samples/advanced_thread_trace/transpose_kernels.hpp:72 | the barrier never deadlocks |
| NoBankConflictsKernel.StepWork | samples/advanced_thread_trace/transpose_kernels.hpp:69-75 | every step uses up work |
| NoBankConflictsKernel.DoneTransposed | samples/advanced_thread_trace/transpose_kernels.hpp:55-76 | a finished launch has transposed the reached part and left the rest |
| NoBankConflictsKernel.Grid.constructor | samples/advanced_thread_trace/transpose_kernels.hpp:55-70 | a launch whose block height divides 64 starts from any tile content |
| NoBankConflictsKernel.Grid.TransposeLdsNoBankConflicts | samples/advanced_thread_trace/transpose_kernels.hpp:55-76 | under any scheduler the launch ends with the transpose in odata |
| NaiveKernel.StoreTarget | samples/advanced_thread_trace/transpose_kernels.hpp:51-52 | an iteration writes the output cell of its thread and loop variable and no other, and each cell has one writer |
| NaiveKernel.StepInv | samples/advanced_thread_trace/transpose_kernels.hpp:51-52 | an iteration of any thread keeps every output cell transposed or untouched as its writer's cursor says |
| NaiveKernel.DoneTransposed | samples/advanced_thread_trace/transpose_kernels.hpp:44-53 | a finished launch has transposed the reached part and left the rest |
| NaiveKernel.TransposeNaive | samples/advanced_thread_trace/transpose_kernels.hpp:44-53 | the launch meets the same specification as the tiled kernels, for every size, block height and interleaving |
| RectKernel.StoreTarget | samples/api_buffered_tracing/main.cpp:148-149 | each output cell has exactly one writing thread |
| RectKernel.StepInv | samples/api_buffered_tracing/main.cpp:140-150 | every step of every thread keeps tile and output as the program counters say |
| RectKernel.Progress | samples/api_buffered_tracing/main.cpp:147 | the barrier never deadlocks |
| RectKernel.DoneTransposed | samples/api_buffered_tracing/main.cpp:140-150 | a finished launch has transposed the 32 by 32 blocks of the grid and left the rest |
| RectKernel.Transpose | samples/api_buffered_tracing/main.cpp:140-150 | on the (M/32, N/32) grid, under any scheduler, out[c*N+r] is in[r*M+c] wherever the grid reaches and unchanged elsewhere |
| RectKernel.TransposedCell | samples/api_buffered_tracing/main.cpp:140-150 | out[c*N+r] is in[r*M+c] for c and r below the last multiples of 32, and what it was elsewhere |
| RectKernel.Verify | samples/api_buffered_tracing/main.cpp:409-423 | reports as many mismatches as there are drawn positions that disagree |
| RectKernel.DrawReported | samples/api_buffered_tracing/main.cpp:411-416 | draw i is reported if and only if in[row*N+col] differs from out[col*M+row] for the row and column that random numbers 2i and 2i+1 leave modulo M and N; both indices are in bounds |
| RectKernel.RelaunchKeeps | samples/api_buffered_tracing/main.cpp:277-282 | launching again into the result of a launch changes nothing, so the repeated launches leave what one leaves |
| RectKernel.UnreachedDisagrees | samples/api_buffered_tracing/main.cpp:256-416 | a side that is no multiple of 32 leaves the last output cell as the host cleared it, and over an input without zeros the check fails there |
| RectKernel.VerifyIsSoundExactlyForSquares | samples/api_buffered_tracing/main.cpp:256-423 | for all positive sizes, the check accepts every correct result of a launch into the cleared buffer, whatever it draws, if and only if M equals N and is a multiple of 32 |
| GridStrideKernel.Partition | samples/counter_collection/main.cpp:54-56 | every index belongs to exactly one thread and one iteration |
| GridStrideKernel.StepInv | samples/counter_collection/main.cpp:56-59 | an iteration of any thread keeps each element squared or untouched as its owner's cursor says |
| GridStrideKernel.KernelC | samples/counter_collection/main.cpp:50-60 | for any grid and block of at least 1, any length and interleaving, the loops end with every element the product of the input element with itself |
| TraceIndex.InitInv | samples/advanced_thread_trace/client.cpp:116-121 | an empty index with idle threads satisfies the invariant |
| TraceIndex.StepInv | samples/advanced_thread_trace/client.cpp:269-360 | every step of either callback, with any answer of the decoder (an exception, no instruction, an instruction), keeps the lock discipline, entries equal to the sums of the events added, and the account of every event received |
| TraceIndex.StepLogged | samples/advanced_thread_trace/client.cpp:303-309 | only events whose pc has an entry are ever added |
| TraceIndex.StepEntry | samples/advanced_thread_trace/client.cpp:303-309 | each entry's hit count and latency is, modulo 2^64, the sum over the events already added for its pc |
| TraceIndex.StepConserved | samples/advanced_thread_trace/client.cpp:269-311 | events received are those added, those given up because the decoder threw, and those still in a thread's hands |
| TraceIndex.EntriesStay | samples/advanced_thread_trace/client.cpp:303-356 | no step removes an entry or replaces its instruction |
| TraceIndex.AdditionEnabled | samples/advanced_thread_trace/client.cpp:308-309 | a thread about to add finds its entry: no addition goes through a missing one |
| TraceIndex.NoDeadlock | samples/advanced_thread_trace/client.cpp:275-305 | while a call is in progress some call can go on |
| TraceIndex.RunCorrect | samples/advanced_thread_trace/client.cpp:269-360 | after any interleaving of any threads, two misses on one pc included, the invariant holds and every earlier entry is still there with its instruction |
| TraceReport.LongestLine | samples/advanced_thread_trace/client.cpp:433-436 | the first loop gets through exactly when every entry has its instruction, and then gives the length of the longest |
| TraceReport.ToolFini | samples/advanced_thread_trace/client.cpp:428-504 | a report is made exactly when every entry has its instruction; each of its eight figures is, modulo 2^64, the sum over the entries whose text is of the right kind: beginning with s_waitcnt and with or without lgkmcnt somewhere, with v_, with s_ otherwise, or with none of these |
| TraceReport.ClassByText | samples/advanced_thread_trace/client.cpp:462-485 | which instruction texts belong to which of the five classes |
| TraceReport.FiguresByText | samples/advanced_thread_trace/client.cpp:462-485 | the figures summed by class are the figures summed by text |
| TraceReport.ClassSumTotal | samples/advanced_thread_trace/client.cpp:451-485 | over the whole map in key order the class sums add up to the sum of all entries |
| TraceReport.ReportTotals | samples/advanced_thread_trace/client.cpp:487-489 | the two totals are the sums over the map: each entry falls in exactly one class of each total |
| TraceReport.LogTotal | samples/advanced_thread_trace/client.cpp:308-309 | the sums per pc add up to the sum over all events added |
| TraceReport.MapAccounts | samples/advanced_thread_trace/client.cpp:269-311 | with no call in progress the map, entries without an instruction included, holds the events received less those for which the decoder threw |
| TraceReport.ReportConserves | samples/advanced_thread_trace/client.cpp:269-489 | the totals of a report account for exactly the events received less those for which the decoder threw |
| TraceDecode.BlankOrigin | samples/advanced_thread_trace/client.cpp:290-303 | an entry lacks its instruction exactly when the step that made it had a decode that returned none; it never gains or loses one later |
| TraceDecode.PrintableExactly | samples/advanced_thread_trace/client.cpp:290-436 | after any run the report can be made if and only if no entry was first made by a decode that returned no instruction |
| TraceDecode.IsaCallAlone | samples/advanced_thread_trace/client.cpp:336-357 | the instruction callback alone: it leaves an entry without counts for an instruction that fits the buffer unless there is one, and otherwise changes nothing |
| TraceDecode.IsaCallLeavesEntry | samples/advanced_thread_trace/client.cpp:341-356 | under any interleaving, once the decoder has given an instruction that fits, the entry is there by the time the call is over, and stays |
| TraceDecode.TraceCallHits | samples/advanced_thread_trace/client.cpp:275-309 | the trace-data callback alone, on an event with an entry: both counts are added to it modulo 2^64 |
| TraceDecode.TraceCallMisses | samples/advanced_thread_trace/client.cpp:283-309 | on an event without an entry, the decoder not throwing: the entry is made with what was decoded and the counts of the event |
| TraceDecode.TraceCallGivesUp | samples/advanced_thread_trace/client.cpp:283-302 | the decoder throwing: the event is given up, nothing else changes and the lock is free again |
| TraceDecode.TraceCallIgnores | samples/advanced_thread_trace/client.cpp:275-279 | a record that is no instruction record changes nothing |
| TraceDecode.BlankRun | samples/advanced_thread_trace/client.cpp:283-309 | one event at an address that decodes to nothing: its counts are added to an entry without an instruction, and the report cannot be made |
| TraceDecode.StepDecoded | source/include/rocprofiler-sdk/cxx/codeobj/code_printing.hpp:307-318 | with a decoder that answers the same every time, entries, threads and given-up events agree with its answers, and no received event disappears |
| TraceDecode.PrintableForDecoder | samples/advanced_thread_trace/client.cpp:269-436 | with such a decoder, once all calls are over, the report can be made if and only if no event handed over has an address that decodes to nothing, whatever the interleaving |
| Rocpd.Database.InsertApiRecord | source/scripts/generate-rocpd.py:235-272 | one record is appended renumbered with the maximum tracked, or its id makes a duplicate |
| Rocpd.Database.InsertApiList | source/scripts/generate-rocpd.py:235-272 | the records of one API are appended renumbered with their maximum tracked, or a duplicate id is met |
| Rocpd.Database.InsertApiData | source/scripts/generate-rocpd.py:217-274 | succeeds exactly when no id collides; then the table grew by one row per record with the renumbered id, the process, the thread, the start and the end of the record, and the result is the largest of their ids, 0 if there are none |
| Rocpd.Database.InsertLinkedOp | source/scripts/generate-rocpd.py:400-419 | appends the operation under the next id and the link from its call; refused exactly when a row from before the merge has the id |
| Rocpd.Database.InsertDispatches | source/scripts/generate-rocpd.py:320-372 | appends the dispatches in order under consecutive ids, with a kernel row and a link each; succeeds exactly when no row from before the merge has one of the ids |
| Rocpd.Database.InsertCopies | source/scripts/generate-rocpd.py:374-419 | the same for memory copies |
| Rocpd.Database.InsertAsyncData | source/scripts/generate-rocpd.py:277-421 | dispatches first, then copies; the result is the next free operation id |
| Rocpd.Database.InsertInput | source/scripts/generate-rocpd.py:498-513 | adds one input after the earlier ones, in all five tables; succeeds exactly when neither its call ids nor its operation ids are taken |
| Rocpd.Database.Merge | source/scripts/generate-rocpd.py:478-513 | merges into whatever the output database holds: ends normally exactly when all renumbered call ids are distinct from each other and from those already there and no operation there has one of the new ids; then the call, operation, link, kernel and copy tables grew by the inputs' rows renumbered with the running offsets |
| Rocpd.SecondMergeRefused | source/scripts/generate-rocpd.py:478-513 | the insertions of a later merge into a database that an earlier merge gave operations go through only if there is no operation among them |
| Rocpd.MergedCall | source/scripts/generate-rocpd.py:237-271 | the row of call i of input k, column by column: id plus offset, process, thread, start and end, less the start time of the process if normalised |
| Rocpd.MergedDispatch | source/scripts/generate-rocpd.py:320-372 | the operation row of dispatch i of input k, column by column, and its kernel row with the call's new id |
| Rocpd.MergedCopy | source/scripts/generate-rocpd.py:374-419 | the operation row of copy i of input k, column by column, and its copy row with the call's new id |
| Rocpd.OffsetIsLargest | source/scripts/generate-rocpd.py:233-274 | the offset is 0 at first and after an input without calls, and otherwise the largest new id of the input before |
| Rocpd.MaxIdBounds | source/scripts/generate-rocpd.py:233-274 | the offset handed on is the largest id given out for the input |
| Rocpd.ApiAt | source/scripts/generate-rocpd.py:261-271 | each call's row is in the table at its place, whatever follows: renumbered id, process, thread, start and end |
| Rocpd.ApiOrigin | source/scripts/generate-rocpd.py:261-271 | each row is the row of one call |
| Rocpd.OpAt | source/scripts/generate-rocpd.py:320-419 | each operation's row is at its place with that place as id, its call's new id, its start and its end |
| Rocpd.OpOrigin | source/scripts/generate-rocpd.py:320-419 | each row is the row of one operation |
| Rocpd.OpsNumbered | source/scripts/generate-rocpd.py:320-421 | operation ids are exactly 0, 1, ... in insertion order |
| Rocpd.OffsetsGrow | source/scripts/generate-rocpd.py:485-513 | across inputs that all have calls, no id given out exceeds a later offset |
| Rocpd.IdsDistinct | source/scripts/generate-rocpd.py:237-512 | distinct calls, of the same or of different inputs, get distinct ids |
| Rocpd.GapFreeDistinct | source/scripts/generate-rocpd.py:485-513 | without gaps the merge never meets a duplicate id |
| Rocpd.DistinctExactlyWithoutGaps | source/scripts/generate-rocpd.py:233-512 | all inputs of a given shape merge without duplicates if and only if no input without calls stands between two with calls |
| Rocpd.JoinIsDisjointUnion | source/scripts/generate-rocpd.py:237-419 | a call and an operation are joined in the database if and only if they come from the same input and refer to each other there |
| Rocpd.OneCallPerOp | source/scripts/generate-rocpd.py:320-419 | every operation joins with exactly one call |
| Rocpd.ListedExactly | source/scripts/generate-rocpd.py:130-133 | the kernel view lists an operation with a dispatch's row if and only if both come from the same input and have the same call there |
| Rocpd.KernelViewExact | source/scripts/generate-rocpd.py:130-133 | the kernel view lists each dispatch once, with its own row, and nothing else if and only if no dispatch shares its call with another dispatch or with a copy of its input |
| Rocpd.NormalizeKeeps | source/scripts/generate-rocpd.py:147-174 | normalisation takes the start time of the process off every start and end of an input and keeps ids, threads, references and order |
| DimPresence.Presence.constructor | samples/counter_collection/print_functional_counters.cpp:86-155 | a new node is a leaf without a value |
| DimPresence.Presence.MaybeForward | samples/counter_collection/print_functional_counters.cpp:88-105 | growing in place turns the tree's value into the one grown at every leaf; nodes stay in one tree each |
| DimPresence.Presence.AddLeaves | samples/counter_collection/print_functional_counters.cpp:90-97 | a leaf gets one fresh child per position |
| DimPresence.Presence.ForwardAll | samples/counter_collection/print_functional_counters.cpp:98-104 | every child grows, and nothing else changes |
| DimPresence.Presence.ForwardKid | samples/counter_collection/print_functional_counters.cpp:100-103 | growing one child leaves its siblings alone |
| DimPresence.Presence.MarkSeen | samples/counter_collection/print_functional_counters.cpp:107-119 | follows the record's positions and marks one leaf, or refuses and leaves the tree as it was |
| DimPresence.Presence.MarkKid | samples/counter_collection/print_functional_counters.cpp:118 | marking inside one child leaves its siblings alone |
| DimPresence.Presence.CheckSeen | samples/counter_collection/print_functional_counters.cpp:121-151 | appends the listing of the tree, restores pos_stack, and returns whether all leaves are marked |
| DimPresence.Grow | samples/counter_collection/print_functional_counters.cpp:299-318 | adding the dimensions one by one builds the tree of the list |
| DimTree.BuildShaped | samples/counter_collection/print_functional_counters.cpp:88-105 | the grown tree has one level per non-empty dimension and one child per position |
| DimTree.BuildUnmarked | samples/counter_collection/print_functional_counters.cpp:88-105 | a tree that was only grown has no value anywhere |
| DimTree.MarkExact | samples/counter_collection/print_functional_counters.cpp:107-119 | a record is refused if and only if its tuple lies outside the box; otherwise the flag of its tuple is raised and no other flag changes |
| DimTree.FlagsAreHits | samples/counter_collection/print_functional_counters.cpp:84-119 | after any records, the flags are exactly the tuples that some record carried |
| DimTree.SeenIffMarked | samples/counter_collection/print_functional_counters.cpp:121-151 | the recursive check is true if and only if every tuple's flag is raised |
| DimTree.PresenceExact | samples/counter_collection/print_functional_counters.cpp:81-151 | the check passes if and only if every tuple of the product was carried by some record, for any dimensions (empty or repeated ones included) and any records |
| DimTree.LinesExact | samples/counter_collection/print_functional_counters.cpp:121-151 | the listing has one line per tuple, in lexicographic order, with the tuple's coordinates and flag |
| DimTree.UnrankRank | samples/counter_collection/print_functional_counters.cpp:144-149 | every line number is the place of a tuple of the box |
| DimTree.RankInjective | samples/counter_collection/print_functional_counters.cpp:144-149 | different tuples have different places, so none is listed twice |
| DimTree.LeavesAreProduct | samples/counter_collection/device_counting_synchronous.cpp:273-292 | the product of the dimension sizes is the number of leaves of the tree if and only if no dimension is empty |
| DimTree.CountIffOnce | samples/counter_collection/print_functional_counters.cpp:396-431 | when every tuple was hit, the number of records equals the number of tuples if and only if no tuple was hit twice |
| CaptureRecords.Forest.constructor | samples/counter_collection/print_functional_counters.cpp:158-171 | no counter has a tree at first |
| CaptureRecords.Forest.Emplace | samples/counter_collection/print_functional_counters.cpp:299-301 | a counter gets a fresh tree unless it has one |
| CaptureRecords.Forest.Grow | samples/counter_collection/print_functional_counters.cpp:304-316 | grows the tree of one counter and leaves all others |
| CaptureRecords.Forest.MarkAt | samples/counter_collection/print_functional_counters.cpp:202 | marks the record in its counter's tree only; refused for an unknown counter or a position out of range |
| CaptureRecords.Forest.MarkTree | samples/counter_collection/print_functional_counters.cpp:202 | marking one tree leaves the trees of all other counters as they were |
| CaptureRecords.Forest.Check | samples/counter_collection/print_functional_counters.cpp:417-420 | verdict and listing of one counter's tree |
| CaptureRecords.Capture.constructor | samples/counter_collection/print_functional_counters.cpp:158-171 | the account starts empty |
| CaptureRecords.Capture.BufferedCallback | samples/counter_collection/print_functional_counters.cpp:179-212 | marks and counts the batch's value records; if one is refused, counts nothing and keeps the marks made before it |
| CaptureRecords.Capture.AddSeen | samples/counter_collection/print_functional_counters.cpp:207-211 | adds the batch's counts to those captured |
| CaptureRecords.Capture.AddCounter | samples/counter_collection/print_functional_counters.cpp:283-318 | registers one counter; one that is known keeps its instance count while its tree grows on |
| CaptureRecords.Capture.GrowAll | samples/counter_collection/print_functional_counters.cpp:303-318 | grows one counter's tree by a list of dimensions |
| CaptureRecords.Capture.FetchCounters | samples/counter_collection/print_functional_counters.cpp:263-319 | registers the counters in the order reported |
| CaptureRecords.Capture.DispatchCallback | samples/counter_collection/print_functional_counters.cpp:246-342 | fetches counters only while none are known, attempts the last remaining one and removes it whether or not a profile could be made |
| CaptureRecords.Capture.ToolFini | samples/counter_collection/print_functional_counters.cpp:374-432 | one verdict for each expected counter, and whether the numbers of counters agree |
| CaptureAccount.AttemptsExact | samples/counter_collection/print_functional_counters.cpp:255-341 | in every run of dispatches and batches, over any agents, the counters of the first agent that has any are attempted one per dispatch from the last to the first; attempted and remaining ones make up the list, and once it is used up nothing is attempted |
| CaptureAccount.CountsBound | samples/counter_collection/print_functional_counters.cpp:190-211 | captured counts never exceed the records delivered |
| CaptureAccount.ProcessExactly | samples/counter_collection/print_functional_counters.cpp:191-205 | a batch is accepted if and only if each of its value records is of a known counter with all positions in range; accepted or not, the trees keep their shape |
| CaptureAccount.RunShaped | samples/counter_collection/print_functional_counters.cpp:179-342 | after any run the trees have the shape of the supported counters' dimensions, a counter listed twice growing on |
| CaptureAccount.RefusedExactly | samples/counter_collection/print_functional_counters.cpp:179-342 | no batch of a run is refused if and only if every value record comes after the dispatch that registered its counter and lies in the box of its dimensions |
| CaptureAccount.RefusedKeeps | samples/counter_collection/print_functional_counters.cpp:187-211 | a batch with a record that cannot be placed leaves all counts as they were |
| CaptureAccount.RefusedMarks | samples/counter_collection/print_functional_counters.cpp:191-205 | such a batch has marked, each in the tree of its own counter, the records before the first one that cannot be placed, and no others |
| CaptureAccount.LostBatch | samples/counter_collection/print_functional_counters.cpp:187-211 | a run in which the second record of a batch is out of range: both records of the counter are missing from its count |
| CaptureAccount.CountsExact | samples/counter_collection/print_functional_counters.cpp:190-211 | the captured counts are those of the whole record stream, however it was split into batches, if and only if every value record comes after the dispatch that registered its counter and lies in the box of its dimensions |
| CaptureAccount.ProcessMarks | samples/counter_collection/print_functional_counters.cpp:191-205 | an accepted batch marks each tree with the records of its own counter |
| CaptureAccount.ProcessFits | samples/counter_collection/print_functional_counters.cpp:191-205 | the records of an accepted batch have all their positions in range |
| CaptureAccount.KnownCounters | samples/counter_collection/print_functional_counters.cpp:202-301 | trees and expectations exist for exactly the supported counters |
| CaptureAccount.FirstCountStays | samples/counter_collection/print_functional_counters.cpp:292-297 | a counter listed more than once keeps the instance count it is first listed with |
| CaptureAccount.CapturedExactly | samples/counter_collection/print_functional_counters.cpp:190-211 | while no batch was refused, a counter has a count exactly when a record of it was delivered |
| CaptureAccount.RunHolds | samples/counter_collection/print_functional_counters.cpp:179-342 | after any run whose records can all be placed each counter's tree is the one built from its dimensions and marked with its records |
| CaptureAccount.VerdictExact | samples/counter_collection/print_functional_counters.cpp:396-431 | when all records can be placed, a counter passes if and only if it has the expected number of records and every tuple was hit |
| CaptureAccount.VerdictKinds | samples/counter_collection/print_functional_counters.cpp:404-427 | a counter without records is reported missing, one with the wrong number with that number, and one with the expected number is checked |
| CaptureAccount.VerdictLines | samples/counter_collection/print_functional_counters.cpp:121-431 | the listing of a checked counter has one line for each coordinate tuple, in lexicographic order, saying whether a record carried it |
| CaptureAccount.PassMeansOnceEach | samples/counter_collection/print_functional_counters.cpp:396-431 | when the expected number is the number of tuples, a counter passes if and only if every tuple was hit by exactly one record |
| CounterSampler.Sampler.constructor | samples/counter_collection/device_counting_synchronous.cpp:94-100 | nothing is cached at first |
| CounterSampler.Sampler.GetCounterSize | samples/counter_collection/device_counting_synchronous.cpp:273-292 | the loop computes the product of the dimension sizes, which is the number of leaves of the counter's tree if and only if no dimension is empty |
| CounterSampler.Sampler.FindCounters | samples/counter_collection/device_counting_synchronous.cpp:202-215 | collects the supported counters among the names in order, and the sum of their sizes |
| CounterSampler.Sampler.SampleCounterValues | samples/counter_collection/device_counting_synchronous.cpp:195-233 | looks up or creates the profile, sizes the buffer by the recorded size and configures the device unless the handle is zero; only a successful creation changes the cache, and a failed one changes nothing |
| CounterSampler.FoundConcat | samples/counter_collection/device_counting_synchronous.cpp:202-215 | what two requests put together ask for is what they ask for apart, in order |
| CounterSampler.FoundOne | samples/counter_collection/device_counting_synchronous.cpp:204-213 | a single name asks for its counter, or for nothing when the agent does not support it |
| CounterSampler.FoundAt | samples/counter_collection/device_counting_synchronous.cpp:202-215 | the counter of a supported name comes right after those of the names before it |
| CounterSampler.RunReflects | samples/counter_collection/device_counting_synchronous.cpp:195-226 | after any calls a request is cached with a handle exactly when the first successful creation for its names gave that handle; every cached handle has a size on record, that of the first request given the handle |
| CounterSampler.SizesExact | samples/counter_collection/device_counting_synchronous.cpp:195-226 | every cached profile has the size its counters ask for if and only if the calls that were given the same handle for a new profile ask for equally many records |
| CounterSampler.ReusedHandle | samples/counter_collection/device_counting_synchronous.cpp:220-225 | were one handle given out twice, the size recorded for the first request would stay |
| CounterSampler.FreshSizesRight | samples/counter_collection/device_counting_synchronous.cpp:195-226 | with a library that returns new profiles only, as documented, the sizes are right after any calls |
| CounterSampler.CacheStays | samples/counter_collection/device_counting_synchronous.cpp:199-222 | a cached profile is never replaced |
| CounterSampler.ExpectedIsLeaves | samples/counter_collection/device_counting_synchronous.cpp:202-215 | the size of a request is the number of leaves of its counters' trees if and only if none has an empty dimension, and never more |
| Demangle.SkipTail | source/lib/common/demangle.cpp:121-157 | the first loop leaves the part of the name that the scan leaves |
| Demangle.TruncateName | source/lib/common/demangle.cpp:118-163 | the two loops compute the last word of what the scan leaves |
| Demangle.TruncateFinds | source/lib/common/demangle.cpp:114-163 | prefix, identifier, then spaces and groups balanced in their own bracket: the identifier is found |
| Demangle.TruncateExactly | source/lib/common/demangle.cpp:114-163 | a non-empty identifier is the result if and only if the name decomposes that way |
| Demangle.TruncateIdempotent | source/lib/common/demangle.cpp:118-163 | truncating twice changes nothing more |
| Demangle.TruncateIgnoresTail | source/lib/common/demangle.cpp:125-157 | a trailing space or balanced group does not change the result |
| Demangle.TrailingWordWins | source/lib/common/demangle.cpp:158-161 | a word after the last space is the result, whatever precedes it |
| Demangle.GroupBalanced | source/lib/common/demangle.cpp:129-156 | a printed group, with nested groups and any foreign brackets inside, is one balanced group |
| Demangle.PrintTruncate | source/lib/common/demangle.cpp:114-163 | printing a structured name and truncating it gives the identifier back |
| ProfileCache.InitInv | samples/counter_collection/callback_client.cpp:116-117 | an empty cache satisfies the invariant |
| ProfileCache.NothingCreated | samples/counter_collection/callback_client.cpp:134-135 | a miss under the exclusive lock means that no profile was ever created for the agent |
| ProfileCache.StepInv | samples/counter_collection/callback_client.cpp:116-187 | every step of every dispatch keeps cache, lock and created profiles in agreement |
| ProfileCache.RunOnce | samples/counter_collection/callback_client.cpp:116-187 | in every interleaving at most one profile is created per agent, all dispatches of an agent that return are given it, and cached entries never change |
| ProfileCache.EndsExactly | samples/counter_collection/callback_client.cpp:116-187 | in every run a dispatch that is over threw if and only if its own creation of a profile failed; otherwise it returned the cached profile of the agent it started with |
| ProfileCache.NoneFailed | samples/counter_collection/callback_client.cpp:134-186 | if every creation succeeds, none fails, so that no dispatch throws |
| ProfileCache.HitAlone | samples/counter_collection/callback_client.cpp:120-132 | with the profile cached, a dispatch returns it after three steps, holding the lock in shared mode only |
| ProfileCache.MissAlone | samples/counter_collection/callback_client.cpp:129-187 | without it, the eighth step is the last: a profile is created, cached and returned, or the callback throws with cache and lock as before |
| ProfileCache.NoDeadlock | samples/counter_collection/callback_client.cpp:129-135 | until all dispatches are over some dispatch can go on |
| ProfileCache.StepProgress | samples/counter_collection/callback_client.cpp:116-187 | every step brings its dispatch nearer to its end, so that every dispatch takes finitely many |
| PcSampling.FindHostTrap | samples/pc_sampling/pcs.cpp:215-228 | finds the host-trap configuration before which there is none, and nothing exactly when all are stochastic |
| PcSampling.ConfigurePreferStochastic | samples/pc_sampling/pcs.cpp:192-280 | the loop refines the negotiation and makes one to ten attempts |
| PcSampling.FirstFound | samples/pc_sampling/pcs.cpp:215-228 | any host-trap configuration before which there is none is the one found |
| PcSampling.IdleDeviceConfigured | samples/pc_sampling/pcs.cpp:230-258 | an undisturbed attempt on a device nobody has configured ends with the first host-trap configuration active: its method, its unit and an interval of 10000, or the one value of its range |
| PcSampling.IntervalOutOfRange | samples/pc_sampling/pcs.cpp:236-261 | if its range has several values and 10000 is not among them, the attempt fails and changes nothing |
| PcSampling.ActiveSettingTakenOver | samples/pc_sampling/pcs.cpp:234-258 | an undisturbed attempt on a device that samples by host trap takes over its unit and interval |
| PcSampling.NoConfigurations | samples/pc_sampling/pcs.cpp:199-208 | a query that fails or delivers nothing ends the negotiation without a configure call |
| PcSampling.TenAttempts | samples/pc_sampling/pcs.cpp:196-280 | the negotiation ends as the first attempt that is not told "not available" does, and fails after ten that are |
| PcSampling.NegotiateAgrees | source/include/rocprofiler-sdk/pc_sampling.h:64-86 | all processes configured at any time agree on one setting, and a successful negotiation holds it with the interval it reports |
| PcSampling.RetryNeedsInterference | source/include/rocprofiler-sdk/pc_sampling.h:70-84 | "not available" needs a step of another process between query and configure |
| PcSampling.NullExactly | samples/pc_sampling/pcs.cpp:211-234 | no configuration is picked exactly when the query delivers stochastic ones only |
| PcSampling.StochasticNeighbourNull | samples/pc_sampling/pcs.cpp:215-234 | one other process that samples stochastically brings that about on a device offering both methods |
| PcSampling.AttemptExactly | samples/pc_sampling/pcs.cpp:199-261 | on a suitable device an attempt fails on a null configuration if and only if stochastic sampling is active at its query; otherwise it succeeds or is repeated |
| PcSampling.QuietNegotiationExactly | samples/pc_sampling/pcs.cpp:197-275 | one undisturbed attempt among those left decides: success if and only if no query met stochastic sampling |
| PcSampling.FewInterferencesExactly | samples/pc_sampling/pcs.cpp:197-275 | with fewer than ten interfering steps the negotiation succeeds if and only if none of its queries meets stochastic sampling |
| PcSampling.CooperationMeetsNone | samples/pc_sampling/pcs.cpp:197-275 | processes that only use host trap never bring that about |
| PcSampling.FewInterferencesSucceed | samples/pc_sampling/pcs.cpp:197-275 | among such processes fewer than ten interfering steps cannot keep the negotiation from succeeding |
| CorrelationMonitor.Monitor.constructor | samples/external_correlation_id_request/client.cpp:201-222 | nothing is requested, retired or registered at first |
| CorrelationMonitor.Monitor.SeeExternal | samples/external_correlation_id_request/client.cpp:296-304 | counts the data once, then checks its internal id |
| CorrelationMonitor.Monitor.HandleRecord | samples/external_correlation_id_request/client.cpp:261-390 | the effect of each kind of record and when it throws; a record that throws changes nothing but the count of the data it carries, which is one higher unless its own id was found retired |
| CorrelationMonitor.Monitor.TracingCallback | samples/external_correlation_id_request/client.cpp:224-392 | handles a buffer's records in order until one throws; then the earlier ones have had their effect and that one what it leaves behind |
| CorrelationMonitor.Monitor.ToolFini | samples/external_correlation_id_request/client.cpp:512-539 | returns normally exactly when all data was seen once and all its internal ids are retired |
| CorrelationMonitor.HandleReflects | samples/external_correlation_id_request/client.cpp:106-392 | an event is handled if and only if it is orderly, and the state goes on reflecting the events |
| CorrelationMonitor.RunsIfOrderly | samples/external_correlation_id_request/client.cpp:106-392 | a run throws nothing if and only if every event is orderly with respect to those before it |
| CorrelationMonitor.MonitorExact | samples/external_correlation_id_request/client.cpp:201-542 | sound and complete: run and finalizer end normally if and only if no record carries an id retired before it (its own or its data's), every kernel named is registered, and each request's data is seen exactly once and its internal id retired |
| ExitToggle.StepInv | samples/counter_collection/device_counting.cpp:287-316 | every step of either thread keeps the flag protocol and the order of library calls |
| ExitToggle.HandshakeSafe | samples/counter_collection/device_counting.cpp:287-316 | for any calls before, in and after the loop and in every interleaving, the trace is the sampler's calls, round after round, and then the finalizer's; the finalizer leaves its spin only after the sampler's last step |
| ExitToggle.CheckThenBody | samples/counter_collection/device_counting.cpp:290-298 | in any interleaving a check that finds the flag unset is followed by the whole body, and nothing else, before the next check |
| ExitToggle.CheckThenGone | samples/counter_collection/device_counting.cpp:290-300 | once the flag is set at a check no call of the sampler follows |
| ExitToggle.RoundsMade | samples/counter_collection/device_counting.cpp:287-298 | until the finalizer has its first turn the sampler gets through its prologue and one round after the other, |body| + 3 turns each |
| ExitToggle.RoundsBeforeRequest | samples/counter_collection/device_counting.cpp:287-316 | whatever happens then, those rounds stay the beginning of the trace: with |prologue| + 1 + k(|body| + 3) turns before the first of the finalizer, the prologue and rounds 1 to k |
| ExitToggle.AsynchronousTrace | samples/counter_collection/device_counting.cpp:287-316 | once the finalizer is through, the context was started, sampled as number 1, 2, ..., stopped and the buffer flushed, in this order |
| ExitToggle.SynchronousTrace | samples/counter_collection/device_counting_synchronous.cpp:227-232 | once the sampler is gone, every start of the context was followed by its sample and its stop |
| ExitToggle.HandshakeFinishes | samples/counter_collection/device_counting.cpp:287-316 | under every fair scheduler both threads finish |
| ExitToggle.SpinsWithoutSampler | samples/counter_collection/device_counting.cpp:310-312 | without a turn for the sampler the finalizer spins for ever |
| ExitToggle.EventuallyGone | samples/counter_collection/device_counting.cpp:290-300 | once the flag is set, a sampler of either kind leaves its loop |
| EnvPath.Environment.UpdateEnv | source/bin/rocprofv3.py:808-873 | a prepend puts the value's directories in front of those listed, an append behind them, set or not; no other variable changes; for every combination of options the environment and the value returned |
| EnvPath.UpdatedExactly | source/bin/rocprofv3.py:821-873 | case by case, with true written as 1, false as 0 and strings as they are: nothing for None or a set variable not to be overwritten; joined and stripped when composing; a conditional overwrite writes exactly for a true or non-empty value, or exactly for a false or empty one |
| EnvPath.UpdatedPieces | source/bin/rocprofv3.py:841-873 | the directories listed after one prepend or append, empty and missing values included |
| EnvPath.PiecesJoin | source/bin/rocprofv3.py:861-867 | joining two path strings concatenates the directories they list |
| EnvPath.PiecesStrip | source/bin/rocprofv3.py:861-867 | stripping separators loses no directory |
| EnvPath.StripClean | source/bin/rocprofv3.py:861-867 | a stripped path has no separator at either end |
| EnvPath.StripExactly | source/bin/rocprofv3.py:861-867 | the stripped path is the one clean string that with separators at both ends makes up the path |
| EnvPath.ApplyPieces | source/bin/rocprofv3.py:841-873 | one prepend or append adds its directories at the front or the back, whether or not the variable was set |
| EnvPath.RunPieces | source/bin/rocprofv3.py:841-873 | after any prepends and appends the variable lists the prepended directories (latest first), the original ones, then the appended ones in order |
| EnvPath.RunFrame | source/bin/rocprofv3.py:841-873 | no other variable changes |
| EnvPath.ApplyClean | source/bin/rocprofv3.py:857-867 | a call on a set variable leaves no separator at either end |
| Arguments.EqualExactly | source/bin/rocprofv3.py:790-794 | two values are equal if and only if they are the same or a boolean and the number it stands for |
| Arguments.GetArgs | source/bin/rocprofv3.py:751-799 | raises exactly when some key is set differently on both sides (a boolean equals the number it stands for), and then names such a key; otherwise every key has the value set, the command line's first, and a range given as a text is a list of that text |

## Left out

- Machine integers of the GPU kernels: index arithmetic is unbounded; the kernels' `size_t`, and the `int` of the rectangular kernel, are assumed wide enough, as is the 32-bit product that is the stride of `kernelC`.
- KernelC: the element product is a parameter, so its overflow and rounding are whatever the element type does.
- TruncateName: the 32-bit bracket counter is unbounded; it is proved not to exceed the number of characters scanned.
- TraceIndex: `isa_map.emplace` at samples/advanced_thread_trace/client.cpp:356 runs without the lock and is modelled as one atomic step; the unsynchronised `num_waves++` (line 277), the instruction text copied out (lines 351-352) is not modelled; the decoder is a parameter with the three kinds of answer of source/include/rocprofiler-sdk/cxx/codeobj/code_printing.hpp:307-318.
- TraceReport.ToolFini: the listing of instructions, averages and percentages of the trace report are floating-point output and not modelled.
- Rocpd: names, strings, marker messages, agents and kernel attributes in the rows are not modelled; the offset is added to a record's value and not to the record itself, which no later code of the script reads.
- Rocpd.Database.Merge: a failed insert ends the merge; what was committed for earlier inputs is not described further.
- CaptureRecords: counter names, log text and the mutex (every callback holds it from beginning to end) are not modelled; decoding a record's counter and positions is a parameter that follows source/include/rocprofiler-sdk/counters.h:47-64, where an absent dimension reads as position 0.
- CaptureAccount: a run goes on after a callback has thrown. `buffered_callback` has no handler, so the exception enters the library, whose code is not shown; if that ends the process, a run has nothing after its first refused batch.
- CaptureRecords: the trees of the capture object sit in an object of their own instead of directly in its map.
- PassMeansOnceEach: that the library's instance count is the number of tuples is an assumption about the library, whose code is not shown.
- CorrelationMonitor: pointers to external data are numbers in the order of allocation, so that deleted or foreign pointers do not occur; the locks, each held for one access, are not modelled.
- PcSampling: the library and driver are the documented contract, with one interval range per configuration; flags, buffers, contexts and the ROCgdb cases are not modelled.
- HandshakeSafe: the library calls are assumed to succeed; sleeping and printing are steps without effect, and the memory order of the flag is sequentially consistent.
- UpdateEnv: a custom formatter and the rejection of unknown options are not modelled; values are strings, booleans or missing.
- GetArgs: type checks of the two arguments and floating-point values are not modelled.
- HIP, HSA and `rocprofiler_*` library functions, file and stream output, argument parsing and demangling itself are not part of this model.
- The headers' remaining declarations, ELF, logging and file-system wrappers, the trace-flag table and the conversion of collection periods would only add easy members or need floating point.
