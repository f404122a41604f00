# Verified model of python-memtools

python-memtools loads the memory of a CPython process, indexes its regions, scans them with several threads, decodes
Python objects from raw bytes and runs graph algorithms over what it finds. This project models the parts with
intricate behaviour and proves what they guarantee. `dafny verify dfyconfig.toml` checks everything.

Code that changes state step by step is modelled by classes and methods (the loaders, the dump loop, the per-thread
counters, the type registry, `print_entry`, the traversal with its guards, the decode loops), each proved against a
function or predicate; the theorems are lemmas about these. Address lookup and translation are functions, as they only
read. The concurrent scan is a transition system: one transition is one `fetch_add`, one increment of a worker's region
cursor, or one pass of its callback loop, and a schedule is any sequence of worker indices.

| file | subject |
|---|---|
| `Snapshot.dfy`, `Loader.dfy`, `Dump.dfy` | snapshot stream, the two loaders, the native dump |
| `Regions.dfy` | the mapped and the host region index, reads, address translation |
| `Scan.dfy`, `ScanCoverage.dfy`, `TypeCount.dfy` | the concurrent scan, what it covers, count-by-type |
| `Registry.dfy` | the registry of type objects |
| `AwaitGraph.dfy`, `AwaitGraphProperties.dfy`, `AwaitCycles.dfy`, `Stacks.dfy` | async-task-graph, find-all-stacks |
| `Heap.dfy`, `Unguarded.dfy`, `Traversal.dfy` | nested reprs under cycle and indent guards, and without a guard |
| `CallDepth.dfy`, `TraversalProperties.dfy`, `Contents.dfy` | when printing ends; faults and limits; what each kind of object shows |
| `TraversalDepth.dfy`, `TypeRoot.dfy`, `TraversalCycles.dfy` | nesting; type objects as root; the recursion marker |
| `Utf8.dfy`, `LineTable.dfy`, `DictTable.dfy` | string, line table and dict decoding |
| `Wrappers.dfy`, `Bytes.dfy`, `Graphs.dfy`, `Sets.dfy`, `Positions.dfy` | outcome types; bytes, 64-bit arithmetic and hex; paths and cycles; set sizes; positions |

The main results are `ScanExactIffCoverable`, `ScanEndsIffStride`, `CountByType`, `TypeRegistry.DeliverAll`,
`SeenIffShared`, `CyclePrintedIff`, `AllShownIffCyclesReached`, `TracebacksCompleteIffAcyclic`, `DumpedStreamIsReadBack`,
`DumpedMemoryIsReadBack`, `MappedToHostToMapped`, `Traversal.Repr` with the lemmas of `Contents`,
`PrintingEndsIffPrintable` with `CommandsEndIffPrintable`, `MarkIffCycle`, `LimitBoundsNestingIffFlat`, `TypeLimitIff`,
`TextRoundTrip` with `DecodeUcs`, `AgreesIffLineMoves`, `WrittenDictItems` and `SearchIsMapLookup`.

## What does not hold as documented

Where a claim is false of the code, the code is kept as it is, a failing input is given, and the condition under which the
claim holds is proved.

- A scan calls back exactly for the positions where an object fits if and only if the first region holds an object and every
  region that holds one begins at a multiple of 0x1000 in the concatenation of all regions (`ScanExactIffCoverable`): a
  block that straddles two regions is cut at the end of the first one, and `end - object_size` wraps in a first region that
  is too small. There the scan calls back where no object fits, or, if even the structure handed to the callback does not
  fit, the bounds check throws in the worker and ends the process (`OversizedObjectCalledAnyway`,
  `OversizedStructureAborts`). A loaded dump, and a loaded stream of whole pages, satisfy the condition
  (`LoadedDumpIsCoverable`, `LoadedStreamIsCoverable`).
- The power-of-two test at src/MemoryReader.hh:196 lets stride 0 through, and then worker 0 can call back for ever
  (`ZeroStrideNeverFinishes`). A scan always ends if and only if it has a stride or no regions (`ScanEndsIffStride`).
- README.md:86 says that `<!seen>` means a cycle of awaiters and shows its last edge. Under a root it means that two
  reachable objects await the same one (`SeenIffShared`): a diamond prints it without any cycle (`SeenWithoutCycle`). A root
  reaches a cycle if and only if some `<!seen>` line names an object that it is indented under, and that line is the last
  edge of a cycle (`CyclePrintedIff`); but one that nothing outside awaits has no root and prints nothing
  (`CycleWithoutOutput`). Every collected object is printed if and only if a root reaches every cycle
  (`AllShownIffCyclesReached`).
- A traceback ends if and only if it reaches no `f_back` cycle (`EndsIffNoCycle`).
- `exists_range` and `read` agree if and only if the offset into the region plus the size does not wrap 64 bits
  (`ExistsRangeAgreesWithRead`); where it does, the range exists but cannot be read (`WrappingSizeExists`).
- The 3.10 line lookup agrees with PEP 626 if and only if the covering entry moves the line, or the line is 0
  (`AgreesIffLineMoves`); with line delta 0 a line is lost (`LineKeptIsLost`).
- The index-table width rule leaves room for every index at exactly the sizes of `WidthSufficesIff`, among them the powers
  of two.
- `--max-recursion-depth` bounds the objects that indent their contents (`IndentsAreLimited`), except that a type object
  printed as root at depth 0 under the limit 1 exceeds the bound by one if and only if its `tp_dict` is a readable dict and
  nothing the call shows throws, because the limit is overwritten with 2 there (`SmallestLimitTypeIff`, with the input of
  `SmallTypeExceedsLimit`).
- It bounds the nesting of what a command prints if and only if no list shows another object that shows something of itself
  and short output names no coroutine (`LimitBoundsNestingIffFlat`): lists indent only after printing their items, so under
  the limit 1 they nest without bound (`NestedListsIgnoreTheLimit`). The bound is one level more for a user object as root,
  whose slots check no limit (`SmallUserTakesLevel`), and for a type object as root at depth 0 under the limit 1.
- A type object printed as root at depth 0 leaves `max_recursion_depth` at 2 if and only if its `tp_dict` shows a key or value
  that throws, because that field is put back without a guard (`TypeLimitIff`, with the input of `BrokenTypeLeavesLimit`);
  nothing else changes it (`LimitIsKept`).
- Printing ends in every state if and only if no object leads back to itself by steps without a cycle guard
  (`PrintingEndsIffPrintable`). Such steps go from a coroutine in short output to its name and, unless the name's repr
  throws, to its file name; a coroutine that is its own name is printed for ever (`SelfNamedNeverEnds`). Where no check
  throws, the same condition is exact for the calls that commands make, with nothing in progress
  (`CommandsEndIffPrintable`); with throwing checks it is sufficient for these calls, but necessary only over all states
  (`ThrowingNameEnds`). Long output always ends (`LongOutputPrintable`).

## Model

| member | source | states |
|---|---|---|
| Snapshot.DumpStream | dump_memory.py:48-62 | The written stream parses to exactly one entry for every range that could be read and whose end fits 64 bits, in order, each with the start of its range and the bytes read there; a failing range leaves no trace |
| Snapshot.EntryLayout | dump_memory.py:53-54 | An entry is sixteen header bytes, start then end with the low byte first, and then the data |
| Snapshot.ParseUndoesEncode | src/MemoryReader.cc:112-121 | Any list of entries, also empty or overlapping ones, is recovered from its encoding |
| Snapshot.EncodeUndoesParse | src/MemoryReader.cc:112-121 | Whatever the parser accepts is the encoding of what it returns, so the format has no second spelling |
| Snapshot.CutEntryRejected | src/MemoryReader.cc:112-121 | A stream cut strictly inside an entry, header or data, is rejected |
| Loader.MemoryReader.AddRegion | src/MemoryReader.cc:94-99 | Filing one view keeps both indexes and the byte count equal to those of the views added so far |
| Loader.MemoryReader.LoadStream | src/MemoryReader.cc:109-121 | The stream loader succeeds exactly on parseable streams, and then its indexes and byte count are those of the parsed entries at their file positions; otherwise it stops behind whole entries at a header or region that is cut, with the exception for that case |
| Loader.StreamBytes | src/MemoryReader.cc:120-120 | The bytes counted while loading a stream are those of the file without the headers |
| Loader.MemoryReader.LoadDirectory | src/MemoryReader.cc:83-100 | The directory loader files the views of its files in listing order, or fails like the first file that has none because of its name |
| Loader.OtherFileSkipped | src/MemoryReader.cc:86-90 | A file whose name is not `mem.START.END.bin` with dot-free parts is skipped |
| Loader.RegionFileLoaded | src/MemoryReader.cc:88-99 | A file with such a name is one region at the address START, or none if it is empty, and is an error if START is no hex address |
| Loader.DirectoryLoads | src/MemoryReader.cc:85-100 | A directory loads if and only if each file does; its views are those of the files that have one, in listing order |
| Loader.RegionNameOf | src/MemoryReader.cc:87-88 | Only names of that form split into the four tokens the loader asks for |
| Loader.StreamViewsSeparate | src/MemoryReader.cc:112-121 | Disjoint non-empty entries give views that are disjoint in the captured process and in this one |
| Loader.LoadedStreamPaired | src/MemoryReader.cc:118-119 | After loading disjoint entries the two indexes hold the same views, each side ordered and disjoint |
| Loader.EntryIsReadBack | src/MemoryReader.cc:143-150 | A read inside a loaded entry yields the host address of those bytes in the file |
| Loader.WrittenMemoryIsReadBack | src/MemoryReader.cc:109-150 | Write, load, read: every range inside a written region reads back the bytes of its entry |
| Loader.DumpedStreamIsReadBack | dump_memory.py:48-62 | Dump, load, read: what the script read from a range of the process is read back at its address there |
| Dump.DumpRange | src/MemoryReader.cc:216-226 | A dumped file holds the memory of its range; it is whole, or it ends before the first 1 MiB chunk that cannot be read; every chunk in it was read |
| Dump.FileNameTokens | src/MemoryReader.cc:214-214 | The dump's file name splits into exactly the four tokens the loader expects |
| Bytes.Hex16RoundTrip | src/MemoryReader.cc:91-91 | Every 64-bit address survives the 16-digit hex form and `stoull` |
| Bytes.Hex16Digits | src/MemoryReader.hh:89-91 | An address is written as sixteen upper-case hex digits, the highest first |
| Bytes.ParseHexReads | src/MemoryReader.cc:91-91 | A text is read as the number that its leading hex digits write, in either case; no digit or 64 bits too few is an exception |
| Bytes.HexValueOf | src/MemoryReader.cc:91-91 | A character is a digit exactly if it is one of 0-9, A-F and a-f, and lower case has the value of upper case |
| Dump.DumpFile | src/MemoryReader.cc:211-226 | The file of a range is named after its two ends and holds its memory up to the first chunk that cannot be read |
| Dump.DumpFileLoads | src/MemoryReader.cc:86-99 | A dumped file loads as one region with the start of its range, or as none if it is empty |
| Dump.OtherFilesIgnored | src/MemoryReader.cc:85-90 | Files without a region name change nothing, whatever else the directory holds |
| Dump.DumpedDirectoryViews | src/MemoryReader.cc:83-100 | Loading a directory with a dump of disjoint page-aligned ranges, and maybe other files, succeeds, keeps every non-empty region file, gives only prefixes of ranges, and all views are disjoint |
| Dump.DumpedMemoryIsReadBack | src/MemoryReader.cc:83-226 | Dump, load, read: every range inside the dumped part of a region reads back the memory of the process |
| Dump.LoadedViewsPaged | src/MemoryReader.cc:94-99 | Every region the loader keeps from a dump is a positive multiple of a page |
| Dump.LoadedDumpIsCoverable | src/MemoryReader.hh:208-215 | A loaded dump meets the exact-coverage condition of the scan for every object of at most a page |
| Dump.LoadedStreamIsCoverable | src/MemoryReader.hh:208-215 | A loaded stream of disjoint entries of whole pages meets it as well |
| Regions.Floor | src/MemoryReader.cc:236-240 | `upper_bound` then step back: the greatest key not above the address, or none if all keys are above |
| Regions.FindRefinesLinearSearch | src/MemoryReader.cc:235-258 | Ordered lookup, in either index, returns a region exactly when a linear search finds one that contains the address, and returns that one |
| Regions.ReadIffContained | src/MemoryReader.cc:143-150 | A read succeeds exactly when the whole range lies in the region that contains its start, and then yields the translated host address |
| Regions.ExistsRangeAgreesWithRead | src/MemoryReader.cc:134-150 | `exists_range` and `read` agree if and only if offset plus size does not wrap 64 bits |
| Regions.WrappingSizeExists | src/MemoryReader.cc:134-150 | The failing inputs: from offset k > 0 of any region, size 2^64 - k exists but cannot be read |
| Regions.MappedToHostToMapped | src/MemoryReader.hh:163-166 | Reading an object and translating its host pointer back gives its address again |
| Regions.HostToMappedToHost | src/MemoryReader.hh:280-291 | The other way round: a translated host pointer reads back as that host pointer |
| Regions.DistinctMappedDistinctHost | src/MemoryReader.hh:163-166 | Distinct readable addresses have distinct host pointers |
| Regions.SeparateViewsIndexed | src/MemoryReader.cc:118-119 | Emplacing disjoint views, in any order, loses none of them and gives a disjoint index |
| Regions.IndexKeepsFirst | src/MemoryReader.cc:96-97 | Of several views under one key an index keeps the first |
| Scan.InitInv | src/MemoryReader.hh:217-220 | The scan starts in the invariant |
| Scan.StepInv | src/MemoryReader.hh:221-235 | Every atomic step of every worker keeps it: callbacks made plus callbacks owed by the workers are those of the claimed blocks, and the counter does not wrap |
| Scan.RunInv | src/MemoryReader.hh:218-236 | The invariant holds along every schedule |
| Scan.CursorCatchesUp | src/MemoryReader.hh:222-224 | A worker's own monotone region cursor finds the same region as a search from the first one, and stays in range |
| Scan.FinishedScanIsSequential | src/MemoryReader.hh:218-236 | For every worker count and interleaving, a finished scan has made the callbacks of one sequential pass, as a multiset |
| Scan.StepUsesWork | src/MemoryReader.hh:221-235 | Every step of an unfinished worker uses up work |
| Scan.SchedulesAreBounded | src/MemoryReader.hh:221-235 | With a stride, no schedule of unfinished workers goes on for ever |
| Scan.ZeroStrideNeverFinishes | src/MemoryReader.hh:196-233 | With stride 0 and a first region that holds the structure, the start of the scan has schedules of every length in which worker 0 repeats its first callback |
| Scan.NoRegionsNoWork | src/MemoryReader.hh:221-221 | Without regions every worker returns at its first step, whatever the stride |
| Scan.ScanEndsIffStride | src/MemoryReader.hh:196-236 | The schedules of unfinished workers from the start of a scan are bounded if and only if it has a stride or nothing to scan |
| ScanCoverage.SequentialCount | src/MemoryReader.hh:221-235 | No position is called back more than once, and only by the block it lies in |
| ScanCoverage.CalledIsWanted | src/MemoryReader.hh:225-232 | Under the condition, a callback is at a stride position with room for the object in its region |
| ScanCoverage.WantedIsCalled | src/MemoryReader.hh:225-232 | Under the condition, every such position is called back |
| ScanCoverage.OversizedObjectCalledAnyway | src/MemoryReader.hh:225-232 | With a first region that holds the structure but not the object, a finished scan has called back for position 0, which has no room |
| ScanCoverage.OversizedStructureAborts | src/MemoryReader.hh:229-232 | With a first region smaller than the structure no scan finishes: the bounds check ends the process |
| ScanCoverage.LoggedPositionsFit | src/MemoryReader.hh:232-232 | Every callback gets a structure that lies inside its region |
| ScanCoverage.CoverableRunsNeverAbort | src/MemoryReader.hh:221-235 | Under the condition no interleaving reads outside a region |
| ScanCoverage.UnalignedRegionMissed | src/MemoryReader.hh:222-231 | A region that begins inside a block loses its first position |
| ScanCoverage.ScanExactIffCoverable | src/MemoryReader.hh:208-236 | For every worker count and interleaving, a scan that has come to its end has finished without an exception and was exact (once per fitting position, nothing else) if and only if the condition on the region sizes holds |
| ScanCoverage.PagedRegionsCoverable | src/MemoryReader.hh:199-215 | Regions of whole pages whose first one holds an object satisfy the condition |
| TypeCount.TypeCounter.OnObject | src/AnalysisShell.cc:294-298 | A callback adds one to its own thread's count of the object's type, if the object is accepted |
| TypeCount.TypeCounter.Merge | src/AnalysisShell.cc:302-309 | The merged map holds, for each type, the number of accepted callbacks of all threads |
| TypeCount.AddInto | src/AnalysisShell.cc:306-308 | Merging one thread's map adds its counts and changes no other |
| TypeCount.MergedCounts | src/AnalysisShell.cc:302-309 | Summing per-thread counts over the threads counts every callback once |
| TypeCount.MergedCountsAreObjectCounts | src/AnalysisShell.cc:290-309 | For every schedule, the merged count of a type is the number of accepted objects of that type at positions where the scanned structure fits |
| TypeCount.CountByType | src/AnalysisShell.cc:290-309 | The command, under any schedule: the merged map holds for each type the number of its accepted objects in the snapshot |
| Registry.TypeNameIsValid | src/Types/PyTypeObject.cc:24-37 | Accepts exactly the names over letters, digits, `_` and `.` that begin with a letter or `_` |
| Registry.FallbackKeysDistinct | src/AnalysisShell.cc:92-92 | The `name+ADDRESS` key determines name and address and is never a plain name |
| Registry.FallbackNeverCollides | src/AnalysisShell.cc:91-92 | If the fallback key is taken, it already holds this very address |
| Registry.TypeRegistry.OnType | src/AnalysisShell.cc:86-96 | Each delivery keeps the registry's invariant; it files the address under a free name, else under the free key `name+ADDRESS` if the name has another address, else nowhere |
| Registry.RegistersIsBijective | src/AnalysisShell.cc:86-96 | The invariant makes the registry a bijection between its keys and the delivered addresses |
| Registry.TypeRegistry.DeliverAll | src/AnalysisShell.cc:80-98 | Deliveries in any order, with repetitions, end in a bijection between keys and accepted type addresses |
| AwaitGraph.ComputeRoots | src/AnalysisShell.cc:727-735 | Inserting keys and erasing targets leaves exactly the collected objects that no collected object awaits |
| AwaitGraph.Printer.PrintEntry | src/AnalysisShell.cc:738-766 | On any finite graph the recursion ends, prints the specified lines, leaves the specified seen set, and restores `recursion_depth` |
| AwaitGraph.WalkSeesReachable | src/AnalysisShell.cc:738-773 | The objects seen under a root are exactly the non-null ones reachable from it |
| AwaitGraphProperties.WalkCounts | src/AnalysisShell.cc:743-765 | Each reachable object is printed in full exactly once, each await leaving a reachable object has exactly one line, and nothing else has any |
| AwaitGraphProperties.WalkIndents | src/AnalysisShell.cc:746-764 | Indentation shows who awaits: every line but the root's is one step deeper than an earlier full line of its awaiter |
| AwaitGraphProperties.WalkLineCount | src/AnalysisShell.cc:743-765 | A root prints 1 plus the number of non-null awaits leaving reachable objects lines |
| AwaitGraphProperties.SeenIffShared | src/AnalysisShell.cc:743-745 | Under a root, `<!seen>` appears if and only if two distinct reachable objects await the same non-null object |
| AwaitGraphProperties.ReachableCycleIsShown | src/AnalysisShell.cc:738-773 | Any cycle a root reaches produces `<!seen>` in its output |
| AwaitGraphProperties.NoSeenMeansTree | src/AnalysisShell.cc:738-773 | Without `<!seen>` every reachable object but the root has exactly one reachable awaiter |
| AwaitCycles.CyclePrintedIff | src/AnalysisShell.cc:743-765 | A root reaches a cycle if and only if some `<!seen>` line names an object that it is indented under |
| AwaitCycles.UnderLeads | src/AnalysisShell.cc:760-764 | A line is indented only under lines of objects that lead to its object by at least one await |
| AwaitGraphProperties.HiddenIsBehindCycle | src/AnalysisShell.cc:727-773 | A collected object printed under no root is reachable from an await cycle |
| AwaitGraphProperties.HiddenIffNotReached | src/AnalysisShell.cc:768-773 | A collected object is printed under no root if and only if no root reaches it |
| AwaitGraphProperties.AllShownIffCyclesReached | src/AnalysisShell.cc:727-773 | Every collected task and future is printed if and only if every await cycle is reached from a root |
| AwaitGraphProperties.AcyclicShowsEverything | src/AnalysisShell.cc:727-773 | In an acyclic await graph every collected task and future appears under some root |
| AwaitGraphProperties.SeenWithoutCycle | README.md:86-86 | A diamond without any cycle prints `<!seen>`, contrary to the documentation |
| AwaitGraphProperties.CycleWithoutOutput | src/AnalysisShell.cc:727-735 | Two tasks that await each other have no root and are not printed |
| Stacks.FrameRoots | src/AnalysisShell.cc:542-548 | The roots are the collected frames that are no collected frame's `f_back` |
| Stacks.Traceback | src/AnalysisShell.cc:557-573 | A traceback prints the `f_back` chain up to null, or up to and including the first uncollected frame, which it warns about |
| Stacks.EndsIffNoCycle | src/AnalysisShell.cc:557-573 | A traceback ends if and only if its root reaches no `f_back` cycle |
| Stacks.TracebacksCompleteIffAcyclic | src/AnalysisShell.cc:541-574 | All tracebacks end and every collected frame appears in one if and only if no frames form a cycle |
| Unguarded.StepLowersRank | src/Types/PyGeneratorObjects.cc:80-93 | Without a cycle of unguarded steps, each such step leads to an object with fewer unguarded objects ahead |
| Unguarded.BareIsBounded | src/Types/PyGeneratorObjects.cc:80-93 | What is printed without a cycle guard gets to visit only objects of a lower rank |
| Unguarded.LongOutputPrintable | src/Types/Base.cc:359-389 | In long output no object leads back to itself without a guard |
| Traversal.EntersLower | src/Types/Base.hh:99-101 | Every body runs with more objects in progress than its call, or visits only objects of a lower rank |
| CallDepth.CallIsEval | src/Types/Base.cc:272-405 | On a heap without unguarded cycles the calls nest at most as deep as the stated measure, and do what the specification says |
| CallDepth.TrappedNeverEnds | src/Types/PyGeneratorObjects.cc:80-93 | On an unguarded cycle whose names return, a call is nested deeper than any bound, with the same objects in progress at the same depth |
| CallDepth.AllInProgressReturns | src/Types/Base.hh:99-101 | With every object in progress, a repr that ends throws only if it throws in every state |
| CallDepth.PrintingEndsIffPrintable | src/Types/PyGeneratorObjects.cc:80-93 | Every repr call ends, in every state, if and only if no object leads to itself by steps without a cycle guard |
| CallDepth.CommandsEndIffPrintable | src/Types/PyGeneratorObjects.cc:80-93 | Where no check throws, the calls with nothing in progress all end if and only if no object leads to itself by steps without a cycle guard |
| CallDepth.CalmCallReturns | src/Types/Base.cc:391-404 | On any heap without throwing checks, cyclic or not, a call that ends returns |
| CallDepth.ThrowingNameEnds | src/Types/PyGeneratorObjects.cc:80-93 | A heap with an unguarded cycle on which every call with nothing in progress ends, because a name throws only as root |
| CallDepth.ThrowingNameIsNotPrintable | src/Types/PyGeneratorObjects.cc:80-93 | That heap has an unguarded cycle |
| CallDepth.SelfNamedNeverEnds | src/Types/PyGeneratorObjects.cc:80-82 | In short output a coroutine that is its own qualified name is never printed, whatever the state |
| Traversal.Traversal.Repr | src/Types/Base.cc:272-405 | Ends on every heap without unguarded cycles, returns or throws as specified, and always leaves `in_progress` and `recursion_depth` as they were |
| Traversal.Traversal.RunGuarded | src/Types/Base.hh:95-121 | A body under its guards sees the object in progress and the deeper indent, and both are released when it throws too |
| Traversal.Traversal.RunOps | src/Types/PyTupleObject.cc:47-56 | The body loops stop at the first uncaught exception and print in order what came before it |
| Traversal.Traversal.RunOp | src/Types/PyTypeObject.cc:258-262 | One visit, indent, catch or overwritten depth limit has the specified effect on the state |
| TraversalProperties.FaultsComeFromObjects | src/Types/Base.cc:391-402 | An exception leaves a repr only if some object's own check threw it, and `out_of_range` never does |
| TraversalProperties.LogicErrorUnreachable | src/Types/PyTypeObject.cc:196-203 | The `logic_error` of a recursive root type is never thrown |
| TraversalProperties.LimitIsKept | src/Types/PyTypeObject.cc:259-262 | A call that prints no type object with nothing in progress leaves the depth limit as it was, also when it throws |
| Contents.VisitsPrintEach | src/Types/PyTupleObject.cc:50-56 | A loop of nested reprs prints each object once, in order, up to the first that throws, whose exception ends the loop |
| Contents.SequenceContents | src/Types/PyListObject.cc:49-65 | An expanded tuple or non-empty list shows exactly its items in order up to the entry limit, one depth deeper for a tuple and at the same depth for a list |
| Contents.SetContents | src/Types/PySetObject.cc:64-73 | An expanded set shows exactly the non-null entries of its table, in table order, up to the entry limit, one depth deeper |
| Contents.DictContents | src/Types/PyDictObject.cc:190-217 | An expanded dict shows the key followed by the value of each readable entry, in slot order up to the entry limit, one depth deeper |
| Contents.CellContents | src/Types/PyCellObject.cc:24-25 | An expanded cell shows its reference, one depth deeper |
| Contents.CodeContents | src/Types/PyCodeObject.cc:66-92 | An expanded code object shows its name and file name and, only as root, its other object fields |
| Contents.FutureContents | src/Types/PyAsyncObjects.cc:66-114 | An expanded future shows its non-null fields in order, in short output of these only the ones marked for it (the exception and the result) |
| Contents.TaskContents | src/Types/PyAsyncObjects.cc:189-201 | An expanded task shows these fields and then its coroutine, in long output followed by what it waits for, name and context |
| Contents.GatheringContents | src/Types/PyAsyncObjects.cc:134-147 | An expanded gathering future shows these fields and, in long output, its children in order; an exception among these ends them with a marker and is not passed on |
| Contents.GeneratorContents | src/Types/PyGeneratorObjects.cc:32-53 | An expanded generator, or coroutine in long output, shows its non-null fields in order |
| Contents.FrameContents | src/Types/PyFrameObject.cc:136-176 | An expanded frame shows where it is, in long output its fields with or without `f_back`, and unless omitted the name and value of each variable, one depth deeper still; exceptions from the place and from the variables become markers, those from the fields are passed on |
| Contents.TypeContents | src/Types/PyTypeObject.cc:258-275 | A type object as root shows its base, its dict under the limit 2 and its other fields; a dict that throws leaves that limit behind |
| Contents.UserContents | src/Types/Base.cc:376-389 | A user object as root shows its slots at the same depth and its `__dict__` one deeper; an unreadable slot leaves only the type name |
| Contents.DictOnlyContents | src/Types/Base.cc:390-392 | A user object without slots, as root, shows its `__dict__`, which is printed as root too |
| Contents.NameContents | src/Types/PyGeneratorObjects.cc:80-95 | A coroutine in short output shows its name and, if it has a readable frame, the file name, in any state; only exceptions from the file name are caught |
| Contents.MarkerContents | src/Types/Base.hh:134-148 | An object that a guard stops is marked: too deep at the depth limit, recursive if it is in progress; of both, too deep, but a dict recursive, because it consults the cycle guard first |
| Contents.PlainContents | src/Types/Base.cc:273-405 | Null, unreadable and failing objects, objects without contents, and user and type objects inside another object: what is printed for them in every state, or thrown |
| TraversalDepth.IndentsAreLimited | src/Types/Base.hh:75-77 | Under a depth limit, in every state, no branch of the output holds more indenting objects than there were depths left, unless a type is printed with nothing in progress at depth 0 under the limit 1 |
| TraversalDepth.FlatIsLimited | src/Types/Base.hh:75-77 | Where lists show nothing that is expanded and no coroutine is named, in every state, no branch is longer than the depths left plus one, markers included; one more for a user object as root, and for a type as root at depth 0 under the limit 1 |
| TraversalDepth.LimitBoundsNestingIffFlat | src/Types/PyListObject.cc:44-68 | Where no check throws, the depth limit bounds, up to these two exceptions, the nesting of every call with nothing in progress if and only if no list shows another object that shows something of itself and short output names no coroutine |
| TypeRoot.SmallestLimitTypeIff | src/Types/PyTypeObject.cc:258-262 | At depth 0 under the limit 1, a root type exceeds the bound on indenting objects if and only if its `tp_dict` is a readable dict and no shown key, value or field throws |
| TypeRoot.SmallTypeExceedsLimit | src/Types/PyTypeObject.cc:259-262 | The failing input: a type with an empty dict |
| TypeRoot.SmallUserTakesLevel | src/Types/Base.cc:377-384 | A user object with one slot takes the extra level under the limit 0 |
| TypeRoot.TypeLimit | src/Types/PyTypeObject.cc:258-262 | A root type leaves the limit 2 behind if and only if its base prints and its `tp_dict` throws |
| TypeRoot.TypeLimitIff | src/Types/PyTypeObject.cc:258-262 | In terms of the heap: it leaves the limit 2 behind if and only if it is expanded at depth 0 and its `tp_dict` shows a key or value that throws |
| TypeRoot.AtLimitThrows | src/Types/Base.hh:75-77 | At the depth limit, inside another object, a repr throws if and only if it throws in every state |
| TypeRoot.BrokenTypeLeavesLimit | src/Types/PyTypeObject.cc:259-262 | The failing input: a type whose dict holds an object with a throwing check, printed without a limit, leaves the limit 2 |
| TraversalDepth.NestedListsIgnoreTheLimit | src/Types/PyListObject.cc:44-68 | Under the depth limit 1, any number of nested lists is printed to the bottom |
| TraversalDepth.NestingIsBounded | src/Types/Base.hh:95-109 | In long output, and in short output with strings for names, no branch is longer than the number of objects not in progress plus two, plus one for an unguarded root |
| TraversalCycles.MarkIffCycle | src/Types/Base.hh:138-141 | Without a depth limit, and with no throwing check visited, `recursive_repr` appears if and only if some walk of shown objects closes a cycle |
| TraversalCycles.UserMarkIffCycle | src/Types/Base.cc:390-392 | The same for a user object without slots printed as root, in terms of its dict |
| TraversalCycles.CloseStep | src/Types/Base.hh:99-101 | Running an object's body turns the closing walks from it into those from what it shows |
| Utf8.CharRoundTrip | src/Types/PyStringObjects.cc:53-69 | The bytes of one code point decode to it by RFC 3629, whatever follows |
| Utf8.TextRoundTrip | src/Types/PyStringObjects.cc:41-70 | RFC 3629 decoding, with surrogates let through, undoes the encoding of every text below 0x110000 |
| Utf8.DecodeUcs | src/Types/PyStringObjects.cc:35-73 | At each width, encodes exactly the shortest prefix that reaches the limit, or the whole text, with the unread bytes as excess; throws exactly on a length that is no multiple, an unknown width with a length that passes the bit test, or a character from 0x110000 on before the limit |
| Utf8.MisalignedKnownWidth | src/Types/PyStringObjects.cc:36-38 | The length test by `&` asks, for the three known widths, whether the width divides the length |
| Utf8.MisalignedIsSharedBit | src/Types/PyStringObjects.cc:36-38 | For any width it asks whether the length shares a bit with the width less one, which for width 0 has all 64 |
| Utf8.DecodedPrefix | src/Types/PyStringObjects.cc:41-72 | Truncated output decodes to a prefix of the text, reaches the limit with its last character and exceeds it by at most three bytes; without a limit it is the whole text |
| Utf8.StopIsUnique | src/Types/PyStringObjects.cc:41-69 | The place where decoding stops, and whether it throws, are determined by text and limit |
| LineTable.LineNumberForOffset | src/Types/PyCodeObject.cc:107-129 | The loop returns the line of the first emitted range that contains the offset, 0 without one, and throws at the end of an odd table |
| LineTable.CoverIsUnique | src/Types/PyCodeObject.cc:117-118 | The ranges of the entries are disjoint and increasing |
| LineTable.EntryMeaning | src/Types/PyCodeObject.cc:110-123 | The first byte of an entry is the code it covers; the second, as a signed byte, moves the line, except that -128 moves none and reports none |
| LineTable.LookupInEntry | src/Types/PyCodeObject.cc:112-127 | On an offset that an entry covers, that entry alone decides the line: the moved one, or 0, or an exception if the table has a trailing byte |
| LineTable.LookupOutside | src/Types/PyCodeObject.cc:109-129 | Offsets before and behind all entries have line 0, or an exception if the table has a trailing byte |
| LineTable.AgreesIffLineMoves | src/Types/PyCodeObject.cc:112-118 | The lookup agrees with PEP 626 on an offset if and only if the covering entry moves the line, or the reported line is 0 anyway |
| LineTable.LineKeptIsLost | src/Types/PyCodeObject.cc:112-115 | A concrete table on which the lookup loses a line |
| DictTable.GetTable | src/Types/PyDictObject.cc:77-95 | The table holds, for every slot, its own bytes as a signed little-endian value of the chosen width |
| DictTable.WidthIsLeast | src/Types/PyDictObject.hh:24-34 | The width is the least of 1, 2, 4 and 8 whose unsigned values reach the table size, or 8 |
| DictTable.SlotsRoundTrip | src/Types/PyDictObject.cc:77-95 | Writing slots and reading them is the identity at every width |
| Bytes.SignedIsCongruent | src/Types/PyDictObject.cc:84-92 | A signed read is the value in the signed range that is equal to the unsigned one modulo 256^n |
| DictTable.WidthSufficesIff | src/Types/PyDictObject.hh:24-34 | The exact table sizes at which every index from -2 to the last usable entry fits the chosen width |
| DictTable.PowerOfTwoTableRoundTrip | src/Types/PyDictObject.hh:24-34 | For power-of-two sizes every index fits and is recovered |
| DictTable.GetItems | src/Types/PyDictObject.cc:114-129 | One pair for every non-negative slot, decoded from its entry, in slot order, or `out_of_range` exactly when one of them lies outside |
| DictTable.ItemAtIff | src/Types/PyDictObject.cc:121-124 | A slot lies outside if its entry, or its split value where there are any, ends beyond the bytes read |
| DictTable.ActiveIsUnique | src/Types/PyDictObject.cc:119-120 | The slots that hold an entry, and their order, are determined by the table |
| DictTable.ReprItems | src/Types/PyDictObject.cc:187-217 | The re-implemented decode shows the same slots with placeholders for unreadable ones, cut exactly at the entry limit |
| DictTable.ReprDecodesItems | src/Types/PyDictObject.cc:150-217 | Without a limit repr decodes the pairs of `get_items` |
| DictTable.WrittenItem | src/Types/PyDictObject.cc:121-125 | A written entry decodes to its key with the split value if there is one and its own value otherwise |
| DictTable.WrittenDictItems | src/Types/PyDictObject.cc:114-129 | Decoding a written dict, combined or split, gives back exactly its pairs |
| DictTable.ValueForKey | src/Types/PyDictObject.hh:58-70 | Returns the value of the first key with this text, skips undecodable keys, passes other exceptions on |
| DictTable.SearchStops | src/Types/PyDictObject.hh:58-70 | The search ends at the first key that has the text or fails other than by being undecodable, with its value or its exception; behind the last key with `out_of_range` |
| DictTable.SearchIsMapLookup | src/Types/PyDictObject.hh:58-70 | If keys are decodable with distinct texts or undecodable, this is lookup in the represented map, with `out_of_range` exactly for a missing key |

## Left out

- I/O: mapping files, `/proc`, signals, threads as such, the shell, JSON and argument parsing. A directory is the list of
  its files with their mapping addresses; a process read is all or nothing; `StringReader` is a bounds-checked cursor.
- The memory model of the scan's atomic counter (its operations are sequentially consistent) and the locks around the
  callbacks' shared maps (a locked section is one step).
- Scan.ScanEndsIffStride: assumes that the structure fits in the first region, as the byte does in `find`, the one command
  whose stride is a choice; otherwise the worker that claims the first block ends the process, if it is ever scheduled.
- The scan's progress display, and scans with object size 0 or a stride that is not a power of two up to 0x1000.
- Overlapping and empty regions, except where the parser and the writer handle them; `exists_range` with sizes of 2^64 or more.
- `stoull` on leading white space, a sign or a `0x` prefix, which no dumped file name has.
- The field-by-field validators of the decoded structures: an accepted type, an object whose check fails and one whose check
  throws are inputs (`TypeCount.Classifier`, `Registry.Found`, `Heap.Obj`), so `obj_valid_or_null` is not modelled.
- Collecting the await graph and the frame map from memory; the graph is an input. Warning lines and progress lines are not
  output lines, and the repr printed for a first-seen object is one line that does not throw.
- Exact output text, white space and the sorting of entries: a repr is a tree of objects and markers. The `is_valid` flag,
  `bytes_as_hex` and the decision to show an address only affect text. The `finalizer` of an async generator is evaluated
  but not shown by the source; in the model it is a visit like any other.
- `direct_referents` and find-references, the remaining commands, thin wrappers over the scan.
- DictTable.ReprItems: the placeholder for an unreadable entry is never printed from `Traversal::repr`, because the check of
  the dict at src/Types/PyDictObject.cc:56 reads all items first and its `out_of_range` prints `<!invalid_addr>`.
- Fetching a dict's table, values and entries from memory: the three byte ranges are inputs of the decode loops. The product
  of a slot and the entry size does not wrap, which could only happen with eight-byte slots.
- `escape_string_data`, integer and float reprs, and the choice of the string width in `decode_string_types`; key texts are
  an input of dict lookup (`DictTable.KeyText`).
- The cast of the signed line number to `size_t`, and line numbers beyond 63 bits.
- Scan.StepUsesWork: bounds work per step, not time; it does not model a scheduler that starves a worker.
- Stacks.Traceback: is defined for chains that end, because on a cyclic chain the source loops for ever; `EndsIffNoCycle`
  says which chains these are.
- Traversal.Traversal.Repr: requires that no unguarded cycle exists, which is the exact condition for every call to end;
  a single call may end on a heap with such a cycle, if it does not get there or a name throws before it does.
- TraversalCycles.MarkIffCycle: requires that there is no depth limit, which hides markers, and that no check throws on the
  way. It leaves out a type as root, which prints its `tp_dict` under the limit 2, and a coroutine as root of short output.
- TraversalDepth.IndentsAreLimited: at depth 0 under the limit 1 the exact exception is stated for a type as root, not for a
  coroutine of short output that leads to a type without a guard.
- TypeRoot.TypeLimitIff: takes `tp_base` as null, a type or unreadable, and `tp_dict` as null, a dict or unreadable, which is
  what these fields hold; `TypeLimit` is about any objects there.
- Loader.DumpedStreamIsReadBack: takes the ranges of a process as disjoint, and a read that succeeds as one that returns
  something and no more than was asked for; which lines of `/proc/PID/maps` become ranges is not modelled.
- TraversalDepth.NestingIsBounded: in short output with names that are not strings the bound is that of `CallIsEval`.
- Regions.HostToMappedToHost: requires that the host offset plus the object size does not wrap 64 bits, which holds for every
  object in an address space.
