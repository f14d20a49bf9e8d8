# Wirth, verified

A Dafny model of the hard parts of the Wirth kernel and its build tools, and proofs of what they promise.
`dafny verify dfyconfig.toml` checks the whole project.

| part | files | what is proved |
|---|---|---|
| Macro assembler, linker and virtual machine | `Assembler`, `Linker`, `Vm`, `Layout`, `LinkedModules`, `SeparateAssembly`, `SourceMachine`, `Simulation`, `StaticData`, `PositionIndependence` | the bytes run as the source does; separate assembly equals whole assembly; relocatable programs run the same anywhere |
| Object file text | `Json`, `JsonRoundTrip`, `JsonGrammar`, `JsonParser` | printing and parsing are inverse; the parser accepts exactly a grammar |
| Kernel heap | `Heap`, `HeapSafety`, `HeapPolicy`, `HeapExamples`, `HeapAllocator` | live blocks never overlap, and exactly when a request can break that; which block serves a request, and when none does |
| NVMe queue pair | `Nvme`, `NvmeQueue` | every interleaving delivers each command its own completion |
| Scheduler | `Scheduler`, `SchedulerAccounting`, `SchedulerRuns`, `SchedulerFairness`, `SchedulerSleep`, `SchedulerKernel` | exact accounts over every run; bounded waiting; sleepers sleep |
| RAM file system | `Paths`, `FileTree`, `FileOperations`, `InodeTable`, `RamFs` | the flat inode table is always a well-formed tree; exactly what every call answers and changes |
| Snapshots and the persistent store | `Snapshot`, `SnapshotCodec`, `Replay`, `SnapshotIo`, `Storage`, `StorageDriver`, `Persistence`, `Packages`, `Catalog` | a saved file system restores exactly, through the disk, across failed writes and restarts, the latest snapshot winning |
| Paging and frames | `Paging`, `PageTables`, `Frames`, `FrameAllocator`, `HeapGrowth` | page tables refine a map; frames are conserved |
| FAT boot image | `FatLayout`, `FatChain`, `FatImage` | the layout is always valid; every file reads back |
| Command suggestions | `EditDistance` | the two-row loop computes the least number of edits, a metric |

Each component has a specification as functions on values, lemmas about every input or every run of it, and,
where the program changes state in place, a class or method with the same loops and branches proved to compute
the specification. `Bytes` holds the shared byte operations.

## Properties that hold only under a condition

Each of these has a lemma giving the exact condition, and one, named last, for inputs on which it fails.

- An allocation breaks the heap when the end of the payload, or the aligned address itself, wraps around 2^32
  where it lands (`HeapSafety.AllocateKeepsInv`, over runs `HeapSafety.HeapSafe`; for example
  `HeapExamples.HugeRequestBreaks`, `HeapExamples.AlignmentMovesBreak`).
- Freeing a block whose payload is not right behind its header does nothing; that happens only for alignments
  above the 16-byte header (`HeapSafety.FreeReleases`; `HeapExamples.OverAlignedStays`).
- Allocating from any block but the head of the free list drops the blocks before it
  (`HeapSafety.NothingLostIffHeadFits`; `HeapExamples.FirstBlockLost`).
- The repository's README promises that absolute linking relocates for the load address. The linker moves the
  entry point and the symbols but leaves the patched words as linked for address 0, so the code is right
  exactly when the address is a multiple of 2^16 or nothing is relocated
  (`PositionIndependence.AbsoluteVersusRelocated`; `PositionIndependence.AbsoluteExample`).
- The NVMe driver keeps seven bits of a status, so a failure with status 0x80 reads as a success
  (`Nvme.CompletionSafety`; `Nvme.FailureReadsAsSuccess`).
- Sleeping after exit revives the task (`SchedulerAccounting.SleepKeepsInv`; `SchedulerAccounting.SleepAfterExit`).
- A task that sleeps for n ticks at tick t sleeps that long unless t + n passes 2^32, n is above 1 and t is not the
  last tick; then it wakes at the next tick (`SchedulerSleep.SleepsUntilDue`;
  `SchedulerSleep.WrappedSleepEndsEarly`).
- The scheduler's accounts go wrong when a creation takes an identifier that is 0 or in use, or when a process's
  first task gets an identifier of 2^31 or more, which reads as a failure: the process is removed and the task
  stays (`SchedulerAccounting.CreateProcessTaskKeepsInv`, over runs `SchedulerAccounting.AccountsExact`;
  `SchedulerRuns.NegativeTaskOrphaned`, `SchedulerRuns.ProcessZeroLeaks`). Stacks are never freed, so a heap
  that runs out stops task creation first; whether a stack can be had is left to the environment here.
- A start that cannot read the superblock begins again at the first data sector while still reporting ready, and
  marks the superblock it writes later as invalid (`Storage.InitKeepsInv`, over runs `Storage.ExtentsSurvive`).
  The disk itself stays sound, and the next restart that can read it recovers everything, as long as nothing is
  written in between (`Storage.DiskSurvives`); a write that reports success in between breaks it
  (`Storage.BlindStoreLoses`; `Storage.UnreadableStartLoses`, `Storage.LostExtentExample`).
- A save that cannot read the index replaces it, so every earlier snapshot vanishes from the restore
  (`Catalog.SaveAddsPackage`, `StorageDriver.IndexGrows`; `Catalog.ForgottenSnapshot`).
- A snapshot saved under an empty name hides itself and every later one from the restore
  (`SnapshotCodec.IndexReadsBack`; `Catalog.NamelessHides`).
- A directory whose path has 63 characters cannot be removed (`FileTree.MdThenRd`; `FileTree.LongNameStays`).
- A page's rights are limited by those of the first page mapped through its directory entry
  (`Paging.RightsGranted`; `Paging.SecondPageUnreachable`).
- Frames are conserved exactly when what is freed came from the pool (`FrameAllocator.StepKeepsInv`,
  over runs `FrameAllocator.LiveFramesSafe`; `FrameAllocator.ForeignStays`).
- A memory range that reaches into the last page rounds to nothing, so a kernel ending there is not reserved
  and a region ending there is not freed (`Frames.RangeCovers`, `Frames.KernelReserved`, `Frames.FreeExactly`;
  `Frames.KernelMissed`, `Frames.LastPageRegionLost`).
- Without kernel files the image builder's capacity check refuses images that fit with no cluster to spare
  (`FatImage.CheckExact`; `FatImage.TooStrictExample`).
- The image builder's check and its write loop are right for files of at most 2^32 - 4096 bytes: a larger one is
  counted short, and the loop that writes it does not end (`FatImage.CheckExact`, `FatImage.WriteLoopEnds`;
  `FatImage.HugeFilePasses`).

## Model

| member | source | states |
|---|---|---|
| `Assembler.EmitOperand` | tools/macroBuilder/main.cpp:1012-1033 | writes the operand's word at its place and nothing else, appends a relocation exactly for a symbol, and fails exactly for a symbol that is neither local nor extern |
| `Assembler.EncodeOperands` | tools/macroBuilder/main.cpp:1044-1120 | the operand bytes of every instruction form, with the relocations they need |
| `Assembler.EncodeInstruction` | tools/macroBuilder/main.cpp:1035-1123 | opcode and operands land at `pc`; every other byte of the buffer is unchanged |
| `Assembler.EncodeStatement` | tools/macroBuilder/main.cpp:878-913 | directives and instructions: the bytes, the relocations and the new `pc`, or the error |
| `Assembler.CollectLabels` | tools/macroBuilder/main.cpp:791-851 | pass 1: label table, exported and extern names and total size, or the duplicate label |
| `Assembler.EncodeProgram` | tools/macroBuilder/main.cpp:853-914 | pass 2 emits at each line exactly where pass 1 put it; succeeds exactly when every name resolves |
| `Assembler.AssembleLines` | tools/macroBuilder/main.cpp:785-978 | assembly succeeds exactly on well-formed programs and then yields the object file the program denotes |
| `Assembler.PrefixBounds` | tools/macroBuilder/main.cpp:791-851 | the sizes of prefixes never exceed the program's, so every pass-2 write is in bounds |
| `StaticData.AcceptedExactly` | tools/macroBuilder/main.cpp:785-978 | a program is accepted exactly when no label stands twice, every operand name is a label or declared extern, and every entry and every global names a label |
| `StaticData.AssembledData` | tools/macroBuilder/main.cpp:878-909 | in the assembled code, at the offset of each data directive: a byte or word congruent to its number, the address of a local symbol or 0, zeros for reserved space |
| `StaticData.AssembledAddress` | tools/macroBuilder/main.cpp:886-898 | a word directive naming a label holds the offset of that label's line modulo 2^16 |
| `StaticData.LoadedData` | tools/macroBuilder/main.cpp:1298-1315 | the same in the loaded memory, with every symbol moved to the base |
| `StaticData.LoadedElsewhere` | tools/macroBuilder/main.cpp:1311-1315 | outside the image the loaded memory is zero |
| `StaticData.LoadReadsWord` | tools/macroBuilder/main.cpp:1338-1344 | loading a labelled word that has not been overwritten gives the number written in the source, modulo 2^16 |
| `StaticData.PrinterPrints` | tools/macroBuilder/main.cpp:785-1417 | for every number and every base: a program that loads, prints and halts, assembled, linked, loaded and run, prints its number modulo 2^16 and exits with 0 |
| `Linker.ExportGlobals` | tools/macroBuilder/main.cpp:1170-1182 | a module's globals are added at their shifted addresses; a name exported twice is an error |
| `Linker.CollectGlobals` | tools/macroBuilder/main.cpp:1163-1182 | the table of all exported symbols, or a duplicate or undefined global |
| `Linker.CopyModules` | tools/macroBuilder/main.cpp:1184-1187 | the linked buffer is the modules' code laid end to end |
| `Linker.PatchModule` | tools/macroBuilder/main.cpp:1190-1204 | every relocation of a module is resolved, its own labels first, and written in place; unresolved and wrongly sized ones are errors |
| `Linker.PatchAll` | tools/macroBuilder/main.cpp:1188-1205 | all modules patched at their bases, with the pending relocations in order |
| `Linker.LinkModules` | tools/macroBuilder/main.cpp:1154-1245 | linking succeeds exactly on linkable modules and then gives the promised image |
| `LinkedModules.LinkableExactly` | tools/macroBuilder/main.cpp:1163-1220 | for any object files: linking succeeds exactly when every export is defined and exported once, every reference is two bytes wide and to an own or exported name, and the entry symbol, if given, is exported |
| `LinkedModules.LinkedWord` | tools/macroBuilder/main.cpp:1188-1205 | a reference is linked to its module's own symbol if there is one, otherwise to the exporting module's, at that module's base, plus the addend, modulo 2^16 |
| `LinkedModules.LinkedByte` | tools/macroBuilder/main.cpp:1184-1205 | every byte no reference covers is the module's own, at the module's base |
| `LinkedModules.LinkedSymbols` | tools/macroBuilder/main.cpp:1206-1245 | the image's symbols are exactly the exported ones at their addresses, and its entry the given symbol or the first module's; an absolute image moves both by the load address |
| `Vm.LoadImage` | tools/macroBuilder/main.cpp:1298-1315 | the image is relocated for its base and copied to its address, or rejected because it does not fit |
| `Vm.StepInPlace` | tools/macroBuilder/main.cpp:1324-1413 | one instruction on the memory and register arrays is one step of the machine, faults included |
| `Vm.RunImage` | tools/macroBuilder/main.cpp:1291-1417 | a whole run, its output and its exit are those of the machine from the loaded state |
| `Vm.UnknownOpcodes` | tools/macroBuilder/main.cpp:1411-1413 | the machine stops on an unknown opcode exactly when it is none of the fifteen |
| `Layout.RelocWindows` | tools/macroBuilder/main.cpp:1012-1033 | the words an assembled program asks to relocate are in bounds, in order and never overlap |
| `Layout.RelocShape` | tools/macroBuilder/main.cpp:1012-1033 | every relocation of an assembled program is two bytes wide and names a symbol of its table |
| `Layout.PatchProgram` | tools/macroBuilder/main.cpp:1190-1204 | patching code assembled against one table gives the code assembled against another |
| `Layout.RelocateProgram` | tools/macroBuilder/main.cpp:1298-1310 | loading at a base turns assembled code into the code assembled with all its symbols shifted |
| `Layout.RelocatedWindows` | tools/macroBuilder/main.cpp:1298-1310 | relocating adds the base to each listed word and changes no other byte |
| `Layout.RelocationOrder` | tools/macroBuilder/main.cpp:1298-1310 | the order of the relocation list does not matter |
| `Layout.MovedNothing` | tools/macroBuilder/main.cpp:1298-1310 | moving an image changes nothing exactly when the distance is a multiple of 2^16 or there is nothing to relocate |
| `SeparateAssembly.ExportedTable` | tools/macroBuilder/main.cpp:1163-1182 | the linker's global table is the concatenated program's label table cut to its exported names |
| `SeparateAssembly.ModuleAgrees` | tools/macroBuilder/main.cpp:1190-1204 | what a module's name means to the linker is what it means in the concatenated program |
| `SeparateAssembly.CompatibleLinks` | tools/macroBuilder/main.cpp:1154-1245 | modules with disjoint labels whose externs are exported elsewhere always link |
| `SeparateAssembly.PatchedPrefix` | tools/macroBuilder/main.cpp:1184-1205 | the first n modules, linked, are the bytes of their concatenation |
| `SeparateAssembly.FlattenAccepted` | tools/macroBuilder/main.cpp:785-978 | the concatenation of compatible modules is accepted by the assembler |
| `SeparateAssembly.LinkedIsAssembled` | tools/macroBuilder/main.cpp:1154-1245 | code, relocations and exported symbols of the linked modules are those of the concatenated source |
| `SeparateAssembly.LinkedDefaultEntry` | tools/macroBuilder/main.cpp:1206-1220 | the default entry point is the concatenation's when only the first module has an entry directive |
| `SeparateAssembly.SeparateAssemblyCorrect` | tools/macroBuilder/main.cpp:1154-1245 | linking separately assembled modules, in either mode, gives the image that assembling the concatenated source in one go gives |
| `SourceMachine.SafeRun` | tools/macroBuilder/main.cpp:1324-1414 | a statically safe program never leaves its code or writes over it, however long it runs |
| `SourceMachine.SafeNeverWrong` | tools/macroBuilder/main.cpp:1291-1417 | statically safe programs have no wrong behaviour from any entry that is an instruction |
| `Simulation.LabelPc` | tools/macroBuilder/main.cpp:791-851 | a label's address is where the instruction at its line starts |
| `Simulation.JumpPc` | tools/macroBuilder/main.cpp:1387-1403 | a jump in the bytes reaches the instruction the source jump names |
| `Simulation.FetchOne` | tools/macroBuilder/main.cpp:1324-1345 | decoding the bytes of an encoded instruction gives back the instruction |
| `Simulation.StoreKeepsCode` | tools/macroBuilder/main.cpp:1345-1351 | a store to labelled data leaves every instruction intact |
| `Simulation.StepSimulates` | tools/macroBuilder/main.cpp:1324-1413 | one machine step on the bytes matches one source step |
| `Simulation.RunSimulates` | tools/macroBuilder/main.cpp:1317-1414 | n machine steps match n source steps, registers and memory included |
| `Simulation.LoadedIntact` | tools/macroBuilder/main.cpp:1298-1315 | a loaded image holds every instruction at its address |
| `Simulation.ImageLoads` | tools/macroBuilder/main.cpp:1291-1317 | the relocatable image of compatible modules, with any exported entry symbol or none, loads as the concatenated source's code and starts at the line the entry names |
| `Simulation.LinkedEntryPc` | tools/macroBuilder/main.cpp:1206-1220 | the linked entry point is the address of the line named by the entry symbol, or by the first module's last entry directive, whatever directives later modules have |
| `Simulation.SemanticPreservation` | tools/macroBuilder/main.cpp:785-1417 | assembling any compatible modules, linking them relocatably with any exported entry symbol or none, loading and running behaves as the concatenated source does, at every base and for every number of steps |
| `Simulation.SafeProgramsNeverFault` | tools/macroBuilder/main.cpp:1291-1417 | statically safe programs whose entry is an instruction never take a machine fault other than division by zero, for every entry symbol |
| `PositionIndependence.RunLockstep` | tools/macroBuilder/main.cpp:1317-1414 | two runs of a position independent program at different bases stay in lockstep |
| `PositionIndependence.ImageWindows` | tools/macroBuilder/main.cpp:1206-1245 | the relocation windows of a linked image are in bounds and disjoint |
| `PositionIndependence.LoadAtBase` | tools/macroBuilder/main.cpp:1298-1315 | the loaded memory at a base is the relocated code at that base |
| `PositionIndependence.RunsAnywhere` | tools/macroBuilder/main.cpp:1291-1417 | a position independent program, linked with any exported entry symbol or none, has the same registers, output and exit wherever it is loaded |
| `PositionIndependence.AbsoluteVersusRelocated` | README.md:95 | for any entry symbol or none, an absolute image equals the relocated one exactly when the load address is a multiple of 2^16 or nothing is relocated; a base asked for at load time does not move it |
| `PositionIndependence.AbsoluteExample` | tools/macroBuilder/main.cpp:1206-1245 | a one-instruction loop linked in absolute mode for any address below 2^16 but 0, such as 0x100, is not the loop at that address |
| `JsonRoundTrip.EscapedString` | tools/macroBuilder/main.cpp:235-260 | reading back an escaped string gives the string, for every byte value |
| `JsonRoundTrip.IntRoundTrip` | tools/macroBuilder/main.cpp:437-471 | reading back a printed 64-bit integer gives the integer |
| `JsonRoundTrip.DumpParses` | tools/macroBuilder/main.cpp:316-564 | at any depth and indentation, parsing a printed value followed by anything gives the value and leaves the rest |
| `JsonRoundTrip.JsonRoundTrips` | tools/macroBuilder/main.cpp:316-564 | parsing a printed document gives back the document |
| `JsonRoundTrip.DumpInjective` | tools/macroBuilder/main.cpp:530-564 | different values print differently, whatever the indentation and depth of either |
| `JsonRoundTrip.InsertKeepsOrder` | tools/macroBuilder/main.cpp:496-522 | adding a field keeps an object's keys sorted and unique |
| `JsonRoundTrip.InsertGets` | tools/macroBuilder/main.cpp:496-522 | a key already there keeps its first value, a new key gets the given value, every other key is as it was |
| `JsonRoundTrip.ParsedIsWellFormed` | tools/macroBuilder/main.cpp:316-523 | whatever text is parsed, the value has sorted unique keys and 64-bit integers |
| `JsonRoundTrip.ReprintStable` | tools/macroBuilder/main.cpp:316-564 | parsing any text, printing and parsing again gives the same value |
| `JsonGrammar.ParsesExactly` | tools/macroBuilder/main.cpp:316-523 | the parser accepts exactly the texts of the grammar given by concrete syntax trees, with white space around them, and reads each as what it means: both directions, for every text and value |
| `JsonGrammar.Accepts` | tools/macroBuilder/main.cpp:364-522 | every text of the grammar parses to its meaning, whatever follows it |
| `JsonGrammar.Parsed` | tools/macroBuilder/main.cpp:364-522 | whatever parses is white space and a text of the grammar |
| `JsonGrammar.PartsWere` | tools/macroBuilder/main.cpp:391-435 | a string literal that parses is made of plain characters, the eight short escapes and four-digit escapes up to 0x7F |
| `JsonParser.JsonEscape` | tools/macroBuilder/main.cpp:235-260 | the escaping loop computes the escaped text |
| `JsonParser.Parser.ReadString` | tools/macroBuilder/main.cpp:391-435 | the string reader consumes and returns what the grammar says, errors included |
| `JsonParser.Parser.ReadNumber` | tools/macroBuilder/main.cpp:437-471 | the number reader, including 64-bit overflow |
| `JsonParser.Parser.ReadValue` | tools/macroBuilder/main.cpp:364-389 | the value reader |
| `JsonParser.Parser.ReadArray` | tools/macroBuilder/main.cpp:473-494 | the array reader |
| `JsonParser.Parser.ReadObject` | tools/macroBuilder/main.cpp:496-522 | the object reader |
| `JsonParser.Parser.Parse` | tools/macroBuilder/main.cpp:320-328 | the whole document, with trailing text an error |
| `HeapSafety.InsertOrdered` | kernel/mm/heap.cpp:66-111 | inserting a freed block keeps the list sorted, apart and coalesced, and adds exactly its bytes |
| `HeapSafety.InsertClear` | kernel/mm/heap.cpp:66-111 | an insertion does not bring foreign memory into the list |
| `HeapSafety.InsertCovers` | kernel/mm/heap.cpp:66-111 | after an insertion the list covers exactly the old addresses and the block's |
| `HeapSafety.PlacedIn` | kernel/mm/heap.cpp:113-170 | a placement inside a free block is aligned and leaves room for its header; it fits the block exactly when the end of the payload does not wrap, for every alignment that does not wrap itself |
| `HeapSafety.AllocateKeepsInv` | kernel/mm/heap.cpp:255-271 | for every 32-bit size and power-of-two alignment, an allocation keeps the heap sound exactly when neither the end of the payload nor the aligned address wraps around 2^32 where it lands |
| `HeapSafety.WrapBreaksInv` | kernel/mm/heap.cpp:113-195 | a wrapped payload end makes a block that does not hold its payload |
| `HeapSafety.WrapTakesNull` | kernel/mm/heap.cpp:113-195 | an aligned address that wraps takes a block at address 0 and breaks the heap, whatever the bump allocation after it does |
| `HeapSafety.AllocateReturns` | kernel/mm/heap.cpp:255-271 | the pointer is null with nothing taken, or the payload of the one new live block, aligned, of the size asked for, inside the heap, and right behind its header exactly when the alignment is at most the header size or there is no room for a second aligned address |
| `HeapPolicy.AcceptsIffFits` | kernel/mm/heap.cpp:113-170 | a free block accepts a request exactly when the payload's place, computed without wrap-around, and its size fit before the block's end |
| `HeapPolicy.FirstFitServes` | kernel/mm/heap.cpp:113-195 | the first block that accepts a request serves it: pointer inside it, what is left of it and the blocks behind stay free, exactly the blocks before are lost, the break does not move |
| `HeapPolicy.HeadServes` | kernel/mm/heap.cpp:113-195 | when the head of the list has room nothing is lost |
| `HeapPolicy.BreakServes` | kernel/mm/heap.cpp:197-235 | when no block accepts, the break serves the request exactly when its end is within the limit and the granted pages cover it, and leaves the list alone |
| `HeapPolicy.NullExactly` | kernel/mm/heap.cpp:255-271 | null is returned exactly for an empty request, or when no block accepts and the break cannot serve |
| `HeapSafety.FreeKeepsInv` | kernel/mm/heap.cpp:273-292 | freeing any pointer keeps the heap sound |
| `HeapSafety.FreeReleases` | kernel/mm/heap.cpp:273-292 | freeing a live pointer returns its block exactly when the payload sits right behind the header, which every alignment up to the header size ensures; otherwise nothing happens |
| `HeapPolicy.FreeReturnsBlock` | kernel/mm/heap.cpp:273-292 | freeing makes exactly the addresses of the block free; nothing is lost and no other live block changes |
| `HeapPolicy.ForeignFree` | kernel/mm/heap.cpp:273-292 | a pointer behind no live header changes nothing |
| `HeapSafety.NothingLostIffHeadFits` | kernel/mm/heap.cpp:113-195 | an allocation from the free list loses no byte exactly when the head of the list is the block it takes |
| `HeapSafety.HeapSafe` | kernel/mm/heap.cpp:197-292 | over every run of allocations and frees the heap is sound at every step if and only if no allocation wraps in the state it meets |
| `HeapSafety.SmallRequestsSafe` | kernel/mm/heap.cpp:113-235 | a request whose size and alignment leave every sum below 2^32 never breaks a sound heap |
| `HeapExamples.OverAlignedStays` | kernel/mm/heap.cpp:255-292 | from a new heap: a block aligned to 32 cannot be freed |
| `HeapExamples.HugeRequestBreaks` | kernel/mm/heap.cpp:113-195 | from a new heap, after one allocation and its release: a request of 2^32 - 16 bytes is served from an 80-byte block |
| `HeapExamples.FirstBlockLost` | kernel/mm/heap.cpp:113-195 | with two free blocks: serving a request from the second loses the first |
| `HeapExamples.TwoFreeReached` | kernel/mm/heap.cpp:197-292 | two allocations and two frees from a new heap leave those two free blocks |
| `HeapExamples.AlignmentMovesBreak` | kernel/mm/heap.cpp:197-235 | on a new heap in the top gigabyte: an alignment of 2^31 returns null and moves the break to address 64 |
| `HeapSafety.PayloadsDisjoint` | kernel/mm/heap.cpp:197-292 | two live payloads never share a byte |
| `HeapSafety.InitInv` | kernel/mm/heap.cpp:241-253 | a new heap is sound |
| `HeapPolicy.NewHeapSpans` | kernel/mm/heap.cpp:241-253 | a new heap spans the pages between its rounded bounds, with nothing mapped, free or live |
| `HeapAllocator.KernelHeap.constructor` | kernel/mm/heap.cpp:241-253 | the heap's variables after start-up |
| `HeapAllocator.KernelHeap.InsertFreeBlock` | kernel/mm/heap.cpp:66-111 | the linked-list insertion, with merging on both sides, computes the sorted insertion |
| `HeapAllocator.KernelHeap.AllocateFromFreeList` | kernel/mm/heap.cpp:113-195 | first fit over the list: the same block, split and counters as the specification |
| `HeapAllocator.KernelHeap.MapUpTo` | kernel/mm/heap.cpp:33-52 | pages are mapped one at a time until the end is covered or memory runs out |
| `HeapAllocator.KernelHeap.AllocateFromBump` | kernel/mm/heap.cpp:197-235 | bump allocation, with the mapped end kept even when it fails |
| `HeapAllocator.KernelHeap.Allocate` | kernel/mm/heap.cpp:255-271 | zero sizes, zero alignments, the free list first and the break after, with no precondition; sound after exactly when nothing wraps |
| `HeapAllocator.KernelHeap.Free` | kernel/mm/heap.cpp:273-292 | null, foreign and already freed pointers change nothing; live ones go back to the list |
| `HeapAllocator.KernelHeap.UsedBytes` | kernel/mm/heap.cpp:298-300 | the counter is the number of live bytes |
| `Nvme.EntryFields` | kernel/nvme.cpp:259-285 | a completion's identifier, phase and 7-bit status code are the ones posted |
| `Nvme.AcceptsOnlyOwnCompletion` | kernel/nvme.cpp:259-285 | the driver accepts an entry exactly when its own command's completion has been posted, and reads that one |
| `Nvme.CompletionSafety` | kernel/nvme.cpp:204-302 | in every interleaving of driver and controller, the k-th result delivered is the low seven bits of the status posted for the k-th command, and reads as success exactly when they are zero |
| `Nvme.FailureReadsAsSuccess` | kernel/nvme.cpp:259-285 | a command the controller failed with status 0x80 is reported as a success |
| `Nvme.PollDelivers` | kernel/nvme.cpp:259-285 | a posted completion is picked up by the very next poll |
| `Nvme.PhaseAloneIsNotEnough` | kernel/nvme.cpp:259-285 | on every second lap an unposted entry already shows the expected phase; only the non-zero identifier rejects it |
| `Nvme.RunOnLap` | kernel/nvme.cpp:259-300 | head and phase follow the count of completions over any number of laps |
| `Nvme.FreshCid` | kernel/nvme.cpp:287-300 | command identifiers are never zero, also when the counter wraps |
| `Nvme.IdentifiersCycle` | kernel/nvme.cpp:287-300 | in every run the k-th command has identifier k modulo 65535 plus one, so commands fewer than 65535 apart never share one |
| `Nvme.FetchedAsSubmitted` | kernel/nvme.cpp:287-300 | what the controller fetches is the command the driver was given |
| `NvmeQueue.Queue.constructor` | kernel/nvme.cpp:204-215 | an empty queue pair |
| `NvmeQueue.Queue.Enqueue` | kernel/nvme.cpp:287-300 | the submission entry, tail and identifier of a command |
| `NvmeQueue.Queue.PollOnce` | kernel/nvme.cpp:259-285 | one turn of the wait loop: the entry is consumed, zeroed and the head moved exactly when it is accepted |
| `NvmeQueue.BuildPrps` | kernel/nvme.cpp:217-257 | the physical page list describes every byte of the buffer, and fails exactly for null or too long buffers |
| `NvmeQueue.ListedByte` | kernel/nvme.cpp:217-257 | byte k of the transfer is at the physical address of byte k of the buffer |
| `NvmeQueue.ShortTransfer` | kernel/nvme.cpp:217-257 | a transfer within one page needs no list |
| `SchedulerAccounting.CreateProcessKeepsInv` | kernel/task/scheduler.cpp:117-168 | creating a process keeps the accounts exactly when the identifier it takes is not 0 and not in use; it takes one exactly when a slot is left and an address space can be made or is not needed, and otherwise changes no process |
| `SchedulerAccounting.CreateTaskKeepsInv` | kernel/task/scheduler.cpp:200-241 | creating a task keeps the accounts exactly when the identifier it takes is not 0 and not that of a live task |
| `SchedulerAccounting.TaskCreated` | kernel/task/scheduler.cpp:200-241 | a task takes a dead slot exactly when entry and stack are good, the process exists and a slot is free, and otherwise no live task and no process changes; the signed result is not negative exactly when the task is made and its identifier is below 2^31 |
| `SchedulerAccounting.CreateProcessTaskKeepsInv` | kernel/task/scheduler.cpp:378-400 | creating a process with its task keeps the accounts if and only if it takes no identifier that is 0 or in use, none that reads as negative, and removes no other process; it then has the current task's process as parent and one runnable kernel task; without a task everything is rolled back |
| `SchedulerAccounting.CreateRing3TaskKeepsInv` | kernel/task/scheduler.cpp:402-464 | the same for a user task, whose identifier's sign is not looked at |
| `SchedulerAccounting.RollBack` | kernel/task/scheduler.cpp:384-397 | rolling back restores the tables, or, when the identifier was in use, removes the old process in place of the new one |
| `SchedulerAccounting.ExitKeepsInv` | kernel/task/scheduler.cpp:279-298 | exiting keeps the accounts and frees no process slot, not even with the last task: only the thread count of the task's own process goes down |
| `SchedulerAccounting.SleepKeepsInv` | kernel/task/scheduler.cpp:604-617 | sleeping keeps the accounts exactly when the time is zero or the current task has not exited |
| `SchedulerAccounting.SleepAfterExit` | kernel/task/scheduler.cpp:604-617 | right after start-up: the kernel task exits, sleeps, and is back on the table uncounted |
| `SchedulerAccounting.TickKeepsInv` | kernel/task/scheduler.cpp:466-491 | a timer tick keeps the accounts |
| `SchedulerAccounting.AccountsExact` | kernel/task/scheduler.cpp:117-491 | over every run, thread, process and per-process counts equal the live tasks and used slots, and identifiers are distinct and not 0, after every step, if and only if no creation takes an identifier it must not in the state it meets |
| `SchedulerRuns.EarlyRunsExact` | kernel/task/scheduler.cpp:117-491 | until the identifiers run out no step breaks the accounts: fewer than 2^31 creations, however many other events |
| `SchedulerRuns.StartsOrdered` | kernel/task/scheduler.cpp:337-372 | start-up meets the condition for such runs |
| `SchedulerRuns.NegativeTaskOrphaned` | kernel/task/scheduler.cpp:378-400 | from start-up, once 2^31 - 2 tasks have come and gone: a process whose task was made is removed, and the task stays runnable and counted without a process |
| `SchedulerRuns.ProcessZeroLeaks` | kernel/task/scheduler.cpp:117-168 | from start-up, once process identifiers have wrapped: the process that gets 0 is reported as a failure and stays in its slot, counted |
| `SchedulerRuns.LapsReach` | kernel/task/scheduler.cpp:117-491 | the run that reaches any given task identifier |
| `SchedulerAccounting.InitInv` | kernel/task/scheduler.cpp:337-372 | the accounts hold at start-up |
| `SchedulerFairness.PickProgress` | kernel/task/scheduler.cpp:254-264 | round robin dispatches the task or moves strictly closer to it |
| `SchedulerFairness.StaysRunnable` | kernel/task/scheduler.cpp:243-252 | no other task's action takes a runnable task off the queue |
| `SchedulerFairness.BoundedWaiting` | kernel/task/scheduler.cpp:243-264 | a runnable task is dispatched within sixteen quantum boundaries, whatever the others do and whatever the identifiers and counters are |
| `SchedulerFairness.SleeperRunsAgain` | kernel/task/scheduler.cpp:466-491 | under the ticks of a 32-bit counter, wrapping included, a sleeper runs at most 159 ticks after its wake tick |
| `SchedulerSleep.SleepsUntilDue` | kernel/task/scheduler.cpp:604-617 | a task that sleeps for n ticks is sleeping until the n-th tick and runnable after it, whatever the others do, as long as the wake tick does not wrap |
| `SchedulerSleep.NotDispatchedBefore` | kernel/task/scheduler.cpp:254-264 | no tick before the n-th dispatches it while another task can run |
| `SchedulerSleep.WrappedSleepEndsEarly` | kernel/task/scheduler.cpp:604-617 | when the wake tick wraps, it is runnable after the very next tick |
| `SchedulerSleep.WaitLoopExact` | kernel/task/scheduler.cpp:619-628 | the test of the waiting loop holds until the wake tick and not at it |
| `SchedulerSleep.PicksRunnable` | kernel/task/scheduler.cpp:254-264 | picking finds a runnable task if there is one and otherwise stays |
| `SchedulerSleep.ExitMarksCurrent` | kernel/task/scheduler.cpp:279-298 | exiting marks the current task and changes no other |
| `SchedulerSleep.StaysExited` | kernel/task/scheduler.cpp:200-298 | an exited task stays so until its slot is cleared or taken by a new task |
| `SchedulerFairness.BoundariesOfTicks` | kernel/task/scheduler.cpp:474-476 | every ten ticks hold a quantum boundary, also across the wrap of the counter |
| `SchedulerKernel.TaskScheduler.constructor` | kernel/task/scheduler.cpp:337-372 | the kernel process with its one runnable task |
| `SchedulerKernel.TaskScheduler.CreateProcess` | kernel/task/scheduler.cpp:117-168 | process creation in place |
| `SchedulerKernel.TaskScheduler.CreateTaskForProcess` | kernel/task/scheduler.cpp:200-241 | task creation in place, with its signed result |
| `SchedulerKernel.TaskScheduler.CreateProcessWithTask` | kernel/task/scheduler.cpp:378-400 | process and first task in place, rolled back when the result reads as negative |
| `SchedulerKernel.TaskScheduler.CreateRing3` | kernel/task/scheduler.cpp:402-464 | process and first user task in place, rolled back when there is no slot or no stack |
| `SchedulerKernel.TaskScheduler.MarkCurrentExited` | kernel/task/scheduler.cpp:279-298 | exit of the current task |
| `SchedulerKernel.TaskScheduler.Sleep` | kernel/task/scheduler.cpp:604-617 | sleep of the current task |
| `SchedulerKernel.TaskScheduler.IsCurrentSleeping` | kernel/task/scheduler.cpp:619-628 | whether the current task sleeps and its time has not come |
| `SchedulerKernel.TaskScheduler.WakeSleepingTasks` | kernel/task/scheduler.cpp:243-252 | every sleeper whose time has come is made runnable, no other |
| `SchedulerKernel.TaskScheduler.PickNextRunnable` | kernel/task/scheduler.cpp:254-264 | the first runnable slot after the current one, in circular order |
| `SchedulerKernel.TaskScheduler.OnTimerInterrupt` | kernel/task/scheduler.cpp:466-491 | wake, count the tick and switch at quantum boundaries |
| `Paths.NormalizeNormal` | kernel/fs/ramfs.cpp:110-157 | normalized paths have single slashes, no trailing one, and fit a name buffer |
| `Paths.NormalizeIdempotent` | kernel/fs/ramfs.cpp:110-157 | a normal path is its own normalization |
| `Paths.NormalizeExact` | kernel/fs/ramfs.cpp:110-157 | normalization fails exactly for relative paths and those that do not fit while copied, a trailing slash included, and otherwise gives the one normal path with the same components |
| `Paths.ComponentsSplit` | kernel/fs/ramfs.cpp:110-157 | the components of two texts with a slash between are those of both, which with slash-free texts determines them |
| `Paths.SplitNormal` | kernel/fs/ramfs.cpp:196-232 | every normal path but the root is its parent joined with its last name |
| `Paths.JoinNormal` | kernel/fs/ramfs.cpp:700-735 | joining a directory with a name gives a normal path whose parent and name are those |
| `Paths.ChildIffParent` | kernel/fs/ramfs.cpp:700-745 | the textual child test of a listing finds exactly the paths whose parent is the directory |
| `FileTree.OpenKeepsInv` | kernel/fs/ramfs.cpp:525-571 | opening, creating and truncating keep the tree well formed and descriptors on files |
| `FileTree.WriteKeepsInv` | kernel/fs/ramfs.cpp:604-636 | writing keeps the tree well formed |
| `FileTree.MdKeepsInv` | kernel/fs/ramfs.cpp:655-680 | making a directory keeps the tree well formed |
| `FileTree.RdKeepsInv` | kernel/fs/ramfs.cpp:761-810 | removing a directory keeps the tree well formed |
| `FileTree.UnlinkKeepsInv` | kernel/fs/ramfs.cpp:812-839 | removing a file keeps the tree well formed and descriptors on files |
| `FileOperations.OpenExact` | kernel/fs/ramfs.cpp:525-571 | opening answers the lowest free descriptor exactly when the file is there or can be made; what the file then holds; nothing else changes; what happens when no descriptor is left |
| `FileOperations.ReadExact` | kernel/fs/ramfs.cpp:573-602 | which bytes are read, when it fails, and that only the descriptor moves |
| `FileOperations.ReadInParts` | kernel/fs/ramfs.cpp:573-602 | reading in two parts reads what reading at once does |
| `FileOperations.WriteExact` | kernel/fs/ramfs.cpp:604-636 | when writing fails, what it answers, and that only that file and descriptor change |
| `FileOperations.WriteInParts` | kernel/fs/ramfs.cpp:604-636 | writing in two parts writes what writing at once does |
| `FileOperations.CloseExact` | kernel/fs/ramfs.cpp:638-653 | closing answers 0 exactly on an open descriptor and frees that one only |
| `FileOperations.MdExact` | kernel/fs/ramfs.cpp:655-680 | making a directory answers 0 exactly when it is there, or its name is free, its parent a directory and there is room; only it is added |
| `FileOperations.RdExact` | kernel/fs/ramfs.cpp:761-810 | removing a directory answers 0 exactly for an empty one, not the root, with a path below 63 characters; only it goes |
| `FileOperations.UnlinkExact` | kernel/fs/ramfs.cpp:812-839 | unlinking answers 0 exactly for a file no descriptor holds, whatever its contents; it is then gone, opening it fails, and nothing else changes |
| `FileOperations.UnlinkThenCreate` | kernel/fs/ramfs.cpp:525-839 | a file unlinked can be made again, empty |
| `FileTree.TreeSafe` | kernel/fs/ramfs.cpp:525-839 | every reachable state has normalized names, an existing directory as each entry's parent, and no descriptor on a missing entry or a directory |
| `FileTree.MdThenRd` | kernel/fs/ramfs.cpp:655-810 | removing a directory just made puts the state back, unless its name is 63 characters long, when it cannot be removed |
| `FileTree.LongNameStays` | kernel/fs/ramfs.cpp:655-810 | on an empty file system: a directory whose path takes 63 characters is made and cannot be removed |
| `FileTree.CreateThenUnlink` | kernel/fs/ramfs.cpp:525-839 | unlinking a file just created and closed puts the state back |
| `FileTree.OverwrittenAt` | kernel/fs/ramfs.cpp:604-636 | each byte after a write: the buffer's inside the written range, the old ones elsewhere, the hole's past the old end |
| `FileTree.ReadsWhatWasWritten` | kernel/fs/ramfs.cpp:573-636 | what a second descriptor of the same file reads after a write, for any contents, offsets and count: its part of the overwritten file; at the same offset, the data |
| `FileTree.DescendantIffChild` | kernel/fs/ramfs.cpp:775-795 | a directory has an entry under its name prefix exactly when it has a direct child |
| `InodeTable.TreePut` | kernel/fs/ramfs.cpp:174-194 | filling a slot adds one entry to the tree and changes no other |
| `InodeTable.TreeDrop` | kernel/fs/ramfs.cpp:797-805 | freeing a slot removes one entry and changes no other |
| `InodeTable.TreeSize` | kernel/fs/ramfs.cpp:174-194 | the tree has one entry per used slot, so creation fails exactly when it has 64 |
| `InodeTable.ListingExact` | kernel/fs/ramfs.cpp:682-759 | a listing names exactly the direct children of a directory, each once, with its kind |
| `InodeTable.Doubled` | kernel/fs/ramfs.cpp:265-270 | doubling reaches the required capacity and overshoots by less than twice |
| `RamFs.NormalizePath` | kernel/fs/ramfs.cpp:110-157 | the copying loop computes the normalization, and fails exactly when the path is relative or too long |
| `RamFs.FileSystem.constructor` | kernel/fs/ramfs.cpp:88-108 | an empty root |
| `RamFs.FileSystem.FindInode` | kernel/fs/ramfs.cpp:159-172 | the slot of a name, or none |
| `RamFs.FileSystem.CreateInode` | kernel/fs/ramfs.cpp:174-194 | the first free slot is taken; fails exactly when the tree is full |
| `RamFs.FileSystem.ParentDirectoryExists` | kernel/fs/ramfs.cpp:196-232 | whether the path before the last slash is a directory |
| `RamFs.FileSystem.Open` | kernel/fs/ramfs.cpp:525-571 | in-place open, including the creation or truncation that happens when no descriptor is left |
| `RamFs.FileSystem.Read` | kernel/fs/ramfs.cpp:573-602 | bytes from the descriptor's offset, up to the end of the file |
| `RamFs.FileSystem.EnsureCapacity` | kernel/fs/ramfs.cpp:260-284 | growing a buffer keeps the file's bytes |
| `RamFs.FileSystem.Write` | kernel/fs/ramfs.cpp:604-636 | the file after a write, exact whenever the offset is within the file; past it the hole holds what the buffer held |
| `RamFs.FileSystem.Close` | kernel/fs/ramfs.cpp:638-653 | the descriptor is freed |
| `RamFs.FileSystem.Md` | kernel/fs/ramfs.cpp:655-680 | in-place directory creation |
| `RamFs.FileSystem.ReadDir` | kernel/fs/ramfs.cpp:682-759 | the listing, cut to the entries asked for |
| `RamFs.FileSystem.Rd` | kernel/fs/ramfs.cpp:761-810 | in-place directory removal |
| `RamFs.FileSystem.Unlink` | kernel/fs/ramfs.cpp:812-839 | in-place file removal |
| `Snapshot.WalkFaithful` | kernel/storage.cpp:493-553 | every record a walk yields names a file and carries its bytes |
| `Snapshot.WalkExact` | kernel/storage.cpp:445-553 | walking from the root yields a record for every file and for nothing else |
| `SnapshotCodec.U32RoundTrip` | kernel/storage.cpp:326-330 | 32-bit fields read back |
| `SnapshotCodec.ParseEncoded` | kernel/storage.cpp:345-388 | parsing zero-padded records gives exactly those records |
| `SnapshotCodec.ParsedIsEncoded` | kernel/storage.cpp:345-388 | of any payload with clear paths, the records read, encoded again, are its bytes up to the first place where no whole record starts |
| `SnapshotCodec.IndexReadsBack` | kernel/storage.cpp:301-327 | the index reads back the listed entries up to the first one without a name, names cut to 127 |
| `SnapshotCodec.ReadBackAt` | kernel/storage.cpp:301-327 | entry by entry: as many as come before the first without a name, each with its extent and the first 127 characters of its name |
| `SnapshotCodec.AddEntryLists` | kernel/storage.cpp:247-299 | adding an index entry succeeds exactly when it fits the sector, whatever its name's length, and then it is listed last |
| `Replay.ParentsAdded` | kernel/storage.cpp:361-378 | making the parents of a path adds the missing directories and nothing else |
| `Replay.WriteWhole` | kernel/storage.cpp:380-386 | opening, writing and closing replaces one file's contents and leaves the descriptors as they were |
| `Replay.ReplayRestores` | kernel/storage.cpp:345-388 | replaying records of any tree that fits: each file ends with its last record, every other file is as it was |
| `Replay.SnapshotRestores` | kernel/storage.cpp:301-591 | saving a file system and replaying onto an empty one gives back exactly its files |
| `SnapshotIo.MeasureFile` | kernel/storage.cpp:471-486 | measuring a file by reading it finds its size and leaves the file system as it was |
| `SnapshotIo.Compute` | kernel/storage.cpp:446-491 | the size pass totals the records' sizes |
| `SnapshotIo.FillFile` | kernel/storage.cpp:517-549 | one record: header, path, data in chunks, and the length filled in last; fails exactly when it does not fit |
| `SnapshotIo.Fill` | kernel/storage.cpp:493-553 | the fill pass writes the encoding of the records, and fits exactly when the size pass said so |
| `SnapshotIo.Save` | kernel/storage.cpp:555-591 | both passes agree byte for byte: the payload is the encoding of every file's record |
| `SnapshotIo.MakeParentDirs` | kernel/storage.cpp:361-378 | the prefix loop makes each parent in turn |
| `SnapshotIo.RewriteFile` | kernel/storage.cpp:380-386 | one record replayed through the file system's operations |
| `SnapshotIo.Restore` | kernel/storage.cpp:343-389 | all records of a payload replayed in order |
| `SnapshotIo.SavedRestores` | kernel/storage.cpp:301-591 | encoding, zero padding, parsing and replaying a saved file system gives back exactly its files |
| `Persistence.StoredSnapshotRestores` | kernel/storage.cpp:180-591 | the same through the disk, in any state the store can reach |
| `Packages.TouchWithin` | kernel/storage.cpp:391-432 | marking a package changes at most its marker file |
| `Packages.MarkerMade` | kernel/storage.cpp:391-432 | a package with a plain name of up to 32 characters leaves an empty marker file of that name in the package directory |
| `Packages.LaterPackagesWin` | kernel/storage.cpp:301-435 | restoring packages in order: every file but the markers ends with the last record for it in any package, and files no package has are as they were |
| `Packages.RestoreEntry` | kernel/storage.cpp:330-433 | one index entry: its sectors read, its records replayed, its marker made; nothing when they cannot be read |
| `Packages.RestorePackages` | kernel/storage.cpp:301-435 | the index walk restores exactly the packages the index lists, in order |
| `Catalog.IndexedIs` | kernel/storage.cpp:301-327 | the restore finds exactly the entries listed, up to the first one without a name, names cut |
| `Catalog.PackagesKept` | kernel/storage.cpp:334-348 | listed packages read the same after anything that keeps the extents |
| `Catalog.SaveAddsPackage` | kernel/storage.cpp:180-591 | after a save, however reads and writes fail: if it reported failure the restore finds what it found before; if success, the saved package last, record for record, behind all earlier ones exactly when the index could be read or was empty |
| `Catalog.SaveKeeps` | kernel/storage.cpp:180-591 | every way a save can go keeps the extents and the index sound, and says what is then listed |
| `Catalog.IndexKeeps` | kernel/storage.cpp:247-299 | an index update that fails changes nothing, one that succeeds lists the new package, alone when the index could not be read |
| `Catalog.CatalogueExact` | kernel/storage.cpp:56-591 | over every run of saves, failed saves and restarts the store, its superblock in memory included, stays sound if and only if every restart could read the superblock, and the restore then finds exactly the packages saved since the index was last unreadable, in order |
| `Catalog.RestoreYieldsLatest` | kernel/storage.cpp:56-591 | from a blank index through any such run, restoring onto any file system gives every file the bytes of the latest successful snapshot that has it and leaves the others, markers aside |
| `Catalog.ForgottenSnapshot` | kernel/storage.cpp:247-299 | on a blank disk that works but for one read of the index: of two snapshots saved the first is gone |
| `Catalog.NamelessHides` | kernel/storage.cpp:301-327 | on a blank disk that works: a snapshot saved under an empty name hides itself and the next |
| `Catalog.SaveSnapshot` | kernel/storage.cpp:437-591 | payload, extent and index entry in turn: the disk and the result are those of the specified save, and the file system is as it was |
| `Storage.SuperRoundTrip` | kernel/storage.cpp:45-53 | the superblock reads back |
| `Storage.SectorsLeast` | kernel/storage.cpp:183 | a write takes the least number of sectors that hold the data |
| `Storage.DataPlaced` | kernel/storage.cpp:186-204 | a write, complete or cut short, touches only its own sectors; complete, they hold the data |
| `Storage.WriteKeepsInv` | kernel/storage.cpp:180-218 | a write, however it fails, harms no extent; when it reports success the new one is safe too |
| `Storage.InitKeepsInv` | kernel/storage.cpp:56-148 | a restart leaves a sound store exactly when the superblock can be read, whatever extents there are |
| `Storage.UnreadableStartLoses` | kernel/storage.cpp:56-218 | on any disk, after a start that could not read the superblock: the next write reports success at the first data sectors, the restart after it begins again there, and the write after that replaces the data |
| `Storage.LostExtentExample` | kernel/storage.cpp:56-218 | on a blank disk that works but for one read of the superblock: two writes report the same place, and the first one's data is gone |
| `Storage.AddIndexKeepsInv` | kernel/storage.cpp:247-299 | index updates harm no extent |
| `Storage.ExtentsSurvive` | kernel/storage.cpp:56-299 | over every run of writes, index updates and restarts, with reads and sector writes failing at will, the store, its superblock in memory included, is sound and holds all reported extents after every step, if and only if each restart could read the superblock |
| `Storage.DiskSurvives` | kernel/storage.cpp:56-299 | over every run that writes nothing between a restart that cannot read the superblock and the next that can, all reported extents are apart, intact and below the frontier on the disk after every step |
| `Storage.BlindStoreLoses` | kernel/storage.cpp:56-299 | over every run, a write that reports success in such a window leaves a disk that is not sound |
| `Storage.RestartRecovers` | kernel/storage.cpp:56-148 | a restart that can read the superblock makes the store sound again, whatever was in memory |
| `Storage.InitInv` | kernel/storage.cpp:56-148 | any disk becomes a store |
| `Storage.ExtentReadsBack` | kernel/storage.cpp:220-234 | an extent reads back as its data padded with zeros |
| `StorageDriver.Driver.Init` | kernel/storage.cpp:56-148 | superblock loading and formatting in place |
| `StorageDriver.Driver.Write` | kernel/storage.cpp:180-218 | the sector loop and the superblock flush |
| `StorageDriver.Driver.Read` | kernel/storage.cpp:220-234 | the sectors of an extent, joined |
| `StorageDriver.Driver.ReadRaw` | kernel/storage.cpp:236-245 | a run of sectors, refused when the disk does not have them |
| `StorageDriver.Driver.AddIndexEntry` | kernel/storage.cpp:247-299 | walking the index and appending an entry |
| `StorageDriver.IndexGrows` | kernel/storage.cpp:247-299 | an index update succeeds exactly when the write works and the entry fits, then lists the entry last, and otherwise changes nothing; an index that cannot be read counts as empty, so what it listed is gone |
| `Paging.SlotsDistinct` | kernel/mm/vmm.cpp:81-130 | distinct pages have distinct table entries, because no table serves two directory entries |
| `Paging.AddTableMapsNothing` | kernel/mm/vmm.cpp:37-48 | taking and clearing the next table disturbs no page and maps none |
| `Paging.MapLookup` | kernel/mm/vmm.cpp:81-130 | mapping changes one page; it fails, changing nothing, exactly when a table is needed and all 64 are used |
| `Paging.MapRefines` | kernel/mm/vmm.cpp:81-130 | on the page map, mapping is update |
| `Paging.UnmapRefines` | kernel/mm/vmm.cpp:132-153 | on the page map, unmapping is removal, and it succeeds exactly on mapped pages |
| `Paging.DirectoryRights` | kernel/mm/vmm.cpp:81-130 | a directory entry takes the rights of the first page mapped through it and keeps them; no other entry changes |
| `Paging.TranslationFollows` | kernel/mm/vmm.cpp:155-172 | an address in a page just mapped translates to the same offset in its frame, in a page just unmapped to zero, in any other page as before |
| `Paging.TranslatesToZero` | kernel/mm/vmm.cpp:155-172 | translation gives zero exactly for unmapped pages and the first physical address |
| `Paging.RightsGranted` | kernel/mm/vmm.cpp:91-112 | a page gets the rights asked for exactly when its directory entry is new or already has them |
| `Paging.SecondPageUnreachable` | kernel/mm/vmm.cpp:91-112 | from blank tables: a user page mapped behind a kernel page of the same directory entry is out of the user's reach |
| `Paging.CloneAgrees` | kernel/mm/vmm.cpp:202-216 | after any later changes a cloned directory agrees with the kernel on every directory entry it has, and on the others exactly while the kernel has the page unmapped |
| `PageTables.KernelPaging.constructor` | kernel/mm/vmm.cpp:64-79 | the first 64 MiB are mapped to themselves and nothing else is, with 16 tables |
| `PageTables.KernelPaging.AllocPageTable` | kernel/mm/vmm.cpp:37-48 | the next table, cleared |
| `PageTables.KernelPaging.MapPage` | kernel/mm/vmm.cpp:81-130 | mapping in place |
| `PageTables.KernelPaging.UnmapPage` | kernel/mm/vmm.cpp:132-153 | unmapping in place |
| `PageTables.KernelPaging.VirtToPhys` | kernel/mm/vmm.cpp:155-172 | the frame's address and the offset, or zero |
| `PageTables.KernelPaging.CloneDirectory` | kernel/mm/vmm.cpp:202-216 | a copy of the directory |
| `Frames.BitChanged` | kernel/mm/pmm.cpp:32-68 | changing one bit of one word changes that frame's bit and no other |
| `Frames.RangeCovers` | kernel/mm/pmm.cpp:70-100 | a range covers exactly the frames it touches, unless it reaches into the last page, when it covers none |
| `Frames.LowMemoryReserved` | kernel/mm/pmm.cpp:131-146 | no frame of low memory and not the last page is ever free at start-up |
| `Frames.FreeExactly` | kernel/mm/pmm.cpp:104-146 | a frame is free after start-up exactly when an available region has an address in its page, ends at or below the last page or past 4 GiB, and the frame is outside low memory and the kernel |
| `Frames.LastPageRegionLost` | kernel/mm/pmm.cpp:86-128 | a region that ends inside the last page provides no frame at all |
| `Frames.KernelReserved` | kernel/mm/pmm.cpp:131-146 | wherever the kernel is, its frames are reserved under every memory map exactly when it ends at or below the last page or starts in it |
| `Frames.KernelMissed` | kernel/mm/pmm.cpp:131-146 | a kernel that starts below the last page and ends in it is left free by some memory map |
| `FrameAllocator.Allocator.constructor` | kernel/mm/pmm.cpp:104-146 | the free frames after start-up: the available regions less low memory and the kernel |
| `FrameAllocator.Allocator.SetBit` | kernel/mm/pmm.cpp:39-54 | the frame is taken and the counter still counts the clear bits |
| `FrameAllocator.Allocator.ClearBit` | kernel/mm/pmm.cpp:56-68 | the frame is freed and the counter still counts the clear bits |
| `FrameAllocator.Allocator.ReserveRange` | kernel/mm/pmm.cpp:70-84 | the range's frames are taken |
| `FrameAllocator.Allocator.UnreserveRange` | kernel/mm/pmm.cpp:86-100 | the range's frames are freed |
| `FrameAllocator.Allocator.AllocFrame` | kernel/mm/pmm.cpp:148-173 | the lowest free frame; zero exactly when none is free or frame zero was |
| `FrameAllocator.Allocator.FreeFrame` | kernel/mm/pmm.cpp:175-181 | aligned addresses are freed, others ignored |
| `FrameAllocator.StepKeepsInv` | kernel/mm/pmm.cpp:148-181 | frames are conserved exactly when what is freed came from the pool, and a frame handed out was not live |
| `FrameAllocator.LiveFramesSafe` | kernel/mm/pmm.cpp:131-181 | over every run of allocations and frees the pool is conserved if and only if every frame freed came from it; live frames are then apart from free ones, provided by an available region, and never in low memory or the kernel |
| `FrameAllocator.ForeignStays` | kernel/mm/pmm.cpp:175-181 | a foreign frame once freed is in the pool for good, so the pool is not conserved whatever follows |
| `HeapGrowth.GrowKeepsBacked` | kernel/mm/heap.cpp:33-52 | growing keeps every heap page on its own frame, none of them free |
| `HeapGrowth.MapNextHeapPage` | kernel/mm/heap.cpp:33-52 | one more heap page on a fresh frame, or nothing changed: a frame that cannot be mapped goes back |
| `FatLayout.NextAntitone` | tools/efiImageBuilder/main.cpp:269-281 | a larger table leaves fewer clusters, which need a smaller table |
| `FatLayout.Swing` | tools/efiImageBuilder/main.cpp:269-281 | the table size rises on even steps and falls on odd ones |
| `FatLayout.ComputeLayout` | tools/efiImageBuilder/main.cpp:260-290 | for every size from 1 to 4095 MiB the table holds every cluster and everything fits, converged or not |
| `FatChain.ChainWritten` | tools/efiImageBuilder/main.cpp:423-434 | writing a chain links its clusters in order, ends it, and leaves every other entry alone |
| `FatChain.AllChains` | tools/efiImageBuilder/main.cpp:436-443 | every file has its own chain after all are written |
| `FatChain.FilesPlaced` | tools/efiImageBuilder/main.cpp:536-558 | every file's clusters hold its bytes after all are written |
| `FatChain.FollowFile` | kernel/efifs.cpp:241-257 | following a file's chain gives the rest of the file |
| `FatChain.ImageRoundTrip` | tools/efiImageBuilder/main.cpp:392-558 | in a valid layout that passes the capacity check, every file reads back exactly from the table and clusters in the image |
| `FatImage.WriteChain` | tools/efiImageBuilder/main.cpp:423-434 | the chain loop |
| `FatImage.BuildTable` | tools/efiImageBuilder/main.cpp:392-443 | the table: reserved entries, directories, then the files' chains |
| `FatImage.DirectoriesKept` | tools/efiImageBuilder/main.cpp:416-443 | the directories' chains survive the files', with kernel files and without |
| `FatImage.RestOfTable` | tools/efiImageBuilder/main.cpp:402-443 | the two reserved entries, and a free entry for every cluster past the last file but the fifth |
| `FatImage.CheckExact` | tools/efiImageBuilder/main.cpp:609-632 | in the builder's 32-bit arithmetic, the files of an image fit exactly when the check passes and each is at most 2^32 - 4096 bytes; without kernel files the check asks for one cluster more |
| `FatImage.HugeFilePasses` | tools/efiImageBuilder/main.cpp:609-632 | a file of 4 GiB counts as empty and passes the check of the boot partition |
| `FatImage.WriteLoopEnds` | tools/efiImageBuilder/main.cpp:536-558 | the loop that writes a file ends exactly for sizes up to 2^32 - 4096, since its product has 32 bits |
| `FatImage.FewClusters` | tools/efiImageBuilder/main.cpp:260-290 | every layout the builder computes has fewer than 2^20 clusters |
| `FatImage.TooStrictExample` | tools/efiImageBuilder/main.cpp:609-632 | a file that just fits the 32 MiB boot partition without kernel files is refused |
| `FatImage.BootLayout` | tools/efiImageBuilder/main.cpp:260-290 | the layout of the 32 MiB boot partition, reached after two steps |
| `FatImage.BootPartitionInRange` | tools/efiImageBuilder/main.cpp:601 | all cluster numbers of the 32 MiB boot partition are below the end-of-chain range |
| `FatImage.WriteFile` | tools/efiImageBuilder/main.cpp:536-558 | a file's clusters, the last one filled with zeros |
| `FatImage.WriteFiles` | tools/efiImageBuilder/main.cpp:780-786 | every file's clusters at its start, each after the one before |
| `FatImage.ReadFile` | kernel/efifs.cpp:226-257 | the chain read into a buffer: the bytes found, always ending, never past a buffer of whole sectors |
| `EditDistance.Bounds` | kernel/shell.cpp:100-131 | the distance lies between the difference and the sum of the lengths |
| `EditDistance.Symmetric` | kernel/shell.cpp:100-131 | the distance is symmetric |
| `EditDistance.ZeroIffEqual` | kernel/shell.cpp:100-131 | it is zero exactly for equal words |
| `EditDistance.Triangle` | kernel/shell.cpp:100-131 | it satisfies the triangle inequality |
| `EditDistance.NoShorter` | kernel/shell.cpp:100-131 | no list of insertions, deletions and replacements beats it |
| `EditDistance.Reached` | kernel/shell.cpp:100-131 | and some list reaches it |
| `EditDistance.ScoreNeverBelow` | kernel/shell.cpp:100-110 | the score of words too long for the rows is never below the distance |
| `EditDistance.Compute` | kernel/shell.cpp:100-131 | the two-row loop computes the distance, or the sum of the lengths for words over 32 characters |
| `EditDistance.Suggest` | kernel/shell.cpp:2142-2170 | the first of the best scoring commands; none exactly when every score is above three, or is three for a name of fewer than four characters |
| `EditDistance.SuggestionIsNearest` | kernel/shell.cpp:2142-2170 | a suggestion is a nearest command by true distance, at most three edits away |
| `EditDistance.RivalsAreClose` | kernel/shell.cpp:2142-2170 | two commands within tolerance of the same input are at most six edits apart |

## Left out

- Macro text substitution, lexing, file I/O and the command line of the macro builder: the replacement order
  comes from hash-map iteration, and the rest only adds easy members.
- JsonParser.Parser.ReadNumber: a number with a fraction or an exponent is an error value, because the source reads
  it into a double and the stream formatting of doubles is not exact. The mapping between object files and JSON
  objects is not modelled.
- The virtual machine's `long long` program counter is an unbounded integer; exported and extern names are sets.
- HeapSafety.FreeKeepsInv: block headers are fields of the model and not bytes of memory, so a header overwritten by
  its program, or header bytes left behind in freed or unused memory, are outside it. Alignments are powers of two, as
  the mask arithmetic demands.
- HeapSafety.PlacedIn: the block ends below the last page, as every block of a heap that satisfies the invariant does;
  alignments that wrap are the subject of `HeapSafety.WrapTakesNull`.
- NVMe discovery, registers and timing: the unbounded wait loop is modelled as any number of polls. Doorbells and
  memory barriers are the order of the steps.
- Scheduler stack frames, interrupt stubs, user and group ids, names and home directories. A task that has exited
  only halts, as the exit system call and the task trampoline make it.
- RamFs.FileSystem.EnsureCapacity: the capacity asked for is at most 2^31, because beyond that the doubling loop does
  not end.
- RamFs.FileSystem.Write: the 32-bit offset does not wrap and the size stays at most 2^31, because beyond that the
  doubling loop does not end. The bytes of a hole are whatever the buffer held.
- The file system's seeding of its initial directories and files, and its lock: the model starts from an empty root.
- SnapshotCodec.ParseEncoded: sizes are added without 32-bit wrap-around, so payloads whose fields were corrupted to
  values near 2^32 are outside the model; the same holds for names in the index.
- SnapshotIo.Restore: memory for file buffers is available, and the payload is at most 2 GiB, the largest file.
- Packages.RestoreEntry: memory for the payload is available and the disk is at most 2 GiB.
- Packages.RestorePackages: memory for payloads is available and the disk is at most 2 GiB, so that byte counts do not
  wrap.
- SnapshotIo.Save: names are C strings and sizes fit 32 bits.
- Storage.ExtentsSurvive: a sector write takes effect whole or not at all; the choice between block devices is not
  modelled. The size of a write is rounded up to sectors without 32-bit wrap-around; in the source a write of more
  than 2^32 - 512 bytes stores nothing and reports success, but no caller can hold such a buffer.
- StorageDriver.Driver.Write: no 32-bit wrap-around of the rounded size either.
- Flag bits are packed as record fields in page tables; translation cache flushes and the control registers are not
  modelled.
- FatImage.WriteFile: the product of the loop test is unbounded; `FatImage.WriteLoopEnds` says where its 32 bits matter.
- FatImage.ReadFile: at least one sector per cluster, since with none the loop need not end on a cyclic table. The
  fixed sizes of the reader's static buffers, directory entries and the boot sector are not modelled.
- EditDistance.Suggest: scores fit 32 bits.
- xHCI, AHCI, IDE, PCI, USB, APIC, PIC, PIT, GDT and IDT: register traffic with devices that are not part of the
  model. The shell's commands, console, video, keyboard, logging, Multiboot, ACPI, ELF loading, system call checks and
  the spinlock only add easy members.
