# Verified models of six components

Six parts of the repository, modelled in Dafny and proved correct:

- **BrainF**, a one-pass compiler. `BrainFSource` is the language of its command table and the fusion
  of runs, `BrainFText` the programs a text spells, `BrainFIR` the intermediate representation with a
  step semantics, `BrainFCodeGen` the code each command adds to the builder. `BrainFCompiler` is the
  compiler itself: a class with the fields the source mutates, whose recursive reading loop lexes and
  emits at once. `BrainFSimulation`, `BrainFCorrect` and `BrainFTheorems` prove that compiled functions
  behave like their programs, with and without array bounds checks; `BrainFWellFormed` proves that they
  are in SSA form.
- **Exceptions**. `Leb128` and `Personality` model the demo's decoders and its personality function over
  a memory of bytes; `PointerFormats` says what encoded pointers, headers and entries stand for;
  `ExceptionTable` is the emitter of the tables they read; `Unwinding` the functions the demo generates around a throwing call, and the two-phase unwinder over any stack of them.
- **Cache-block allocator**. `AllocSpec` is greedy single-linkage clustering on sequences; `Allocate`
  the allocator, which changes costs and adjacency in place. `EdgeAllocate` is its second,
  edge-driven algorithm: `EdgeAllocSpec` and `EdgeAllocResult` are what its state keeps and where it ends,
  `EdgeGreedy` is the clustering of the input graph that it computes, and `EdgeCosts` relates the costs it
  keeps to the input's.
- **Use lists** (`UseLists`): the intrusive doubly linked lists whose back pointers point at slots.
- **Thread barrier** (`Barrier`): a mutex and condition variable protocol as atomic steps.
- **Converter** (`SolText`, `TransformSpec`, `Transform`): the two file formats and the global maps.

`Sequences` and `OrderedSets` hold what several parts use: bytes, repetition, and the order in which sets
are iterated.

Where the code and its comments disagree the model follows the code. In particular: the allocator never
places the only object of a function; bounds checks do not protect an empty tape; the LEB128 decoders
shift in 32-bit ints, which bounds what they can read; the barrier survives a spurious wake-up if and only if
it comes after the releaser and enough workers have entered; a chain of action records that comes back to
one of them is walked for ever; a datum without a block is converted into block 0.

`dafny verify dfyconfig.toml` checks everything.

## Model

| member | source | states |
|---|---|---|
| BrainFTheorems.CompiledTextEndsLikeProgram | llvm-2.8/examples/BrainF/BrainF.cpp:12-22 | Semantic preservation, for every balanced text, tape size, initial memory and input: the compiled function returns with exactly the program's final tape, head, unread input and output; makes a bad access if and only if the program leaves the tape with an access; never complains; runs for ever if and only if the program does. |
| BrainFTheorems.CompilerCorrect | llvm-2.8/examples/BrainF/BrainF.cpp:184-468 | For every clock, the run of the program the text spells is mirrored by a run of the compiled function. |
| BrainFTheorems.CompiledStops | llvm-2.8/examples/BrainF/BrainF.cpp:418-468 | The converse: when the compiled function has stopped, the program has stopped within as many loop iterations, and in the same way. |
| BrainFTheorems.BracketAcceptance | llvm-2.8/examples/BrainF/BrainF.cpp:418-422 | A text is accepted if and only if its brackets balance; an extra `]` is reported if and only if some prefix closes more than it opens; a missing `]` if and only if none does but the text ends at positive depth. |
| BrainFTheorems.NeverMalformed | llvm-2.8/examples/BrainF/BrainF.cpp:283-304 | No run of any compiled function reads an undefined register, enters a missing block, takes a phi value from a block that is no predecessor, or falls off a block's end. |
| BrainFTheorems.CheckedIsSafe | llvm-2.8/examples/BrainF/BrainF.cpp:244-265 | With bounds checks and a tape of at least one cell, no run of any compiled function loads or stores outside the allocated memory, through every loop phi. |
| BrainFTheorems.ChecksSufficeForNonemptyTape | llvm-2.8/examples/BrainF/BrainF.cpp:106-115 | The checks make all compiled functions safe if and only if the tape is not empty (the first access of an empty tape comes before any check). |
| BrainFTheorems.CheckedTextEndsLikeProgram | llvm-2.8/examples/BrainF/BrainF.cpp:237-267 | With checks, the error block is entered if and only if the head after some maximal run of moves is outside the tape; in all other cases the result, a bad access, or running for ever are those of the program without checks, also when a run of moves leaves the tape on its way and comes back. |
| BrainFTheorems.SameAccidents | llvm-2.8/examples/BrainF/BrainF.cpp:424-462 | For every program, bad accesses and complaints of the compiled function coincide with the program's accesses off the tape and its checked moves off the tape. |
| BrainFTheorems.SameDivergence | llvm-2.8/examples/BrainF/BrainF.cpp:424-445 | The compiled function runs for ever if and only if the program does. |
| BrainFTheorems.SameResult | llvm-2.8/examples/BrainF/BrainF.cpp:121-128 | The compiled function returns with a state if and only if the program ends with it; on every such path memory is freed exactly once. |
| BrainFCorrect.Compiled | llvm-2.8/examples/BrainF/BrainF.cpp:80-182 | A run of a whole compiled function, header, code, footer and error block, mirrors the program's run for every clock. |
| BrainFCorrect.Stopped | llvm-2.8/examples/BrainF/BrainF.cpp:461-462 | Every stopped run of a compiled function stands for a stopped run of the program. |
| BrainFSimulation.SimulateProg | llvm-2.8/examples/BrainF/BrainF.cpp:194-310 | Inside any function that contains it, the code of a program takes the machine from the program's start to how its run ends, with tape, head, input and output in step. |
| BrainFSimulation.SimulateLoop | llvm-2.8/examples/BrainF/BrainF.cpp:283-304 | The same for a loop, from its test block, for any number of iterations still to come. |
| BrainFSimulation.SimulateOp | llvm-2.8/examples/BrainF/BrainF.cpp:201-281 | The emitted code of one command does what the command does, or stops where it goes wrong. |
| BrainFSimulation.BoundsFour | llvm-2.8/examples/BrainF/BrainF.cpp:244-265 | The bounds test goes to the error block if and only if the head is at or beyond the end, or before the start. |
| BrainFSimulation.TestSteps | llvm-2.8/examples/BrainF/BrainF.cpp:431-448 | The test block goes to the exit block on a zero cell, to the body on any other, with the head in the loop's phi, from either edge. |
| BrainFSimulation.LoopBlocks | llvm-2.8/examples/BrainF/BrainF.cpp:424-456 | The blocks of any finished loop: the test block with a phi of exactly two edges, from where the loop was entered and from the end of its body, and the exit block with a phi of one edge, from the test block. |
| BrainFWellFormed.CompiledInSsaForm | llvm-2.8/examples/BrainF/BrainF.cpp:424-462 | Every compiled function is in SSA form: one terminator per block, at its end; no edge to a missing block or back to the entry; each phi has exactly one incoming edge per predecessor (one or two); one definition per register; and on every path from the entry whatever an instruction or a phi edge reads has been defined before. |
| BrainFWellFormed.ProgReady | llvm-2.8/examples/BrainF/BrainF.cpp:184-310 | The code of any program keeps the partly built function well formed: of the unended blocks only the insert block has changed. |
| BrainFWellFormed.OpenReady | llvm-2.8/examples/BrainF/BrainF.cpp:283-300 | Opening a loop leaves the test block with a phi for its one predecessor and the body entered from nowhere. |
| BrainFWellFormed.CloseReady | llvm-2.8/examples/BrainF/BrainF.cpp:424-456 | Closing a loop completes the phi with the back edge, ends the test block, and starts an exit block with a phi for its one predecessor. |
| BrainFWellFormed.BackEdgeKeeps | llvm-2.8/examples/BrainF/BrainF.cpp:426-434 | A back edge and the phi entry for it keep phis and predecessors in agreement. |
| BrainFCompiler.BrainF.ParseText | llvm-2.8/examples/BrainF/BrainF.cpp:40-50 | The main method: the status says which bracket is wrong, and on success the blocks are those of the text's program with its runs fused. |
| BrainFCompiler.BrainF.ReadLoop | llvm-2.8/examples/BrainF/BrainF.cpp:184-468 | One nesting level is read and compiled, with one symbol of lookahead; the code added is that of the level's program with runs fused, closed as the function's end or as the loop's end. |
| BrainFCompiler.BrainF.ReadSymbols | llvm-2.8/examples/BrainF/BrainF.cpp:312-415 | The lexer loses nothing: the symbols it hands on, followed by the unread text, mean what the pending symbol and the text meant before; a lookahead symbol is kept only behind a run that it ends. |
| BrainFCompiler.BrainF.ReadInnerLoop | llvm-2.8/examples/BrainF/BrainF.cpp:283-304 | A recursive reading loop is entered and left without a lookahead symbol, consumes the text up to the matching `]`, and adds the loop's code; without a matching `]` the status is the missing bracket. |
| BrainFCompiler.BrainF.WriteSymbol | llvm-2.8/examples/BrainF/BrainF.cpp:196-310 | Writing the current symbol moves its code from the text still to be compiled into the builder, and nothing else. |
| BrainFCompiler.BrainF.EndLevel | llvm-2.8/examples/BrainF/BrainF.cpp:418-468 | At a `]` the loop is closed or the extra bracket reported; at the end of the text the function branches to its footer or the missing bracket is reported. |
| BrainFCompiler.BrainF.FinishLoop | llvm-2.8/examples/BrainF/BrainF.cpp:424-456 | The back edge, the completed phi, the zero test and the exit block, as the state of the builder afterwards. |
| BrainFCompiler.BrainF.BeginLoop | llvm-2.8/examples/BrainF/BrainF.cpp:283-300 | The branch to a new test block with half a phi, and the body block, as the state of the builder afterwards. |
| BrainFCompiler.BrainF.WriteMove | llvm-2.8/examples/BrainF/BrainF.cpp:237-267 | The state of the builder after a move, with the bounds test if checks are on. |
| BrainFCompiler.BrainF.WriteBounds | llvm-2.8/examples/BrainF/BrainF.cpp:244-265 | The state of the builder after the bounds test. |
| BrainFCompiler.BrainF.WriteHeader | llvm-2.8/examples/BrainF/BrainF.cpp:80-182 | The entry block, the footer and, with checks, the error block. |
| BrainFCompiler.ReadSymbol | llvm-2.8/examples/BrainF/BrainF.cpp:321-413 | One more character read as a symbol keeps the meaning of the text. |
| BrainFCompiler.AfterOp | llvm-2.8/examples/BrainF/BrainF.cpp:201-281 | A run that its lookahead symbol ends is written once, fused, and merges with nothing after it. |
| BrainFCompiler.LoopAhead | llvm-2.8/examples/BrainF/BrainF.cpp:283-304 | After a `[`, the text up to its matching `]` is the loop's body, and what follows is still to be compiled. |
| BrainFText.ParseIsInverseOfText | llvm-2.8/examples/BrainF/BrainF.cpp:401-412 | Reading inverts writing: a text without its comments is the text of p if and only if reading it gives p. |
| BrainFText.ParseCountsBrackets | llvm-2.8/examples/BrainF/BrainF.cpp:392-408 | Where reading stops is decided by bracket depth alone: at the first prefix that closes more than it opens, or at the end at depth zero or above. |
| BrainFText.ParseKeepsCommands | llvm-2.8/examples/BrainF/BrainF.cpp:320-415 | The commands of the program read, in order, followed by those of the unread rest, are the commands of the text. |
| BrainFText.TextSteps | llvm-2.8/examples/BrainF/BrainF.cpp:12-22 | The command table, on text: the first character of any balanced text reads a byte (255 at the end of the input), writes one, decrements or increments the cell around 256, or moves the head to the left or right, and then the rest runs; any character that is not a command does nothing. |
| BrainFText.LoopSteps | llvm-2.8/examples/BrainF/BrainF.cpp:21-22 | The same for brackets: as long as the cell is not 0 the text between them runs, and then the whole again. |
| BrainFSource.FusePreservesRuns | llvm-2.8/examples/BrainF/BrainF.cpp:312-372 | Summing maximal runs of moves and of changes alters no run: same tape (modulo 256), head, input, output and number of iterations; with checked moves, for every run that stays on the tape. |
| BrainFSource.FuseIsFused | llvm-2.8/examples/BrainF/BrainF.cpp:336-372 | No two adjacent moves or changes are left, at any depth. |
| BrainFSource.ExtraClock | llvm-2.8/examples/BrainF/BrainF.cpp:12-22 | More iterations allowed never change a finished run of the command table's language. |
| BrainFSource.CheckedStaysOnTape | llvm-2.8/examples/BrainF/BrainF.cpp:237-267 | A checked run from a head on the tape never accesses a cell off it. |
| BrainFSource.CheckingIsInvisible | llvm-2.8/examples/BrainF/BrainF.cpp:237-267 | Checks change nothing in a run that never leaves the tape. |
| BrainFIR.HaltedForGood | llvm-2.8/examples/BrainF/BrainF.cpp:124-128 | A stopped function stays as it is. |
| Unwinding.NestedFunctionsEndWell | llvm-2.8/examples/ExceptionDemo/ExceptionDemo.cpp:1094-1363 | For any depth of wrapped functions, any catch lists, anything left on the stack before, and anything thrown or nothing, with the personality reading each function's emitted table from memory in both phases, and frames continued at the labels of the invoke they are in: the innermost function that lists the type catches it, in its first catch for it; every finally block runs exactly once; the exception is freed exactly once if caught, and never if foreign or uncaught; functions inside the catcher are unwound, the others return. |
| Unwinding.AnsweredByList | llvm-2.8/examples/ExceptionDemo/ExceptionDemo.cpp:609-784 | For a function whose emitted table stands in memory, and whose call returns behind a guarded range, the personality answers, in either phase, with the position of the first catch that lists the type and the address of the landing pad, or with cleanup. |
| Unwinding.CatcherIsInnermost | llvm-2.8/examples/ExceptionDemo/ExceptionDemo.cpp:1343-1357 | The catcher, in terms of the lists alone: the innermost function whose list has the type; none for a foreign exception. |
| Unwinding.FirstCatchIsFirst | llvm-2.8/examples/ExceptionDemo/ExceptionDemo.cpp:552-592 | The catch that runs is the first one listed for the type, and there is one if and only if the type is listed. |
| Unwinding.SearchPhase | llvm-2.8/examples/ExceptionDemo/ExceptionDemo.cpp:761-767 | The search phase walks out to the catcher or past the outermost function, and changes no frame. |
| Unwinding.CleanupPhase | llvm-2.8/examples/ExceptionDemo/ExceptionDemo.cpp:726-760 | The cleanup phase runs the landing pads inside the catcher one after the other, each through its finally block and back to the unwinder. |
| Unwinding.PassThrough | llvm-2.8/examples/ExceptionDemo/ExceptionDemo.cpp:1000-1026 | A function without a match runs its finally block once and resumes the unwinding. |
| Unwinding.CatchHere | llvm-2.8/examples/ExceptionDemo/ExceptionDemo.cpp:1041-1071 | The catcher's switch goes to its first matching catch, then to the finally block, and the end block frees the exception. |
| Unwinding.FinishAll | llvm-2.8/examples/ExceptionDemo/ExceptionDemo.cpp:1195-1215 | Functions whose calls return run their finally blocks once and return. |
| Unwinding.CreateCatchWrappedInvokeFunction | llvm-2.8/examples/ExceptionDemo/ExceptionDemo.cpp:1094-1363 | The generator builds exactly the blocks that NestedFunctionsEndWell runs: one catch block per type info and a switch case for each, and a call that goes on in the normal block or unwinds to the exception block. |
| Unwinding.CreateFinallyBlock | llvm-2.8/examples/ExceptionDemo/ExceptionDemo.cpp:968-1026 | The finally block with its three-way switch, and the entry code: each of the two variables is put in front, so the storage is initialised before the flag. |
| Unwinding.CreateCatchBlock | llvm-2.8/examples/ExceptionDemo/ExceptionDemo.cpp:1041-1071 | A catch block marks the exception caught and goes to the finally block. |
| Unwinding.CreateRoute | llvm-2.8/examples/ExceptionDemo/ExceptionDemo.cpp:1343-1357 | Selector i is routed to the i-th catch block, counted from 1. |
| Personality.HandleLsda | llvm-2.8/examples/ExceptionDemo/ExceptionDemo.cpp:609-784 | The personality's answer is that of the table at the offset of the call: the first call site with a landing pad that covers it decides, in either phase; the walk ends because every entry takes bytes. EmittedCallIsHandled says what that means for the return address. |
| Personality.CallInRange | llvm-2.8/examples/ExceptionDemo/ExceptionDemo.cpp:627-632 | The offset looked up lies in a range of the function if and only if the return address is behind the range's start and at most at its end: a call at the end of a range still belongs to it, and one that ends where it starts does not. |
| Personality.WrappedRangeIsEmpty | llvm-2.8/examples/ExceptionDemo/ExceptionDemo.cpp:706-706 | A range that would go beyond the address space covers nothing; any other one covers what lies between its ends. |
| Personality.TwoPhasesAgree | llvm-2.8/examples/ExceptionDemo/ExceptionDemo.cpp:706-777 | On the same data search finds a handler if and only if cleanup installs a selector other than 0; search continues while cleanup installs selector 0 if and only if the covering pad has no match; both continue if and only if no pad covers the pc; both fail, or never answer, together. |
| Personality.TableSearchIsExact | llvm-2.8/examples/ExceptionDemo/ExceptionDemo.cpp:661-757 | Over any memory and any pointer encoding: the walk answers with a landing pad if and only if some entry is the first that has one for the pc, and then with that entry's pad and action; with none if and only if it reaches the end without one; and fails if and only if an unreadable entry comes first. |
| Personality.EntryAdvances | llvm-2.8/examples/ExceptionDemo/ExceptionDemo.cpp:669-678 | Every call-site entry that can be read takes at least one byte. |
| Personality.HandleActionValue | llvm-2.8/examples/ExceptionDemo/ExceptionDemo.cpp:522-595 | The action walk, from any address of any memory: the first record that names the type, no match, an unreadable or unsupported record, or a walk that never ends, each as ChainSearchIsExact says. |
| Personality.ChainSearchIsExact | llvm-2.8/examples/ExceptionDemo/ExceptionDemo.cpp:552-592 | The walk answers position k+1 if and only if the k-th record is the first whose type matches; no match if and only if the chain ends without one; it fails if and only if it comes to something unreadable before that; and it goes on for ever if and only if it comes back to a record before any of these. |
| Personality.MoreRecordsThanBytes | llvm-2.8/examples/ExceptionDemo/ExceptionDemo.cpp:552-592 | A walk that has passed more records than the memory has bytes goes on for ever. |
| Personality.WalkFrom | llvm-2.8/examples/ExceptionDemo/ExceptionDemo.cpp:552-592 | What any answer of the walk says about the records it passed. |
| Personality.ReadEncodedPointer | llvm-2.8/examples/ExceptionDemo/ExceptionDemo.cpp:425-501 | Every pointer format and application, with its width, sign extension, relative base and indirection, and the abort on the others. |
| PointerFormats.PointerRead | llvm-2.8/examples/ExceptionDemo/ExceptionDemo.cpp:438-497 | A number written in any of the supported formats is read back as a 64-bit address: as it is, or relative to where it is written, or as what is stored at that address; any other application aborts. |
| PointerFormats.OtherEncodings | llvm-2.8/examples/ExceptionDemo/ExceptionDemo.cpp:430-476 | Any other format aborts; an omitted pointer takes no bytes. |
| Personality.ReadHeader | llvm-2.8/examples/ExceptionDemo/ExceptionDemo.cpp:638-664 | The header leads to the type infos, the call sites and the action table behind them. |
| PointerFormats.HeaderRead | llvm-2.8/examples/ExceptionDemo/ExceptionDemo.cpp:638-664 | Any written header, with its type infos omitted or not, is read as where they end, the encoding of the call sites, and where their table starts and ends. |
| PointerFormats.EntryRead | llvm-2.8/examples/ExceptionDemo/ExceptionDemo.cpp:669-680 | Any written call site, in any encoding, is read as its three pointers and its action. |
| Leb128.ReadULEB128 | llvm-2.8/examples/ExceptionDemo/ExceptionDemo.cpp:372-388 | Decoding by shifted or-ing is the positional sum of the digits, and defined as long as each shift fits an int. |
| Leb128.ReadSLEB128 | llvm-2.8/examples/ExceptionDemo/ExceptionDemo.cpp:396-416 | The same with the sign extension of the last digit, which is shifted in an int. |
| Leb128.UnsignedRoundTrip | llvm-2.8/examples/ExceptionDemo/ExceptionDemo.cpp:372-388 | Decoding the encoding of v, anywhere in memory, gives v and the position behind it if and only if v < 2^31. |
| Leb128.SignedRoundTrip | llvm-2.8/examples/ExceptionDemo/ExceptionDemo.cpp:396-416 | Decoding the encoding of n gives n in two's complement and the position behind it if and only if -2^27 <= n < 2^31. |
| Leb128.BitOrDisjoint | llvm-2.8/examples/ExceptionDemo/ExceptionDemo.cpp:380-380 | Or-ing numbers without a common bit adds them. |
| ExceptionTable.EmittedTableIsObeyed | llvm-2.8/lib/ExecutionEngine/JIT/JITDwarfEmitter.cpp:388-475 | The personality, reading an emitted table, does what the catches say, for any number of catches and for none: for a pc inside a guarded call it answers with the position of the first catch that lists the type, or cleanup only; elsewhere it continues. |
| ExceptionTable.EmittedCallIsHandled | llvm-2.8/examples/ExceptionDemo/ExceptionDemo.cpp:627-745 | For an emitted table, a function anywhere in the address space and any return address: the first site that guards the call, by the return address behind it, decides with its landing pad and the first catch that lists the thrown type; without such a site the unwinding goes on. |
| ExceptionTable.RecordRead | llvm-2.8/examples/ExceptionDemo/ExceptionDemo.cpp:552-574 | A written action record is read as its type id and its self-relative link; a negative id, a filter, is not supported. |
| ExceptionTable.EmittedActionsSearchInOrder | llvm-2.8/lib/ExecutionEngine/JIT/JITDwarfEmitter.cpp:254-286 | What the emitted action of a landing pad means: the first catch, in the selector's order, that lists the type, and nothing if and only if none does; a lone cleanup has no record and no action. |
| ExceptionTable.PadIds | llvm-2.8/lib/CodeGen/MachineModuleInfo.cpp:487-491 | The ids of a landing pad are emptied exactly when its selector lists no catch, so that a lone cleanup is emitted as no action. |
| ExceptionTable.WalkIsSearch | llvm-2.8/lib/ExecutionEngine/JIT/JITDwarfEmitter.cpp:267-286 | The back links of the emitted records lead the walk through the ids from last to first. |
| ExceptionTable.SearchInOrder | llvm-2.8/lib/CodeGen/SelectionDAG/FunctionLoweringInfo.cpp:293-331 | Ids are collected from the selector's last argument to its first, so the last-to-first search meets the catches in the selector's order. |
| ExceptionTable.ReadTableHeader | llvm-2.8/lib/ExecutionEngine/JIT/JITDwarfEmitter.cpp:395-402 | The personality reads back the emitted header: classInfo is the table's end, and sites, actions and type infos stand where it looks. |
| ExceptionTable.WalkSites | llvm-2.8/lib/ExecutionEngine/JIT/JITDwarfEmitter.cpp:406-438 | Walking the emitted call sites finds the first one with a pad that covers the pc. |
| ExceptionTable.ReadTypeInfo | llvm-2.8/lib/ExecutionEngine/JIT/JITDwarfEmitter.cpp:450-467 | The k-th type info is k pointers before the end of the table. |
| ExceptionTable.ComputeActions | llvm-2.8/lib/ExecutionEngine/JIT/JITDwarfEmitter.cpp:243-292 | The records of the landing pad, with their link distances, and the first action's position. |
| ExceptionTable.EmitActions | llvm-2.8/lib/ExecutionEngine/JIT/JITDwarfEmitter.cpp:440-448 | The bytes of the records, in order. |
| ExceptionTable.EmitExceptionTable | llvm-2.8/lib/ExecutionEngine/JIT/JITDwarfEmitter.cpp:372-468 | The bytes of the whole table for one landing pad. |
| ExceptionTable.EmitULEB128Bytes | llvm-2.8/include/llvm/CodeGen/JITCodeEmitter.h:177-185 | The emitted bytes are the encoding that section 7.6 of DWARF 3 defines. |
| ExceptionTable.EmitSLEB128Bytes | llvm-2.8/include/llvm/CodeGen/JITCodeEmitter.h:195-206 | The same for signed numbers; the loop ends. |
| Allocate.CAllocate.DoAllocate | llvm-2.8/ShellScript/allocate.cpp:475-529 | With other than one object, every block object holds exactly its cluster of the greedy clustering that BlocksAreGreedy describes by the original costs, and every object is placed; with a single object the adjacency table has no row and nothing is placed. The break on a non-empty front block is never taken. |
| AllocSpec.BlocksPartition | llvm-2.8/ShellScript/allocate.cpp:497-526 | Exact partition: every object is in exactly one block, no block exceeds the capacity, every block but the last is full, none is empty. |
| AllocSpec.BlocksCount | llvm-2.8/ShellScript/allocate.cpp:483-484 | There are exactly ceil(n / L) blocks. |
| AllocSpec.BlocksAreGreedy | llvm-2.8/ShellScript/allocate.cpp:432-474 | In terms of the original costs alone: a block starts with the lowest object that no earlier block has, and for each further object some member of its block is at least as close to it as any member is to any other free object, the lowest id among equals. |
| AllocSpec.LinkageIsLeast | llvm-2.8/ShellScript/allocate.cpp:269-269 | The cost of an object to a block is the cost from some member, and from no member is it lower. |
| AllocSpec.MissingCostIsFree | llvm-2.8/ShellScript/allocate.cpp:269-269 | A cost that is not listed counts as 0. |
| AllocSpec.ClusterIsGreedy | llvm-2.8/ShellScript/allocate.cpp:454-474 | The same for one cluster, which stops only when it is full or has taken everything. |
| Allocate.CAllocate.AddAllocate | llvm-2.8/ShellScript/allocate.cpp:454-474 | Fills a block as the greedy clustering does; throughout, the representative's merged costs are the least original costs from any member, and the table is that of the live objects. |
| Allocate.CAllocate.FindBest | llvm-2.8/ShellScript/allocate.cpp:432-452 | The cheapest neighbour not yet placed, the lowest id among equals, if there is one. |
| Allocate.CAllocate.UpdateGraph | llvm-2.8/ShellScript/allocate.cpp:260-275 | After merging, the cost between the representative and each neighbour is the same in both directions, at most either of the two it was, and one of them; every other cost is as before, and the merged object is in no neighbour's row. |
| Allocate.CAllocate.AdjacentTable | llvm-2.8/ShellScript/allocate.cpp:240-258 | Everyone is adjacent to everyone else; a single object gets no row. |
| Allocate.CAllocate.FillAll | llvm-2.8/ShellScript/allocate.cpp:497-526 | The pass over the table fills the created blocks in order and ends with nothing free. |
| Allocate.CBlock.Add | llvm-2.8/ShellScript/allocate.h:14-24 | Size, set and sequence of a block stay in step. |
| Allocate.MergeOneCost | llvm-2.8/ShellScript/allocate.cpp:269-270 | Merging one more neighbour changes exactly its two costs. |
| EdgeAllocate.DoAllocate1 | llvm-2.8/ShellScript/allocate.cpp:277-430 | The edge-driven allocator ends, and its blocks are those of the greedy clustering of the input graph: at every step the pair with the least original single-linkage cost, the first in ascending order among equals, is put together. No object is in two blocks, no block is over its capacity, no usable edge is left; with a capacity of two or more every block ends up full and exactly the objects beyond all blocks are left out, otherwise nothing is placed. |
| EdgeGreedy.ClusteredIsComplete | llvm-2.8/ShellScript/allocate.cpp:345-347 | The clustering stops only when no two objects, and no object and block, can be put together any more. |
| EdgeGreedy.ChoiceExists | llvm-2.8/ShellScript/allocate.cpp:306-343 | As long as a pair can be put together there is a cheapest one, the first of its cost. |
| EdgeGreedy.ChoiceStep | llvm-2.8/ShellScript/allocate.cpp:351-418 | Placing the cheapest pair and going on is the whole clustering: the choice is unique. |
| EdgeCosts.ChosenIsGreedy | llvm-2.8/ShellScript/allocate.cpp:306-343 | The edge that the search chooses by the costs it keeps is, if it can be used, the cheapest pair of the input graph: edges to full blocks that come before it change nothing. |
| EdgeCosts.CostIsPairCost | llvm-2.8/ShellScript/allocate.cpp:260-275 | The cost kept for a pair that may be put together is the least original cost from any member of the one's block to the other. |
| EdgeGreedy.PairCostIsLeast | llvm-2.8/ShellScript/allocate.cpp:260-275 | The cost of a pair is that of a member of the one's block, and no member of it is cheaper. |
| EdgeAllocResult.WholeBlocks | llvm-2.8/ShellScript/allocate.cpp:284-295 | There are as many blocks as the objects, of four bytes each, fill completely. |
| EdgeCosts.JoinKeepsCosts | llvm-2.8/ShellScript/allocate.cpp:354-365 | That stays so when an object joins a block and its costs are merged into the representative's. |
| EdgeAllocate.Round | llvm-2.8/ShellScript/allocate.cpp:351-427 | A round puts the two ends of the chosen edge together, into the block one of them stands for or the first block with room for both, or deletes the edge when its ends can never share a block; the two assertions hold; the free objects or the edges become fewer. |
| EdgeAllocate.FindEdge | llvm-2.8/ShellScript/allocate.cpp:306-343 | The search, with its early exits at cost 0, gives the first cheapest edge among all usable ones, and none only if there is none. |
| EdgeAllocate.PutBoth | llvm-2.8/ShellScript/allocate.cpp:382-418 | Two free objects go into the first block with room for both, which gets a representative if it had none. |
| EdgeAllocSpec.JoinKeeps | llvm-2.8/ShellScript/allocate.cpp:354-365 | An object joining a block keeps the table symmetric and free of merged objects, and keeps a reason for every edge that is gone. |
| EdgeAllocSpec.DropKeeps | llvm-2.8/ShellScript/allocate.cpp:423-427 | So does dropping an edge that can never be used. |
| EdgeAllocResult.EveryBlockIsFull | llvm-2.8/ShellScript/allocate.cpp:295-302 | When no edge can be chosen, blocks of two or more are all full, and the number of objects left out is what the blocks cannot hold. |
| EdgeAllocResult.NothingLeftToDo | llvm-2.8/ShellScript/allocate.cpp:345-347 | At the end a used block is full if anything is left over, and no block has room for two if two objects are. |
| UseLists.Use.Set | llvm-2.8/include/llvm/Value.h:323-327 | Setting a use keeps all lists linked and complete; every list keeps its other uses in order, and the use is at the front of its new value's list and nowhere else. |
| UseLists.Use.AddToList | llvm-2.8/include/llvm/Use.h:128-133 | The use is put in front; forward links and back slots of the whole list are right again. |
| UseLists.Use.RemoveFromList | llvm-2.8/include/llvm/Use.h:134-138 | The use leaves the list through the slot its back pointer names; the others keep their order and their links. |
| UseLists.SetEach | llvm-2.8/include/llvm/Value.h:323-327 | After any sequence of assignments from the empty state, every value's list is that of the history. |
| UseLists.ListAfterAnyHistory | llvm-2.8/include/llvm/Value.h:323-327 | A value's list after any history holds exactly the uses last set to it, each once, the most recently set first. |
| UseLists.User.SetOperand | llvm-2.8/include/llvm/User.h:107-113 | Setting an operand is setting its use; all other uses keep their values. |
| UseLists.User.DropAllReferences | llvm-2.8/include/llvm/User.h:144-147 | No list contains any operand, even a repeated one; all other uses keep their values. |
| UseLists.WithoutAllKeepsOrder | llvm-2.8/include/llvm/User.h:144-147 | What is left of a list are exactly the other uses, in their order. |
| UseLists.Value.HasOneUse | llvm-2.8/include/llvm/Value.h:174-178 | True if and only if the list has length one. |
| UseLists.Value.UseEmpty | llvm-2.8/include/llvm/Value.h:162-162 | True if and only if the list is empty. |
| UseLists.Value.Walk | llvm-2.8/include/llvm/Use.h:187-195 | Iterating from the head through `Next` meets every use once, in order, and ends. |
| UseLists.WithoutAt | llvm-2.8/include/llvm/Use.h:134-138 | Taking out a use of a duplicate-free list leaves what is before and behind it. |
| Barrier.AllPassIffCountsAgree | llvm-2.8/examples/ParallelJIT/ParallelJIT.cpp:149-196 | Every complete run, with any spurious wake-ups, lets every thread pass if and only if there are exactly as many workers as the releaser asks for. |
| Barrier.NobodyPassesEarly | llvm-2.8/examples/ParallelJIT/ParallelJIT.cpp:175-196 | For any number of workers, any number asked for and any interleaving without spurious wake-ups, no thread passes before the releaser has entered and the workers asked for have arrived. |
| Barrier.NeverEarlyIff | llvm-2.8/examples/ParallelJIT/ParallelJIT.cpp:149-213 | With spurious wake-ups, for every schedule: nobody ever passes early if and only if every spurious wake-up comes after the releaser and as many workers as it asks for have entered. |
| Barrier.NobodyLeftWaiting | llvm-2.8/examples/ParallelJIT/ParallelJIT.cpp:149-213 | Once exactly the requested number of workers and the releaser have entered, nobody waits, whatever spurious wake-ups there were. |
| Barrier.AssertionHolds | llvm-2.8/examples/ParallelJIT/ParallelJIT.cpp:156-156 | The assertion on n and waitFor holds in every reachable state, for any threads and schedule, spurious wake-ups included. |
| Barrier.CountersCount | llvm-2.8/examples/ParallelJIT/ParallelJIT.cpp:149-213 | For any threads, any number of releasers among them, and any schedule: no waiting worker is left out of the count; without spurious wake-ups `n` is exactly the number of workers that wait, over any number of releases, and `waitFor` is set exactly while a releaser waits. |
| Barrier.SpuriousWakeUpBreaksBarrier | llvm-2.8/examples/ParallelJIT/ParallelJIT.cpp:163-168 | A witness for NeverEarlyIff: with one worker, a wake-up before the releaser enters lets the worker go on, since the wait is not in a loop. |
| Barrier.RunsAreShort | llvm-2.8/examples/ParallelJIT/ParallelJIT.cpp:149-196 | Every run is finite: at most three steps for each thread, spurious wake-ups included. |
| Barrier.InvHolds | llvm-2.8/examples/ParallelJIT/ParallelJIT.cpp:199-213 | The counters, the waiting, woken and gone threads stay in one of two phases, before and after the release, in every reachable state of every schedule. |
| Barrier.WaitForThreads.Block | llvm-2.8/examples/ParallelJIT/ParallelJIT.cpp:149-173 | A worker's step under the mutex, as the new state of counters and waiting threads. |
| Barrier.WaitForThreads.ReleaseThreads | llvm-2.8/examples/ParallelJIT/ParallelJIT.cpp:178-196 | The releaser's step under the mutex. |
| Barrier.WaitForThreads.UnblockThreads | llvm-2.8/examples/ParallelJIT/ParallelJIT.cpp:199-213 | Both counters are reset and everybody waiting is woken. |
| Barrier.WaitForThreads.WakeForNoReason | llvm-2.8/examples/ParallelJIT/ParallelJIT.cpp:166-167 | A spurious wake-up lets one waiting thread return from its wait and changes no counter. |
| Barrier.WaitForThreads.RunSchedule | llvm-2.8/examples/ParallelJIT/ParallelJIT.cpp:149-213 | The barrier object, run through any schedule that the atomic steps allow, ends in a state that they reach, and the assertion on its counters holds at every call. |
| Transform.ThereAndBack | llvm-2.8/ShellScript/transform.cpp:37-62 | Both conversions, one after the other: for every solution file that puts no datum into two blocks, each datum's final block is the rank of its first one, and the maps are exactly the renumbered ones if and only if the solution had a block for every datum of the numbering other than 0 and 1. |
| TransformSpec.ConverterRoundTrip | llvm-2.8/ShellScript/transform.cpp:64-227 | The same for the maps of any consistent solution; data the solution left out turn up in block 0. |
| TransformSpec.SamePartition | llvm-2.8/ShellScript/transform.cpp:109-127 | Renumbering by rank keeps the partition: two data share a block after it if and only if they did before. |
| TransformSpec.AllocRoundTrip | llvm-2.8/ShellScript/transform.cpp:99-175 | Writing an allocation file and reading it back replaces every block number by its rank among the used ones, and changes nothing else. |
| TransformSpec.ItemsReadBack | llvm-2.8/ShellScript/transform.cpp:132-143 | The guard on fewer than four characters never drops an item that was written. |
| TransformSpec.SolRoundTrip | llvm-2.8/ShellScript/transform.cpp:64-97 | Writing a solution file and reading it back files every datum of the numbering under its block. |
| TransformSpec.ReadSolFiles | llvm-2.8/ShellScript/transform.cpp:178-227 | What any solution file is read as; it is consistent if and only if no datum is put into two blocks. |
| Transform.Converter.ReadAllocFile | llvm-2.8/ShellScript/transform.cpp:99-148 | The reading loop over lines and items gives the maps that the format defines. |
| TransformSpec.TitledLine | llvm-2.8/ShellScript/transform.cpp:124-147 | A line with a title, whatever it is, starts the next block and files its items there. |
| TransformSpec.ContinuedLine | llvm-2.8/ShellScript/transform.cpp:124-147 | A line without a title files its items in the block of the line before. |
| TransformSpec.SectionLine | llvm-2.8/ShellScript/transform.cpp:113-122 | The section of function 1 is read; that of any other function ends the reading. |
| Transform.Converter.WriteAllocFile | llvm-2.8/ShellScript/transform.cpp:150-175 | The lines written, blocks and data in ascending order. |
| Transform.Converter.ReadSolFile | llvm-2.8/ShellScript/transform.cpp:178-227 | The reading loop gives the maps that the format defines, although look-ups add entries to the numbering: from the start, each datum that some variable of the file names by its index is filed under the block of the last one, and each block holds all data that some variable puts there. |
| TransformSpec.VariableRead | llvm-2.8/ShellScript/transform.cpp:189-222 | A line with a variable's tag, anywhere, then an index, a block and a quote, files the datum of the index under the block, whatever attributes follow; data 0 and 1 are left aside. |
| TransformSpec.SolFilesPairs | llvm-2.8/ShellScript/transform.cpp:186-223 | What a whole file of such lines, and lines without a variable, files. |
| Transform.Converter.WriteSolFile | llvm-2.8/ShellScript/transform.cpp:64-97 | The lines written, although look-ups add entries to the data map. |
| Transform.Converter.GetMapinfo | llvm-2.8/ShellScript/transform.cpp:230-270 | The reading loop gives the numbering that the data file defines, in both directions: for every file of entries, the i-th entry's second field is the datum with number i. |
| TransformSpec.EntryLine | llvm-2.8/ShellScript/transform.cpp:253-265 | The second field between commas is the datum, whatever stands in the first one and behind. |
| TransformSpec.DatInOrder | llvm-2.8/ShellScript/transform.cpp:241-267 | A whole file numbers its entries in order, behind what has been numbered before; lines without an entry add nothing. |
| TransformSpec.DatIsNumbered | llvm-2.8/ShellScript/transform.cpp:239-266 | The data are numbered from 0 without gaps, every number leads to a datum, and every datum to the last of its numbers. |
| SolText.ParsePrinted | llvm-2.8/ShellScript/transform.cpp:134-137 | A number written to a stream is read back, whatever blanks stand before it. |

## Left out

- File and stream input and output, command lines, messages, and everything under DUMP or DEBUG: files are sequences of lines or characters, programs get their inputs as values.
- The real LLVM objects, the JIT, pthreads, malloc and the system unwinder: replaced by the small intermediate representation, the atomic steps under the mutex, and the frame stack.
- BrainF: head positions are unbounded, so pointers do not wrap around, and run lengths do not overflow an int; the tape size is not negative and malloc does not fail.
- BrainF: the run of a compiled program under an optimiser or with the driver's other options.
- Leb128.ReadULEB128: an int shift that does not fit is undefined in C++, and the model gives no value for it.
- Personality.HandleActionValue: filters, which the demo rejects by an assertion, are an answer of their own. On a chain that comes back to a record the source's loop never ends; the model's loop stops after more records than the memory has bytes, with the answer `Endless`.
- ExceptionTable.EmitExceptionTable: one landing pad, so records shared between landing pads, filters and the selection of call sites from machine code are not modelled, and neither is the padding in front of the table; the call sites are given, pointers have eight bytes.
- Unwinding.NestedFunctionsEndWell: each function's table is the emitted one, within the sizes that its fields can hold; the function lies inside the address space, and a call site with a landing pad guards the throwing call; a handler outside all modelled functions catches everything, as the demo's outermost invocation does; catch blocks do not throw.
- Unwinding.CreateCatchWrappedInvokeFunction: the generated prints and the type info numbering of the demo; LLVM's own verification passes.
- Allocate.CAllocate.DoAllocate: one function at a time (the source repeats it for each); a block size below 4 divides by zero in the source and is excluded; reading a missing cost counts as 0 but does not add an entry.
- EdgeAllocate.DoAllocate1: object ids are not narrowed to int, and the byte size of all objects does not wrap around.
- UseLists.Use.Set: pointer tags in `Prev` and the user they lead to, `zap` and `replaceAllUsesWith`.
- UseLists.User.SetOperand: the assertion that constants are not changed.
- Barrier.NobodyPassesEarly: schedules with spurious wake-ups are the subject of NeverEarlyIff; the pthread calls do not fail.
- Transform.ThereAndBack: numbers are unbounded; the header line with the file name must not itself hold the tag of a variable.
- Reading the trace into a cost graph, the ILP output of the allocator, and the dump of its blocks.
- Type forwarding and reference counting in the type headers, and the other headers, examples and scripts, which hold declarations or easy members.
