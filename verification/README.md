# March verification

A Dafny 4.11 model of the March language's compiler, linker, virtual machine, hash tries and
compile-time memory management, with proofs about all programs, all runs and all reachable
states. `dafny verify dfyconfig.toml` checks the whole project.

## What is modelled

**A. From program tree to running machine.** Programs are trees of literals, primitives, calls,
`if`, counted `times` and `times` with a condition, with a big-step meaning (`Language`). The
emitters of `src/compiler.c` compute branch offsets from cell counts while they write a byte
blob (`Compiler`, `Blob`, `Cells`); the database stores blobs under their hash (`Session`); the
loader turns tags into cells, one per tag (`Loader`, `Linkage`); the threaded machine runs them
with a data stack and a return stack (`Vm`, `Primitives`). What each primitive, control word and
cell is worth in plain numbers is in `PrimitiveLaws`, `LanguageLaws` and `Formats`. `Simulation` proves that running
linked cells does what the tree means, and `Runner` that a compiled, stored, linked and called
word halts with a stack exactly when the word means that stack, faults exactly when it traps,
and runs for ever exactly when it never ends; this is for words that leave the return stack to
the control words, and `Frames` proves that these restore it. `Unfolding` writes the code behind
a CID out in full; `PlainLoader` links without a cache and spells the same code. `Room` says when
memory cannot run out. `Codegen` does the same for the reference code generator and its packed
literal runs.

**B. Two hash tries.** `HashTrie`, `TrieUpdate`, `TrieMap` and `Bitmap` hold what the two
tries share: rank-compressed bitmaps, the search, updates, canonical shapes. libhamt
(`src/hamt/hamt.c`) works on a memory of tables, in place or copying the key's way
(`LibHeap`, `LibMemory`, `LibSearch`, `LibInsert`, `LibSet`, `LibRemove`, `LibHamt`); `LibRuns`
has whole runs, all versions of a persistent run, and history independence; `LibIterator` the
iterator. March's own trie (`src/hamt.c`) only ever adds nodes (`MarchNodes`, `MarchHamt`,
`MarchRuns`). `TablePool` is the pooled table allocator behind libhamt.

**C. Compile-time memory.** `RefGraph` is the reference graph, `Reach` reachability in it, and
`Liveness` the type stack, the slots, marking, and the FREE code at the end of a word.

**D. Overload resolution.** `Signatures` says what it means for a stack of types to score and to
unify, `Dictionary` picks the best entry, and `TypeCheck` applies its signature.

## What the proofs found

- The CID of a blob covers its bytes and not its kind (`src/database.c:177-220`), and a record
  that is already there is kept. A literal with the eight bytes of a four-primitive word
  therefore shadows that word: `Session.LiteralShadowsWord` gives one, and
  `Session.LosesRecordIffKindClash` says that with a collision-free hash this is the only way a
  session loses a record.
- A LIT cell holds 62 bits, while the blob and the tree hold 64: the machine runs the program
  with its literals cut to 62 bits, which is the program itself exactly when they all fit
  (`Simulation.TruncateIsIdentityIff`). The reference generator has the same limit outside its
  packed runs (`Codegen.EmittedIsMeantIff`).
- Removing an absent key from libhamt reports success, and takes one off the size, exactly when
  the search goes below the root (`src/hamt/hamt.c:557`), which is when two bound keys start out
  with the chunk of the absent one: `LibRuns.CountsAbsentIff`. `LibRuns.RunFromEmpty` computes
  the size of any run from its operations; after `LibRuns.Drift` it is 1 with two bindings.
- `ref_graph_get_node` answers an id that was never handed out, but lies below the capacity of
  the index, with the first node (`src/refgraph.c:150-161`): `RefGraph.Graph.GetNode`.
- An entry that scores best need not apply: the scorer lets an unknown type stand for a concrete
  one, and reads repeated type variables upwards where the typing step reads them downwards.
  `Signatures.ScoredAppliesIff` has the exact condition, `Signatures.ScoredMayFail` an example.

## Assumptions

SHA-256 is an abstract hash; where a result needs more of it, the lemma says so. The hash
functions of the tries are abstract: libhamt's keys differ in the low 30 bits of their
generation-0 hashes, March's in their 64-bit hashes. libhamt's values are multiples of four.
Any unused aligned address may be handed out; tables and nodes have unbounded memory, linked
code has 2^47 addresses of user space. The stacks of the machine are unbounded. A wrapper's machine
code is an abstract aligned address that enters its cells. Clocks, files, SQLite and tracing play
no part.

## Model

| member | source | states |
|---|---|---|
| Cells.LitRoundTrip | src/cells.c:20-53 | a LIT cell decodes to its value cut to 62 signed bits |
| Cells.LitExactIff62 | src/cells.c:20-53 | and to the value itself exactly when the value fits 62 bits |
| Cells.XtRoundTrip | src/cells.c:10-58 | an aligned address survives its XT cell, and address 0 is EXIT alone |
| Cells.LntRoundTrip | src/cells.c:30-69 | an LNT count below 2^61 survives its cell and no LNT reads as LIT or XT |
| Formats.CellForms | src/cells.c:10-38 | an XT cell is the address without its two low bits, a LIT cell 4v+1 and an LNT cell 8n+6, in 64 bits |
| Formats.CellBits | src/cells.c:40-69 | the tags by their low bits, and what the other bits decode to |
| Formats.LiteralRange | src/cells.c:20-22 | the literals that fit are those from -2^61 to 2^61-1, and any other keeps its remainder by 2^62 |
| Formats.WordBytes | src/cells.c:214-224 | eight bytes, the lowest first, by their weights |
| Formats.ItemBytes | src/cells.c:195-224 | the exact bytes of each kind of tag |
| Blob.ParseEncode | src/cells.c:163-224 | decoding an encoded list of items gives the list back and consumes every byte |
| Blob.EncodeParse | src/cells.c:237-264 | whatever byte string decodes is the encoding of what it decodes to: no second spelling |
| Blob.EncodeInjective | src/cells.c:163-224 | equal blobs come from equal item lists |
| Blob.ItemReadsBackIffValid | src/cells.c:195-224 | an item reads back exactly when its id is 1 to 32767 or its kind is at most 32767 |
| Blob.BlobBuffer.EncodePrimitive | src/cells.c:195-202 | appends the two tag bytes of a primitive |
| Blob.BlobBuffer.EncodeCidRef | src/cells.c:204-212 | appends the tag and the 32 bytes of a CID |
| Blob.BlobBuffer.EncodeInlineLiteral | src/cells.c:214-224 | appends the zero tag and eight little-endian bytes |
| Blob.DecodeTagEx | src/cells.c:237-264 | one decoding step: tag kind, id or kind, and the bytes it takes, as the item decoder says |
| Blob.ReadLittleEndian | src/loader.c:428-437 | the loader reads back the 64-bit value the encoder wrote, sign included |
| Language.EvalFuel | src/compiler.c:1825-2245 | more fuel never changes an outcome: the meaning of a program tree is one |
| Language.TimesCountsDown | src/compiler.c:1885-1964 | a counted loop whose body leaves the return stack alone runs it n times with n-1, ..., 0 in i0 and drops the counter |
| Language.UntilStopsAtNonZero | src/compiler.c:2036-2080 | an until loop runs body then condition and stops after the first non-zero flag |
| Language.UntilOnlyStopsAtNonZero | src/compiler.c:2036-2080 | and every finished until loop is such a row of rounds |
| Frames.TidyKeeps | src/compiler.c:1825-2245 | a program without return-stack primitives, and with i0 only inside its own loop body, leaves the return stack as it found it, however it is nested and however long it runs |
| Frames.TidyTimesCountsDown | src/compiler.c:1885-1964 | with such a body, n ( body ) times ends with a stack exactly when n runs of the body, seeing n-1, ..., 0 in i0, lead to it; the counter is gone at the end |
| Primitives.EffectsFrame | kernel/x86-64/tor.asm:9-18 | a primitive does the same on a return stack with more below it |
| PrimitiveLaws.ArithmeticLaw | kernel/x86-64/add.asm:9-18 | 1, 2 and 3 give the sum, difference and product modulo 2^64 |
| PrimitiveLaws.DivisionLaw | kernel/x86-64/div.asm:10-20 | 4 and 5 on signed words: dividend = divisor * quotient + remainder, the remainder smaller than the divisor and of the dividend's sign; a zero divisor and the one quotient that does not fit trap |
| PrimitiveLaws.ComparisonLaw | kernel/x86-64/lt.asm:8-21 | 11 to 16 give all ones or zero by the order of the signed words, each with its complement |
| PrimitiveLaws.LogicLaw | kernel/x86-64/land.asm:8-32 | 24 to 29 give truth values by the words being zero, positive or negative |
| PrimitiveLaws.BitLaw | kernel/x86-64/and.asm:9-18 | 17, 18 and 19 are and, or and exclusive or, bit by bit |
| PrimitiveLaws.NotLaw | kernel/x86-64/not.asm:9-16 | 20 flips every bit and is 2^64-1 less the word |
| PrimitiveLaws.ShiftLaw | kernel/x86-64/lshift.asm:9-19 | 21 multiplies, 22 divides and 23 divides as a signed word, rounding down, by 2 to the low six bits of the count |
| PrimitiveLaws.StackLaw | kernel/x86-64/dup.asm:9-16 | 6, 7, 9 and 46 are dup, drop, over and nothing, by position |
| PrimitiveLaws.ReturnStackLaw | kernel/x86-64/i0.asm:9-21 | 34 to 37 move words between the stacks; 43 (i0) pushes the top of the return stack and leaves it there |
| LanguageLaws.IfLaw | src/compiler.c:2100-2245 | if on a non-zero flag is its first quotation in its place, on zero its second |
| LanguageLaws.CallLaw | kernel/x86-64/docol.asm:9-26 | calling a word that leaves the return stack alone is writing its body in its place |
| LanguageLaws.CounterLaw | kernel/x86-64/i0.asm:9-21 | in any body, i0 pushes the counter on top of the return stack and leaves it there |
| LanguageLaws.CounterLoop | test/test_times.march:1 | n ( i0 ) times leaves 0, 1, ..., n-1 on top of what was there, for every n |
| Frames.TidyByNames | src/compiler.c:1825-2245 | which programs these are, by the primitives they name |
| Vm.Machine.OpBranch | kernel/x86-64/branch.asm:11-26 | the unconditional branch: the LIT cell after it is an offset in cells from the cell after that |
| Vm.Machine.OpZeroBranch | kernel/x86-64/0branch.asm:16-42 | the conditional branch: the flag is popped, the LIT cell passed, and the offset taken when the flag was 0 |
| Vm.Machine.EnterDocol | kernel/x86-64/docol.asm:15-26 | call entry: the return address goes on the return stack |
| Vm.Machine.DispatchOne | kernel/x86-64/vm.asm:93-209 | one turn of the dispatch loop is one step of the machine relation |
| Vm.StepLaw | kernel/x86-64/vm.asm:99-210 | one turn for every pattern of low bits, in numbers |
| Vm.RawLaw | kernel/x86-64/vm.asm:185-202 | a run of raw cells ends up on the data stack as it lies in memory, the last on top |
| Vm.BranchLaw | kernel/x86-64/0branch.asm:16-42 | from the cell behind them, 40 and 41 go on at its address + 8 + 8 * offset, 41 only on a zero flag |
| Vm.ExecuteLaw | kernel/x86-64/execute.asm:10-32 | 42 drops a 0 and does with any other address what a cell that holds it would do: a word is called and returns behind the caller, a primitive runs |
| Vm.Machine.DoLnt | kernel/x86-64/vm.asm:185-202 | an LNT run pushes the following raw cells, never decoding them |
| Vm.Machine.Dispatch | kernel/x86-64/vm.asm:93-166 | the loop over any number of turns is that many steps |
| Vm.StoppedStays | kernel/x86-64/vm.asm:139-146 | a machine that has halted or faulted stays as it is |
| Compiler.Emitter.CompileIf | src/compiler.c:2100-2245 | emits the code of if with both cell-count offsets, keeping one cell per tag |
| Compiler.Emitter.EmitIf | src/compiler.c:2194-2221 | the same for any two compiled quotations |
| Compiler.Emitter.CompileTimes | src/compiler.c:1825-1981 | emits the counted loop, offsets from cell counts, keeping one cell per tag |
| Compiler.Emitter.EmitTimesHead | src/compiler.c:1926-1944 | the head of the loop: the exit offset counts body and tail cells |
| Compiler.Emitter.EmitTimesTail | src/compiler.c:1952-1964 | the tail: the backward offset counts head and body cells |
| Compiler.Emitter.CompileTimesUntil | src/compiler.c:1984-2097 | emits body, condition and the backward conditional branch, keeping one cell per tag |
| Compiler.Emitter.CompileQuotation | src/compiler.c:955-1064 | a quotation is compiled into fresh buffers, its cells are its tags and an EXIT, and the old buffers come back untouched |
| Compiler.Emitter.Splice | src/compiler.c:1946-1950 | inlining a quotation adds its cells without the EXIT and all its bytes |
| Compiler.Emitter.CompileCall | src/compiler.c:794-870 | a called word is compiled, stored under the hash of its bytes and referenced by that CID |
| Compiler.Emitter.Compile | src/compiler.c:1131-1164 | compiling a whole body emits exactly its code and stores exactly its records |
| Compiler.Emitter.StoreBlob | src/database.c:177-220 | the CID is the hash of the bytes, and a record already there is kept |
| Compiler.Emitter.StoreLiteral | src/database.c:453-472 | a literal is stored as its eight little-endian bytes |
| Loader.CidCache.Put | src/loader.c:51-58 | the cache then maps the CID to the address and every other CID as before |
| Loader.CidCache.Get | src/loader.c:60-70 | the cache finds what was put last, across bucket collisions |
| Loader.LoaderState.LinkCid | src/loader.c:330-396 | on an acyclic store of proper kinds linking ends; memory at the address spells the code behind the CID written out in full, which mentions no cache; a CID is linked at most once and keeps its address; failure means something unresolvable, or a database too large for memory |
| PlainLoader.PlainLinker.LinkCid | src/loader.c:330-396 | linking with no cache spells the same code written out in full |
| PlainLoader.PlainLinker.LinkCode | src/loader.c:401-518 | the same for one blob, every reference linked anew |
| Unfolding.DenotesUnfolds | src/loader.c:449-486 | code whose references go through the cache is the code with every reference followed |
| Unfolding.SpelledCell | src/loader.c:330-518 | what spelled code is in memory, cell by cell: a literal v is 4v+1, code and primitives are the addresses they start at, and a 0 ends it |
| Unfolding.SpellsExtends | src/loader.c:330-396 | and stays so while more is linked |
| Loader.LoaderState.Refresh | src/loader.c:337-348 | a loader stays valid, cache and all, while the database grows |
| Room.Space.AllocCells | src/loader.c:489-503 | cells at a free place, or none when no place is left |
| Room.Space.CreateDocolWrapper | src/loader.c:265-310 | a wrapper at a free aligned address for a cell stream |
| Room.RoomLeft | src/loader.c:401-518 | while memory holds each linked blob once and the database is small enough for it, cells, a wrapper and a copy always find a place |
| Room.ThousandBlobsFit | src/loader.c:401-518 | a thousand blobs of sixteen kilobytes have room |
| Loader.LoaderState.LinkCode | src/loader.c:401-518 | one cell per tag and an EXIT, each cell what its tag denotes |
| Loader.LoaderState.LinkItem | src/loader.c:428-486 | the cell for one decoded tag |
| Loader.LoaderState.Install | src/loader.c:489-518 | the cells and a wrapper that enters them are in the image, and nothing older has changed |
| Linkage.DenotesExtends | src/loader.c:330-396 | what an address denotes survives all later linking |
| Loader.CodeInstalled | src/loader.c:489-518 | cells written at a free place are read back as the code they spell |
| Simulation.TruncateIsIdentityIff | src/cells.c:20-53 | cutting literals to 62 bits changes nothing exactly when every literal fits |
| Simulation.BranchLands | kernel/x86-64/branch.asm:11-26 | a branch by a cell offset lands on the cell the offset counts to |
| Simulation.IfCells | src/compiler.c:2194-2221 | where the cells of if stand; the branches at its two offsets go on at the false branch and past the end |
| Simulation.TimesCells | src/compiler.c:1926-1964 | where the cells of times stand; the branches at its offsets go on at the counter removal and at the loop head |
| Simulation.UntilCells | src/compiler.c:2055-2080 | where the cells of until stand; the branch at its offset goes on at the first cell of the body |
| Simulation.Simulate | src/compiler.c:1131-1164 | running the linked cells of a program tree from any frame reaches exactly its big-step outcome, ends just past the fragment and leaves the return stack below untouched |
| Simulation.SimulateIf | src/compiler.c:2100-2245 | the same for if |
| Simulation.SimulateTimesLoop | src/compiler.c:1885-1964 | the same for a counted loop, iteration by iteration |
| Simulation.SimulateUntil | src/compiler.c:2036-2080 | the same for an until loop |
| Simulation.SimulateCall | kernel/x86-64/docol.asm:15-26 | the same for a call: the word is entered, runs and returns to its caller |
| Simulation.SimulateBody | kernel/x86-64/vm.asm:139-152 | a whole linked word runs to its EXIT and returns |
| Session.StoredIffAgree | src/database.c:176-220 | a run of insert-or-ignore stores keeps every record exactly when no two records disagree under one CID |
| Session.FirstKept | src/database.c:177-220 | of the records under a new CID the first is kept |
| Session.PutAllKeeps | src/database.c:177-220 | and what is under a CID already stays |
| Session.LosesRecordIffKindClash | src/database.c:177-220 | with a collision-free hash a record is lost exactly when a literal and a word have equal bytes, because the CID does not cover the kind |
| Session.LiteralShadowsWord | src/database.c:177-220 | the literal 3377751260790796 shadows the word of four dups: a concrete program whose record is lost |
| Session.SessionStoreIsGood | src/database.c:177-220 | what a session leaves in the database is acyclic and of proper kinds, which is what the linker takes for granted |
| Session.SessionResolves | src/loader.c:330-396 | with every primitive registered, every CID of a session links |
| Session.ConditionsByNames | src/compiler.c:1825-2245 | what is asked of a word: it names primitives of the dispatch table only, and none of branch, 0branch and execute |
| Session.RecordsClosed | src/compiler.c:1131-1164 | everything the compiled code refers to was stored before it |
| Session.StoredFromRecords | src/database.c:177-220 | storing a program's records without clashes leaves the whole program in the database |
| Runner.BootstrapRun | src/runner.c:106-120 | the machine after the bootstrap stream, for each outcome of the word |
| Runner.WordRuns | src/runner.c:106-120 | compiler, linker and machine: for a word that leaves the return stack to the control words, the run halts with a data stack, and an empty return stack, exactly when the word means it |
| Runner.FramedWordRuns | src/runner.c:106-120 | for any other word: what it means is what the run halts with, and the converse while it stays in its frame |
| Runner.SmallWordRuns | src/runner.c:106-120 | for literals of 62 bits, the word as written |
| Runner.CounterWordRuns | kernel/x86-64/i0.asm:9-21 | the word ( i0 ) times, compiled, linked and called on any n, halts with 0, 1, ..., n-1 on top of what was there |
| Runner.NumberedCounterRuns | test/test_times.march:1 | n ( i0 ) times as one word, for every n that fits its cell |
| Runner.WordRunsForever | src/runner.c:106-120 | the machine never stops exactly when the word never ends |
| Runner.WordFaults | src/runner.c:106-120 | the machine faults exactly when the word traps |
| Runner.ReportsMean | src/runner.c:33-141 | a finished run reports the meaning of the word, a fault means the word traps |
| Runner.FinishesInTime | src/runner.c:106-120 | a word with a meaning is reported with it once there are turns enough |
| Runner.Runner.constructor | src/runner.c:12-24 | an empty session |
| Runner.Runner.Execute | src/runner.c:33-141 | compile, store, link with what earlier runs linked, and run: the report is exactly what the machine shows after so many turns, or no memory when the database is too large for it; the session stays valid for the next run |
| Runner.RunMachine | src/runner.c:119-119 | the report is the machine after so many turns |
| Runner.LinkAndRun | src/runner.c:106-120 | the same from a CID in the database of a loader that has linked before |
| Runner.CompileWord | src/runner.c:37-104 | the word is stored under the hash of its code, after everything it needs |
| Codegen.EmittedIsMeantIff | resources/codegen.ml:44-66 | what is generated pushes what the expression says exactly when every literal outside a run fits 62 bits |
| Codegen.ListIsMeantIff | resources/codegen.ml:69-97 | the same for lists: in a run any 64-bit literal is exact |
| Codegen.GenListDecodes | resources/codegen.ml:69-97 | the cells decode to the emitted actions: raw cells of a run are never read as tags |
| Codegen.GenExprDecodes | resources/codegen.ml:44-66 | the same for an expression |
| Codegen.NamesLead | resources/codegen.ml:44-64 | a known name executes its address, an unknown one its stand-in, and a name with arguments always its stand-in |
| Codegen.StreamRuns | kernel/x86-64/vm.asm:93-202 | running a decoded stream performs its actions in order |
| Codegen.GeneratedWordRuns | resources/codegen.ml:100-108 | a generated word runs to the stack its body means and returns |
| Bitmap.CountBits | src/hamt.c:31-38 | the counting loop counts the set bits |
| Bitmap.HasIsBit | src/hamt.c:221-222 | a bit is set when dividing by its weight leaves an odd number |
| Bitmap.BitsAreWeights | src/hamt.c:221-222 | setting and clearing a bit adds and subtracts its weight |
| Bitmap.BelowIsRemainder | src/hamt.c:41-45 | masking below a bit is the remainder by its weight |
| Bitmap.RankOrder | src/hamt.c:41-45 | ranks of set bits are in the order of the bits |
| Bitmap.RankInjective | src/hamt.c:41-45 | two set bits have different ranks |
| Bitmap.BitAt | src/hamt.c:41-45 | every rank below the population count is the rank of a set bit |
| Bitmap.RankSet | src/hamt.c:228-260 | after setting a bit, ranks above it move up by one |
| Bitmap.RankClear | src/hamt.c:358-386 | after clearing a bit, ranks above it move down by one |
| HashTrie.FindIffKey | src/hamt/hamt.c:334-388 | in a well-formed trie the search finds a key exactly when the key is in it |
| HashTrie.OneShapeNodes | src/hamt/hamt.c:483-562 | two compact tries with the same bindings have the same bitmaps, rows and order |
| HashTrie.TwoKeys | src/hamt/hamt.c:503-535 | no table below the root stands for a single value: it has two keys |
| HashTrie.ShapeKeeps | src/hamt/hamt.c:222-231 | where tables lie does not matter to any binding |
| TrieUpdate.InsertedAt | src/hamt/hamt.c:154-175 | after inserting at its rank every chunk finds its row at its new rank |
| TrieUpdate.DeletedAt | src/hamt/hamt.c:177-201 | and likewise after deleting |
| TrieUpdate.RowInserted | src/hamt/hamt.c:262-282 | a new row binds its key and changes no other |
| TrieUpdate.RowDeleted | src/hamt/hamt.c:507-535 | a deleted row unbinds its key and no other |
| TrieUpdate.RowReplaced | src/hamt/hamt.c:540-560 | an update below a row is that update of the whole |
| TrieUpdate.SingleValue | src/hamt/hamt.c:203-220 | a table with a single value row says what the value says, so gathering keeps the bindings |
| TrieUpdate.PairNode | src/hamt/hamt.c:315-329 | where two keys part, one table holds both in chunk order |
| TrieUpdate.ChainNode | src/hamt/hamt.c:306-314 | while they go together, a table with one row keeps both bindings |
| TrieUpdate.KeysPart | src/hamt/hamt.c:295-314 | keys with distinct used hash bits part within the depths the first hash supplies |
| TrieUpdate.ChunksAreDigits | src/hamt.h:97-100 | chunks are the digits of the hash to base 32, the lowest first |
| TrieUpdate.KeysAreFew | src/hamt/hamt.c:103-117 | there are no more such keys than used hash values |
| TrieMap.UpdateIsUpdate | src/hamt/hamt.c:438-443 | an update of the search is an update of the finite map |
| TrieMap.LeafIffFound | src/hamt/hamt.c:719-750 | the walk row by row meets exactly the bindings |
| TrieMap.LeavesOnce | src/hamt/hamt.c:719-750 | and none twice |
| TrieMap.CountAfter | src/hamt.c:251-260 | how an update changes the number of bindings below a node |
| LibHeap.ReplaceInPlace | src/hamt/hamt.c:406-436 | rewriting one row and tables below it changes the trie in memory as it changes the trie |
| LibHeap.ShapeInMemory | src/hamt/hamt.c:483-562 | two memories that hold tries of one shape agree on every row below |
| LibHeap.ReplaceUpdates | src/hamt/hamt.c:406-436 | an update at the end of the key's way is an update of the whole |
| LibHeap.ReplaceCompact | src/hamt/hamt.c:503-562 | compactness survives when a table is not replaced by a value |
| LibHeap.HoldsFrame | src/hamt/hamt.c:222-231 | a trie is not affected by changes outside its own tables |
| LibMemory.Memory.TableAllocate | src/hamt/hamt.c:133-142 | any free aligned address; nothing for size 0 |
| LibMemory.Memory.TableFree | src/hamt/hamt.c:144-152 | a table in use is freed, with the row count it was allocated with |
| LibMemory.Memory.TableExtend | src/hamt/hamt.c:154-175 | a larger table with the old rows around a gap, the old table freed, the anchor redirected |
| LibMemory.Memory.TableShrink | src/hamt/hamt.c:177-201 | a smaller table without one row, or none at all |
| LibMemory.Memory.TableGather | src/hamt/hamt.c:203-220 | a value row pulled up into the anchor, its table freed |
| LibMemory.Memory.TableDup | src/hamt/hamt.c:222-231 | a fresh copy of the anchor's table |
| LibSearch.SearchRecursive | src/hamt/hamt.c:334-388 | ends at the node the key's chunks lead to with the right status; with a path, every table on the way is new, the copy stands for the same trie and nothing old is touched |
| LibInsert.InsertKv | src/hamt/hamt.c:262-282 | the anchored trie has become the one with a value row at the chunk's rank |
| LibInsert.InsertTable | src/hamt/hamt.c:284-332 | ends within 30 hash bits; the old and the new value stand in a chain of new tables in place of the old value |
| LibInsert.ChainPairs | src/hamt/hamt.c:306-331 | a chain that ends in a table for both keys is a compact subtrie of exactly both bindings |
| LibSet.SetFound | src/hamt/hamt.c:418-434 | all three ends of a search: the key is bound, nothing else changes, the trie stays compact, and only the tables the search ended at are touched |
| LibSet.FoundIsFind | src/hamt/hamt.c:334-388 | what a search says is what the trie says |
| LibRemove.RemoveValue | src/hamt/hamt.c:507-535 | the value row goes; the table is shrunk or the other value gathered, and the result is compact |
| LibRemove.RemoveBelow | src/hamt/hamt.c:540-560 | the recursive call and the gathering on the way back, pointer test at the root included |
| LibRemove.RemRecursive | src/hamt/hamt.c:483-562 | the key is unbound and nothing else, the shape stays compact, an absent key changes nothing, and the status is NOTFOUND exactly when the search ended in the root's own row |
| LibHamt.Hamt.constructor | src/hamt/hamt.c:233-246 | the empty map |
| LibHamt.Hamt.Get | src/hamt/hamt.c:390-404 | the bound value, or NULL |
| LibHamt.Hamt.Set | src/hamt/hamt.c:438-443 | the map with the key bound, in place; only this map's tables may change; the size grows only for new keys |
| LibHamt.Hamt.Remove | src/hamt/hamt.c:575-590 | the map without the key; returns the old value; an absent key leaves memory alone, and is counted in the size exactly when the search went below the root |
| LibHamt.Hamt.PSet | src/hamt/hamt.c:455-481 | a new map with the key bound, while every table that existed keeps its contents |
| LibHamt.Hamt.PRemove | src/hamt/hamt.c:592-607 | a new map without the key, likewise |
| LibHamt.Hamt.Search | src/hamt/hamt.c:445-453 | the copied way below a new root row |
| LibHamt.StillAnchored | src/hamt/hamt.c:445-481 | every map in spared tables is still there |
| LibRuns.Run | src/hamt/hamt.c:438-443 | any run of sets and removes ends in the map it means, and has counted as removed exactly the absent keys computed from the operations |
| MapRuns.LastDecides | src/hamt/hamt.c:575-607 | what a run means: the last operation on a key decides what it is bound to |
| MapRuns.Untouched | src/hamt/hamt.c:575-607 | and a key no operation is about is bound as before |
| LibRuns.LowBitsDiffer | src/hamt/hamt.c:104-114 | what a run asks of its keys: the low 30 bits of their hashes differ |
| LibRuns.RunVersions | src/hamt/hamt.c:455-481 | a persistent run keeps all its versions at once, each with its own bindings and its own count of absent keys removed |
| LibRuns.CountsAbsentIff | src/hamt/hamt.c:483-562 | removing an absent key is counted exactly when two keys that are bound start out with its chunk |
| LibRuns.PresentOnly | src/hamt/hamt.c:575-590 | a run that removes only present keys counts none |
| LibRuns.RunFromEmpty | src/hamt/hamt.c:575-590 | after a run from the empty map the size is the number of bindings less those removes, modulo 2^64, and exact only when there are none |
| LibRuns.Drift | src/hamt/hamt.c:557-558 | after binding 0 and 32 and removing 64 the size is 1 with two bindings |
| LibRuns.HistoryIndependent | src/hamt/hamt.c:483-562 | two maps under one hash function with equal bindings have one shape, whatever operations made them: from either root, every way down meets the same value with the same key, or a table with the same bitmap, or nothing |
| LibRuns.Survives | src/hamt/hamt.c:455-481 | a map nobody touched survives other maps' persistent operations |
| LibIterator.Iterator.constructor | src/hamt/hamt.c:693-703 | everything is still to be shown |
| LibIterator.Iterator.Next | src/hamt/hamt.c:719-750 | shows the first binding left and takes it off; becomes invalid when none is left |
| LibIterator.Walk | src/hamt/hamt.c:693-750 | create and next until invalid give all bindings in row order |
| LibIterator.WalkIsComplete | src/hamt/hamt.c:693-750 | these are the map's bindings, each exactly once |
| MarchNodes.StillRepresented | src/hamt.c:51-90 | a growing store keeps every trie |
| MarchNodes.OneTrie | src/hamt.c:300-302 | a root stands for one trie only, so an unchanged child pointer means an unchanged child |
| MarchNodes.RowEmptied | src/hamt.c:396-423 | a child that became empty held only the removed key, so dropping its slot unbinds that key alone |
| MarchNodes.Nodes.AllocNode | src/hamt.c:51-79 | a node at a new, even, non-null address |
| MarchNodes.Nodes.CloneNode | src/hamt.c:82-90 | a copy of a node at a new address |
| MarchHamt.Get | src/hamt.c:120-180 | the bound value or 0, for any root |
| MarchHamt.SlotInserted | src/hamt.c:228-260 | the node with a leaf inserted at its rank stands for the trie with the key bound, count included |
| MarchHamt.SlotDeleted | src/hamt.c:358-386 | and the node without a slot for the trie without the key |
| MarchHamt.NextLevel | src/hamt.c:273-282 | keys with distinct hashes that meet at a level have a next level below 13 |
| MarchHamt.SetImpl | src/hamt.c:202-316 | binds the key to the value with its low bit cleared and nothing else, in new nodes only; inserted tells a new key; counts stay exact |
| MarchHamt.SetInSlot | src/hamt.c:262-315 | the cases of an occupied slot: overwrite, push both keys down, go into the child |
| MarchHamt.RemoveImpl | src/hamt.c:334-437 | unbinds exactly the key in new nodes only; for an absent key returns the same node and makes nothing |
| MarchHamt.WithoutSlot | src/hamt.c:358-386 | the slot array without a slot, or no node when it was the last |
| MarchHamt.PushedDown | src/hamt.c:276-282 | two leaves made one after the other in an empty child stand for both keys |
| MarchRuns.NewStands | src/hamt.c:96-100 | NULL stands for the empty map |
| MarchRuns.HamtGet | src/hamt.c:120-180 | the map's value or 0 |
| MarchRuns.HamtSet | src/hamt.c:190-200 | the new root stands for the map with the key bound; the store only grows |
| MarchRuns.HamtRemove | src/hamt.c:326-332 | the new root stands for the map without the key; for an absent key it is the old root |
| MarchRuns.HamtSize | src/hamt.c:102-114 | the cached count is the number of bindings while that is under 2^32, and in general that number modulo 2^32 |
| MarchRuns.EveryCount | src/hamt.h:21-28 | every node a root leads to through its slots counts the bindings below it, exactly while they are under 2^32 |
| MarchRuns.OldRootsStand | src/hamt.c:81-90 | every older root keeps its meaning |
| MarchRuns.OneMeaning | src/hamt.c:120-180 | a root stands for one map |
| MarchRuns.DistinctHashes | src/hamt.h:98-100 | distinct 64-bit hashes differ in the chunks of levels 0 to 12 |
| MarchRuns.RunVersions | src/hamt.c:190-332 | after a run every root ever returned stands for what the operations up to it mean |
| RefGraph.Graph.AllocNode | src/refgraph.c:77-148 | the next id, found through the index from now on, however the index has to grow |
| RefGraph.Graph.GetNode | src/refgraph.c:150-161 | an allocated id finds its node; an id never handed out but below the index capacity finds node 0 |
| RefGraph.Graph.AddChild | src/refgraph.c:163-186 | for a known parent the new child comes after its old ones; id, slot, type and escape flag stay, and every other node is as it was |
| RefGraph.Graph.MarkEscaped | src/refgraph.c:188-195 | the node is escaped |
| RefGraph.Graph.GrowIndex | src/refgraph.c:107-123 | the table is doubled until the id fits and no further, old entries kept and new ones 0 |
| RefGraph.Graph.Clear | src/refgraph.c:60-71 | an empty graph in the same table |
| Reach.ClosedIsLive | src/compiler.c:460-480 | a set of live nodes that holds the roots and is closed under edges is the set of live nodes |
| Liveness.MarkNode | src/compiler.c:416-429 | on any graph, cycles included, marks the node, only nodes it reaches, and leaves no newly marked node with an unmarked child |
| Liveness.Tracker.MarkLive | src/compiler.c:453-480 | exactly the nodes reachable from the type stack and the escaped nodes are marked |
| Liveness.Tracker.EmitDead | src/compiler.c:490-505 | LIT slot and FREE for every unmarked node in node order |
| Liveness.Tracker.EmitFree | src/compiler.c:432-508 | FREE for the slots of exactly the unreachable nodes |
| Liveness.FreeIsSafe | src/compiler.c:490-505 | each dead slot once and no live slot |
| Liveness.Tracker.AllocateSlot | src/compiler.c:339-352 | the first free slot, or none when all 256 are taken |
| Liveness.Tracker.PushHeapValue | src/compiler.c:362-388 | a heap value with a slot and a node of its own, when there is room for both |
| Liveness.Tracker.Drop | src/compiler.c:2312-2354 | drops the top entry; the slot stays in use |
| Liveness.Tracker.Dup | src/compiler.c:2361-2392 | copies the whole top entry |
| Liveness.Tracker.Swap | src/compiler.c:2400-2428 | exchanges the two top entries |
| Liveness.Tracker.Over | src/compiler.c:2435-2466 | copies the second entry |
| Liveness.Tracker.Rot | src/compiler.c:2474-2504 | a b c becomes b c a |
| Liveness.CompileWord | src/compiler.c:1127-1181 | after any acts on the type stack and the graph the emitted code frees each dead slot exactly once and no reachable one: never the slot of a value linked, in however many steps, under one that is still on the type stack, and always that of a value nothing refers to |
| Liveness.LinkMakesEdge | src/refgraph.c:163-186 | linking two heap values makes an edge between their nodes |
| Liveness.EdgesStay | src/refgraph.c:163-186 | and no later act takes it away |
| Liveness.ChainIsLive | src/compiler.c:416-480 | what was linked, in however many steps, under a value that is still on the type stack is live |
| Liveness.ChainIsKept | src/compiler.c:490-505 | and its slot is not freed |
| Liveness.UnreferencedIsDead | src/compiler.c:453-480 | what no node has as a child, nothing on the type stack names and has not escaped is dead |
| Liveness.LeaveEscapes | src/refgraph.c:188-195 | a value that leaves the word marks its node as escaped |
| Liveness.EscapeStays | src/compiler.c:471-480 | which no act takes back, and an escaped node is live |
| Liveness.FreeCodeLaw | src/compiler.c:490-505 | two items for each slot, LIT slot and FREE, in order |
| Liveness.KeepsLinked | src/compiler.c:1127-1181 | the second of two heap values is linked under the first and dropped: nothing is freed |
| Liveness.FreesDropped | src/compiler.c:1127-1181 | a heap value made and dropped is freed: LIT 0 FREE |
| TablePool.Pool.constructor | src/hamt/cache.c:52-79 | an empty pool with one chunk |
| TablePool.Pool.Alloc | src/hamt/cache.c:109-160 | a table apart from every live one: the head of the free list, or the next of the newest chunk |
| TablePool.Pool.MakeRoom | src/hamt/cache.c:126-148 | a new chunk of twice the size exactly when the mark is at the end |
| TablePool.Pool.Free | src/hamt/cache.c:162-177 | the table is the head of the free list |
| TablePool.Pool.ClientWrite | src/hamt/cache.c:162-177 | writes into a live table never reach the free list |
| TablePool.PoolIsDisjoint | src/hamt/cache.c:109-177 | live and free tables are pairwise disjoint, each inside one chunk, and together all that was carved |
| TablePool.FirstFacts | src/hamt/cache.c:127-127 | the equality test on the mark is exact: short of the end, a whole table fits |
| TablePool.TablesApart | src/hamt/cache.c:149-153 | distinct tables share no row |
| Signatures.ScoredApplies | src/dictionary.c:133-179 | with known types, what scores also unifies |
| Signatures.ScoredAppliesIff | src/compiler.c:511-579 | in general, what scores unifies exactly when no unknown type stands under a concrete input and a variable's types are all the same |
| Signatures.ScoredMayFail | src/dictionary.c:171-172 | an unknown type scores against a concrete one and then does not unify |
| Signatures.ResolveIsUnifier | src/compiler.c:563-576 | the unifier sends an input variable to the type it stands for |
| Dictionary.MatchScore | src/dictionary.c:133-179 | the score of the signature, which Signatures.MatchesIff and Signatures.ScoreCounts say in numbers |
| Signatures.MatchesIff | src/dictionary.c:133-179 | what matches at all: each input is equal, a variable or any or stands over an unknown type, and the types under a variable are unknown up to a point and one type from there |
| Signatures.ScoreCounts | src/dictionary.c:150-176 | a score is 100, 80, 50 and 10 times the number of equal types, variables, unknown types and anys |
| Signatures.OneInputDecides | src/dictionary.c:150-176 | where two matching signatures differ in one input, equal type comes before variable, variable before unknown type, unknown type before any |
| Signatures.ExactScoresMost | src/dictionary.c:150-176 | no signature scores more than 100 for each input, and only the one that names the types on the stack scores that |
| Signatures.ExactWins | src/dictionary.c:150-176 | of signatures of one arity the one that names exactly the types on the stack scores strictly more than every other |
| Signatures.AppliesIff | src/compiler.c:511-561 | what the typing step accepts, in type numbers: equal, any on one side, or the mutable array or string for the immutable one |
| Dictionary.Dict.Add | src/dictionary.c:60-115 | newest first; the priority is 100 for each i64 or u64 input and 10 for each any |
| Dictionary.Dict.Lookup | src/dictionary.c:117-130 | the newest entry of the name, through its bucket; none when the name has no entry |
| Dictionary.Dict.LookupTyped | src/dictionary.c:181-220 | the best of all entries of the name, none when none matches; if some entry names exactly the types on the stack, the chosen one has as many inputs or more, and with as many it names them too |
| Dictionary.OneBest | src/dictionary.c:200-208 | there is one such entry: the others score less, or as much with less priority, or as much with the same priority and are older |
| Dictionary.BestOfName | src/dictionary.c:181-220 | the best entry met along the bucket is the best of the whole dictionary |
| Dictionary.ChainHasAll | src/dictionary.c:60-115 | a name's bucket has all its entries in order |
| TypeCheck.ApplySignature | src/compiler.c:511-579 | succeeds exactly when the top of the stack unifies with the inputs; then the stack below is as it was and each output lies on it in turn, up to 256 entries: a concrete type as declared, a variable as the known type of its inputs, or as itself when it has none |
| TypeCheck.PopInputs | src/compiler.c:532-561 | pops and checks from the top |
| TypeCheck.PushOutputs | src/compiler.c:563-576 | the same, for the bindings the inputs made |
| TypeCheck.PushedAt | src/compiler.c:326-336 | what lies at each place after pushing, and what is lost beyond 256 |
| TypeCheck.PushedFits | src/compiler.c:326-336 | while there is room nothing is lost on overflow |
| TypeCheck.ResolveWord | src/compiler.c:720-740 | the chosen entry is the best one, and with known types on the stack it applies |

## Left out

- Vm.Machine.Dispatch: does not model overflow of the machine's two 8 KB stacks; they are unbounded sequences.
- Primitives.EffectsFrame: covers the primitives of the model. `swap`, `rot`, `!`, `c!`, `2>r` and `2r>` use the instruction pointer's register as scratch, memory access and the primitives that call C need a heap; the model faults on all of them, and on an unaligned or unknown address.
- Loader.LoaderState.LinkCid: needs an acyclic store of proper kinds, which `Session.SessionStoreIsGood` proves of what a session stores, and does not model data blobs of other lengths as values.
- Room.Space.AllocCells: does not model `malloc` or `mmap` failing before the address space is full; `PlainLoader.PlainLinker.LinkCid` only reports that memory ran out, since without a cache nothing bounds what it needs.
- Compiler.Emitter.CompileTimes: uses the ids of the built-in primitives. The original takes `>r`, `r@`, `-`, `0branch` and the rest from the newest dictionary entry of that name (`src/compiler.c:1885-1893`); after a user redefinition such an entry has primitive id 0 (`src/compiler.c:2732`) and would be emitted as the tag of a literal. The same holds of `Compiler.Emitter.CompileIf` and `Compiler.Emitter.CompileTimesUntil`.
- Runner.Runner.Execute: compiles the word on every run; the original keeps its CID in the dictionary entry, which stores nothing new the second time either.
- LibHamt.Hamt.Remove: counts some absent keys as removed, as the original does; the condition is in `LibRuns.CountsAbsentIff`.
- LibMemory.Memory.TableAllocate: never fails; neither do `MarchNodes.Nodes.AllocNode`, `RefGraph.Graph.AllocNode` and `TablePool.Backing.Malloc`.
- LibHamt.Hamt.Set: needs keys that differ in the low 30 bits of their generation-0 hashes, because `src/hamt/hamt.c:296` and `src/hamt/hamt.c:108` use different generations beyond them.
- LibIterator.Walk: the map is not changed while it is walked.
- MarchRuns.HamtSize: the cached count is a 32-bit field, so the size is the cardinality modulo 2^32.
- TablePool.Pool.Free: of a live table, as the original demands; the statistics and the array of 32 pools are not modelled.
- RefGraph.Graph.AllocNode: does not model the capacity of the node and children arrays, nor node ids beyond 32 bits (a word has at most 256 slots).
- Liveness.CompileWord: edges and escapes are single acts; the loop of `compile_rbracket` that adds the edges of an array literal (`src/compiler.c:1623-1668`) is not modelled, nor are the disabled call sites (`src/compiler.c:1181`, `src/compiler.c:1652`).
- TypeCheck.ResolveWord: words that are neither immediate nor still to be compiled; handlers, addresses and CIDs of dictionary entries and the specialization cache are not modelled.
- Files and SQLite, command line, tracing, crash reports, and the bytes of machine code.
- Token capture, nested parentheses, and quotations left on the quotation stack: programs start as trees.
- The contents of the legacy cell buffer: only its length enters the offsets.
- Array, string, buffer and map values of the language.
- LST cells: the encoder and the machine shift by different amounts (`src/cells.c:25-27`, `kernel/x86-64/vm.asm:171-174`).
- Type soundness across `if`, `times` and calls; the original does not compare declared signatures with bodies either.
- `hamt_delete` and `hamt_free` on tries that share nodes, the parsers, `resources/typecheck.ml` and the Rust wrapper.
