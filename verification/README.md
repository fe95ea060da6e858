# Rain interpreter: verified model

A Dafny model of the Rain interpreter and of the tooling that reads its traces,
with proofs of what the design relies on:

* **Deploying and evaluating.** The deployer serializes the parser's output and
  walks the bytecode once, simulating stack heights (`Integrity`). The
  interpreter deserializes it and runs it with no bounds check at all, on stacks
  that share one flat memory, calling between sources in place (`Interpreter`,
  `Deployment`). `Semantics` is a reference machine in which every access is
  checked; `Soundness` proves that accepted bytecode never fails a check,
  `Conformance` that only bytecode whose runs all conform is accepted, `Highwater`
  and `Continuations` which slots are safe, and the interpreter is proved to compute
  exactly what that machine computes.
* **Tracing.** One record per finished source goes to the tracer (`Tracing`).
  The Rust side decodes the records, reverses them, rebuilds call paths, prints
  them as column names, parses them back and looks values up (`TraceTable`,
  `DottedPaths`). The call tree itself is the specification (`TraceTree`,
  `TracedRuns`); the printer, the search and the table are proved to agree
  (`TracePaths`).
* **State.** The persistent store with its hashed namespaces (`Store`), and the
  in-memory cache and overlay over it (`StateCache`).
* **Lookup structures.** The bloom and rank word table (`ParseMeta`), two-byte
  pointer tables and their two unaligned loads (`PointerTables`), the fork-id map
  (`Forker`), and the bit-window ops (`Bitwise`).

`Words` and `Bytecode` hold the byte-level facts: every masked shift of a loaded
word is the value of a slice of memory, and any cursor whose lane covers an op
decodes that op. `Layout` proves that the layout which the structural check asks for
is exactly the one that source lists are written in. Objects the source mutates are classes here, and its loops are
loops, each proved against a function that the lemmas are about.

Every number is unbounded unless its width matters: bytes, 256-bit words, 16-bit
source indices and the wrap of a path's item index at the top of `usize` are
explicit.

## Where code and documentation disagree

The model follows the code.

* The word table's comment (`src/generated/RainterpreterParser.pointers.sol:41-43`)
  says a failed probe increments the seed. The table's data stores a seed beside
  each bloom filter (0x88, then 0x00), so `ParseMeta` gives every level its own.
* The extern base contract says its constructor keeps the modulo in `extern` from
  dividing by zero (`src/abstract/BaseRainterpreterExtern.sol:30-33`). A one-byte
  table passes the constructor and has no whole entry:
  `PointerTables.HalfEntryTableConstructs` gives the case and
  `PointerTables.ExternStaysInTable` the exact condition.

## Exact conditions

Some properties hold only under a condition, which is proved to be the right one:

* **Highwater.** A slot keeps its value in every accepted continuation if it is
  below the highwater and, as long as bytecode has room to go on, only then
  (`Continuations.SafeIffBelowHighwater`; `Continuations.FullSourceIsSafe` is the
  case with no room). A stack read
  raises the highwater to the slot it reads, so it protects the slots under that
  one, and the slot itself only if it was protected already
  (`Continuations.ReadSlotSafeIff`; `Highwater.ReadSlotCanChange` is an instance).
* **Acceptance.** The deployer accepts bytecode if and only if its sources fill it
  exactly and all its runs keep to what it declares
  (`Deployment.CheckedIffConforms`).
* **Column search.** Where one parent calls the same source twice, the search for a
  column's name answers from the first such trace; it returns the cell under the
  column if and only if that trace has the same item there
  (`TracePaths.ColumnSearchIsExact`; `TracePaths.RepeatedEdgeMisleads` is a result
  where it has not).
* **Fork ids.** A fork is recorded in the forker's map before its backend creates it
  (`crates/eval/src/fork.rs:211-227`), so a refused creation puts the ids of map and
  backend out of step. They agree everywhere if and only if nothing recorded was
  refused (`Forker.AgreesIffNeverRefused`), and a roll goes by the active fork's own
  entry if and only if that fork was added before the first refusal
  (`Forker.RollIsExact`; `Forker.RefusalMisleads` is a run where it does not).
* **Empty bytecode.** Deserializing reads the byte after it as the source count;
  the stacks found are the declared ones if and only if that byte is zero
  (`Deployment.SizesAreDeclared`; `Deployment.EmptyBytecodeMiscounted` is the case
  where it is not).

## Model

| member | source | states |
|---|---|---|
| Words.Window | src/lib/eval/LibEval.sol:99-152 | every masked shift of a big-endian word is the value of the bytes it keeps |
| Words.ValToBytes | src/lib/state/LibInterpreterState.sol:136 | writing a number as big-endian bytes and reading it back keeps it modulo the width |
| Bytecode.LaneIsOp | src/lib/integrity/LibIntegrityCheck.sol:136-155 | any cursor, aligned or shifted back, whose lane covers an op of the bytecode decodes that op |
| Bytecode.OffsetLoads | src/lib/eval/LibEval.sol:60-69 | the two-byte offset that the loops load finds the header of the source |
| Bytecode.HeaderByteLoads | src/lib/state/LibInterpreterStateDataContract.sol:119-123 | the header bytes that the loops load are the bytecode's |
| Bytecode.IoByteIsOperandTop | src/lib/integrity/LibIntegrityCheck.sol:147-155 | the counts in the io byte are bits 16-19 and 20-23 of the operand, so the check and `call` read the same counts |
| Bytecode.OpFields | src/lib/op/call/LibOpCall.sol:123-126 | in an op's four bytes the first is the opcode, the nibbles of the second are the counts, and the last two are the big-endian index |
| Bytecode.OperandPacks | src/lib/op/call/LibOpCall.sol:82-87 | the index, input and output fields of a packed operand are the numbers it was packed from |
| Bytecode.SourceFields | test/abstract/OperandTest.sol:31-46 | the count, the offset and the four header bytes, in order, are the source's place, ops count, allocation, inputs and outputs |
| Layout.EncodedDecodes | src/lib/parse/LibParseState.sol:911-1001 | what a source list is written as has a tight layout and decodes to that list |
| Layout.TightIsEncoded | src/lib/integrity/LibIntegrityCheck.sol:106-112 | a tight layout is exactly what its own sources are written as, with every byte accounted for |
| Layout.TightIffEncoded | src/lib/integrity/LibIntegrityCheck.sol:106-112 | bytes have a tight layout if and only if some source list is written so |
| Layout.LooseLayoutsRefused | audit/2026-03-01-01/pass1/LibIntegrityCheck.md:59 | a stray last byte, and two sources at one offset, are in bounds but not a tight layout |
| Integrity.IntegrityCheckState.constructor | src/lib/integrity/LibIntegrityCheck.sol:56-75 | the walk starts at the declared inputs, for height, peak and highwater alike |
| Integrity.IntegrityCheckState.OpIntegrity | src/lib/op/00/LibOpStack.sol:21-34 | an op declares its inputs and outputs or its own error; only a stack read moves the highwater, and only up |
| Integrity.IntegrityCheckState.CheckOneOp | src/lib/integrity/LibIntegrityCheck.sol:141-196 | one op under the shifted cursor is checked and applied as the specification says, with every error and its arguments |
| Integrity.IntegrityCheckState.CheckOneSource | src/lib/integrity/LibIntegrityCheck.sol:134-206 | the walk over a source ends in its first error, or in agreement with its header's allocation and outputs |
| Integrity.IntegrityCheck2 | src/lib/integrity/LibIntegrityCheck.sol:91-209 | after the structural check, returns the packed inputs and outputs of every source, or the first error in source and op order |
| Integrity.WalkErrorPersists | src/lib/integrity/LibIntegrityCheck.sol:156-178 | the first error of a source is its outcome, whatever ops follow |
| Integrity.CheckSourcesIff | src/lib/integrity/LibIntegrityCheck.sol:114-132 | the check succeeds exactly when every source passes, and reports source `i` at bytes `2i` and `2i+1` |
| Integrity.OpErrorMeans | src/lib/integrity/LibIntegrityCheck.sol:156-178 | every error of an op states its own cause, with that op's arguments, and rules out the causes looked for before it |
| Integrity.WalkErrorNamesOp | src/lib/integrity/LibIntegrityCheck.sol:141-196 | the error of a source's walk is its first bad op's, at that op's index |
| Integrity.SourceErrorMeans | src/lib/integrity/LibIntegrityCheck.sol:198-206 | a source whose walk passes fails on its allocation before its outputs, with the numbers that differ |
| Integrity.FirstSourceError | src/lib/integrity/LibIntegrityCheck.sol:120-132 | the error of the whole check is the first bad source's |
| Integrity.MalformedMeans | src/lib/integrity/LibIntegrityCheck.sol:106-112 | the structural error is given exactly for a loose layout or header counts out of order |
| Soundness.WalkMonotone | src/lib/integrity/LibIntegrityCheck.sol:170-192 | over an accepted walk the highwater and the peak never fall, and highwater <= height <= peak |
| Soundness.AllocationIsPeak | src/lib/integrity/LibIntegrityCheck.sol:198-206 | the declared allocation bounds every height, some height reaches it, and the last height is the declared outputs |
| Soundness.AcceptedIsSized | audit/2026-03-01-01/pass1/LibIntegrityCheck.md:59 | an accepted source has inputs <= outputs <= allocation, the order the structural check asks of its header |
| Soundness.NeverStuck | src/concrete/RainterpreterExpressionDeployer.sol:41-61 | every source of accepted acyclic bytecode runs every op, from its declared inputs, without an underflow, overflow or bad read, at exactly the walk's heights |
| Soundness.RunCompletes | src/lib/integrity/LibIntegrityCheck.sol:203-206 | a run ends, with exactly the declared number of outputs |
| Soundness.StepKeepsBelow | src/lib/integrity/LibIntegrityCheck.sol:175-178 | one op changes nothing below the highwater |
| Soundness.BelowHighwaterIsImmutable | src/lib/integrity/LibIntegrityCheck.sol:23-28 | every slot below the highwater after any op keeps its value for the rest of the run |
| Soundness.InputsSurvive | src/lib/integrity/LibIntegrityCheck.sol:66-67 | the inputs of a source are the bottom of its final stack, unchanged |
| Highwater.UnderReadIsImmutable | src/lib/op/00/LibOpStack.sol:28-31 | everything under a slot that was read keeps its value for the rest of the run |
| Highwater.GroupIsImmutable | src/lib/integrity/LibIntegrityCheck.sol:189-192 | the whole stack that an op with several outputs completes is a prefix of every later stack |
| Highwater.UnconsumedSlotSurvives | src/lib/integrity/LibIntegrityCheck.sol:170-182 | a slot that no op takes in between has the same value at both ends |
| Highwater.ReadSlotCanChange | src/lib/op/00/LibOpStack.sol:28-31 | an instance: deployable bytecode that reads slot 1 and then overwrites it |
| Continuations.SameWalk | src/lib/integrity/LibIntegrityCheck.sol:141-196 | the walk over a prefix does not depend on the ops, sources and table entries that come after |
| Continuations.SameRun | src/lib/eval/LibEval.sol:41-177 | neither does the run of an accepted prefix, calls included |
| Continuations.OverwrittenSomewhere | src/lib/integrity/LibIntegrityCheck.sol:175-178 | every slot at or above the highwater is changed by some accepted continuation that bytecode can hold, if it has room for one |
| Continuations.SafeIffBelowHighwater | src/lib/integrity/LibIntegrityCheck.sol:23-28 | a slot below the highwater keeps its value in every accepted continuation, and where bytecode has room to go on no other slot does |
| Continuations.FullSourceIsSafe | src/lib/integrity/LibIntegrityCheck.sol:23-28 | after the 255th op there is no room and every slot is safe |
| Continuations.ReadSlotSafeIff | src/lib/op/00/LibOpStack.sol:28-31 | a slot just read is safe if it was below the highwater before the read, and, where there is room to go on, only then |
| Conformance.AcceptedConforms | src/lib/integrity/LibIntegrityCheck.sol:91-209 | every run of an accepted program reaches its allocation and no more, takes and gives the declared counts, spares what is protected, and ends with the declared outputs |
| Conformance.ConformsAccepted | src/lib/integrity/LibIntegrityCheck.sol:91-209 | if every run does so, every source passes the check |
| Conformance.AcceptedIffAllConform | src/lib/integrity/LibIntegrityCheck.sol:77-83 | over honest ops and an acyclic call graph the check accepts exactly the programs all of whose runs conform |
| Interpreter.InterpreterState.RunStack | src/lib/op/00/LibOpStack.sol:41-50 | pushes the item at the operand's index counted from the bottom; no word outside this source's stack changes |
| Interpreter.InterpreterState.RunConstant | src/lib/op/00/LibOpConstant.sol:37-46 | pushes the constant at the operand's index |
| Interpreter.InterpreterState.RunGet | src/lib/op/store/LibOpGet.sol:32-62 | replaces the key by its cached value, or by the stored one, which is cached |
| Interpreter.InterpreterState.RunSet | src/lib/op/store/LibOpSet.sol:29-40 | pops key and value into the cache |
| Interpreter.InterpreterState.RunOther | src/lib/eval/LibEval.sol:99-103 | any other op takes its inputs off the top and leaves its outputs there, first output topmost |
| Interpreter.PushReversed | src/lib/op/call/LibOpCall.sol:135-143 | inputs are copied so that the caller's top item is the callee's bottom item, and nothing else changes |
| Interpreter.CopyUp | src/lib/op/call/LibOpCall.sol:159-167 | outputs are copied in order, and nothing else changes |
| Interpreter.InterpreterState.CalleeStaysOut | src/lib/op/call/LibOpCall.sol:122-170 | the words a callee and its own callees may touch exclude the stack of any caller still running |
| Interpreter.InterpreterState.RunCall | src/lib/op/call/LibOpCall.sol:122-170 | a call replaces its inputs by the callee's top outputs in order, keeps the rest of the caller's stack, and restores the source index |
| Interpreter.InterpreterState.StackTrace | src/lib/state/LibInterpreterState.sol:126-142 | the tracer is sent both indices in two bytes each and then the live stack top first; every word of memory is as before |
| Interpreter.InterpreterState.Dispatch | src/lib/eval/LibEval.sol:99-103 | the op the wrapped opcode selects takes the machine one checked step further |
| Interpreter.InterpreterState.EvalWord | src/lib/eval/LibEval.sol:91-155 | the eight lanes of a word are the next eight ops, in order |
| Interpreter.InterpreterState.EvalLoop | src/lib/eval/LibEval.sol:41-177 | evaluating a source unchecked, by both loops, ends in the checked machine's frame and traces, terminates by (source rank, ops left), and touches only the stacks of this source and those below it |
| Interpreter.InterpreterState.Eval4 | src/lib/eval/LibEval.sol:191-249 | the top outputs, topmost first, and the cache of the checked run, touching only the stacks of the source and of those below it and its own length word; errors, which change nothing, for an unknown source and for a wrong number of inputs |
| Dispatch.LoopsDecodeInOrder | src/lib/eval/LibEval.sol:91-172 | for every ops count and every memory content the main loop and the shifted remainder loop dispatch the ops decoded one at a time |
| Dispatch.LoopsDispatchTheSource | src/lib/eval/LibEval.sol:57-85 | for a source found by its header those are exactly the source's ops |
| Dispatch.ModuloIsIdentity | src/lib/eval/LibEval.sol:51-53 | reducing an opcode of accepted bytecode by the runtime table's size changes nothing, if that table is at least as long as the checked one |
| Deployment.SerializeConstants | src/lib/state/LibInterpreterStateDataContract.sol:41-50 | the constants are written with their length word, and nothing else changes |
| Deployment.UnsafeSerialize | src/lib/state/LibInterpreterStateDataContract.sol:39-54 | fills exactly the `serializeSize` bytes at the cursor: constants, then bytecode, each after its length |
| Deployment.SerializedLength | src/lib/state/LibInterpreterStateDataContract.sol:26-31 | serialized data is two length words, a word for each constant and the bytecode |
| Deployment.Parse2 | src/concrete/RainterpreterExpressionDeployer.sol:41-61 | returns the serialized expression exactly when the structural and the integrity check pass, and the error otherwise |
| Deployment.ConstantsLoad | src/lib/state/LibInterpreterStateDataContract.sol:83-88 | the constants read back from serialized data, length and values |
| Deployment.BytecodeLoads | src/lib/state/LibInterpreterStateDataContract.sol:90-94 | the bytecode reads back byte for byte at the pointer past the constants |
| Deployment.SizesAreDeclared | src/lib/state/LibInterpreterStateDataContract.sol:98-123 | the stack sizes found in memory are the declared allocations of exactly the bytecode's sources, if and only if the bytecode is not empty or a zero byte follows it |
| Deployment.EmptyBytecodeMiscounted | src/lib/state/LibInterpreterStateDataContract.sol:98-102 | empty bytecode with a non-zero byte after it is read as that many sources |
| Deployment.AllocateStacks | src/lib/state/LibInterpreterStateDataContract.sol:110-135 | whatever memory holds, each source found there gets a length word and exactly the size found; nothing outside the allocated words changes |
| Deployment.StackedApart | src/lib/state/LibInterpreterStateDataContract.sol:125-134 | the stacks of different sources, with their length words, are disjoint |
| Deployment.StackedInside | src/lib/state/LibInterpreterStateDataContract.sol:125-134 | every stack lies inside the words allocated for stacks |
| Deployment.StackBottoms | src/lib/state/LibInterpreterState.sol:62-79 | each bottom is one past the last item of its stack |
| Deployment.AllocatedBottoms | src/lib/state/LibInterpreterState.sol:62-79 | deserializing places every bottom where that computation would |
| Deployment.UnsafeDeserialize | src/lib/state/LibInterpreterStateDataContract.sol:69-142 | constants and bytecode are found unchanged in any serialized data, and each source found there has its own stack |
| Deployment.CheckedIsDeployable | src/lib/integrity/LibIntegrityCheck.sol:106-132 | the bridge from bytes to sources: the check on bytecode is its tight layout and the check on every source, which implies the order of the header counts |
| Deployment.CheckedIffConforms | src/concrete/RainterpreterExpressionDeployer.sol:41-61 | bytecode is accepted if and only if its layout is tight and every run of every source, by the checked machine, keeps to what it declares |
| Deployment.OverlayState | src/concrete/Rainterpreter.sol:63-70 | the overlay loop sets every pair in order in an empty cache |
| Deployment.Interpret | src/concrete/Rainterpreter.sol:54-74 | deserialize, overlay and evaluate: the outcome, the writes and the traces are those of the checked machine started from the overlay, with each error in its order, and no word outside the newly allocated memory changes |
| Tracing.HeaderBytes | src/lib/state/LibInterpreterState.sol:136-138 | the low four bytes of the packed word are the two indices |
| TraceTable.FromData | crates/eval/src/trace.rs:31-57 | decodes two indices and the whole words that follow, or nothing for fewer than four bytes |
| TraceTable.DecodedCalldata | crates/eval/src/trace.rs:31-57 | decoding what the tracer was sent recovers both indices modulo 2^16 and the whole stack, topmost first |
| TraceTable.EncodedDecoded | crates/eval/src/trace.rs:31-57 | encoding a decoded trace gives its data back, less a trailing partial word |
| TraceTable.FlattenedTracePathNames | crates/eval/src/trace.rs:285-319 | names every item of every trace by the path of the most recent trace of its parent, or by the fallback |
| TraceTable.ExtendRecent | crates/eval/src/trace.rs:293-304 | comparing last path parts as strings finds the most recent trace whose source is the parent |
| TraceTable.SearchTraceByPath | crates/eval/src/trace.rs:157-222 | the search, with each error in its order |
| TraceTable.SearchExact | crates/eval/src/trace.rs:157-222 | a search succeeds with a value if and only if the path parses, every edge exists, and the first trace on the last edge has that value at that index from the bottom |
| TraceTable.SearchRefusesPath | crates/eval/src/trace.rs:158-172 | a path without an index, or with an index or root that is no number of its width, is a bad trace path |
| TraceTable.SearchStopsAt | crates/eval/src/trace.rs:177-192 | the first part that is no number makes a bad trace path, and the first missing edge is named as not found, whichever comes first |
| TraceTable.SearchEndsAt | crates/eval/src/trace.rs:194-221 | along existing edges the search gives the item, or names the last edge when no trace has it or the first one has no such item |
| DottedPaths.ParseShow | crates/eval/src/trace.rs:164-180 | a printed number parses back to itself exactly when the type can hold it |
| DottedPaths.ShowIsDecimal | crates/eval/src/trace.rs:291 | printing is decimal without leading zeros |
| DottedPaths.ParseIsDecimal | crates/eval/src/trace.rs:164-172 | parsing is decimal and positional, takes digits and one leading plus sign, and bounds the value |
| DottedPaths.SplitJoin | crates/eval/src/trace.rs:158 | splitting a dotted path gives back its printed parts |
| TracePaths.PathIsJoin | crates/eval/src/trace.rs:289-309 | a printed path is the dotted numeric path, or starts with a question-marked parent |
| TracePaths.PathEdges | crates/eval/src/trace.rs:293-304 | every step of a printed path is an edge of some trace and the last one is its own trace's edge |
| TracePaths.ParsePrinted | crates/eval/src/trace.rs:164-180 | a column name parses back to the path and item it was printed from |
| TracePaths.FallbackRefused | crates/eval/src/trace.rs:305-308 | every name under a fallback path, descendants included, is a bad trace path |
| TracePaths.QuestionMarks | crates/eval/src/trace.rs:305-308 | a name has a question mark exactly when its trace hangs off a parent that was never seen |
| TracePaths.NameFindsFirst | crates/eval/src/trace.rs:194-221 | for any traces, searching an item's name finds that item of the first trace with the same edge, exactly if it has one |
| TracePaths.NameFindsItem | crates/eval/src/trace.rs:194-221 | where edges are distinct, searching an item's name finds the item |
| TracePaths.SameNames | crates/eval/src/trace.rs:285-319 | column names depend only on the edges and stack lengths of the traces |
| TracePaths.FirstRowAligned | crates/eval/src/trace.rs:253-279 | the first row has one cell per column |
| TracePaths.TableHasRows | crates/eval/src/trace.rs:253-279 | one row for each result, and no columns without results |
| TracePaths.RowIsItems | crates/eval/src/trace.rs:263-273 | whatever its shape, a result's row is its own items, trace by trace and each stack from the bottom |
| TracePaths.ItemHasColumn | crates/eval/src/trace.rs:261-273 | every result with the first one's edges and stack lengths has item `k` of trace `i`, in name and cell, at the column that follows the items before it |
| TracePaths.TableAligned | crates/eval/src/trace.rs:261-273 | and every column of such a result is the column of one item |
| TracePaths.RowsAligned | crates/eval/src/trace.rs:261-273 | every such result has one cell per column |
| TracePaths.ColumnSearchIsExact | crates/eval/src/trace.rs:194-221 | searching a column's name returns the cell under it exactly when the first trace with its edge has that item, and refuses a name with the fallback mark |
| TracePaths.RepeatedEdgeMisleads | crates/eval/src/trace.rs:194-221 | two calls of one source by the same parent, where the second call's column name finds the first call's value |
| TracePaths.TableAgreesWithSearch | crates/eval/src/trace.rs:253-279 | with distinct edges, search and table agree on every column |
| TraceTree.ForeignIgnored | crates/eval/src/trace.rs:81-92 | filtering by the tracer's address collects the tracer's calls and nothing else of an arena |
| TraceTree.CollectedTree | crates/eval/src/trace.rs:81-92 | for any arena whose tracer calls are those a call tree emits, the collected traces are the tree's nodes, callers first and later calls first |
| TraceTree.TreePaths | crates/eval/src/trace.rs:293-304 | below a known parent every node of an acyclic subtree is given its own path, and the parent stays the most recent for its source |
| TraceTree.ReversedTracesNameTheirPaths | crates/eval/src/trace.rs:285-319 | for every non-recursive call tree, and any arena around its tracer calls, every trace is named by exactly its path from the root, never by the fallback |
| TracedRuns.CallsDescend | src/lib/op/call/LibOpCall.sol:145-156 | every call made by a run of acyclic bytecode, at any depth, goes down in rank |
| TracedRuns.RunsNameTheirPaths | src/lib/eval/LibEval.sol:174 | the traces collected from any arena around a completed run of acyclic bytecode are its call tree, each trace named by its path |
| TracedRuns.RunsAnswerSearches | crates/eval/src/trace.rs:157-222 | where no edge repeats, searching the path of any node of a completed run and an index finds that item of the node's stack |
| Store.QualifyNamespace | crates/eval/src/namespace.rs:6-16 | hashes the 64 bytes whose first word is the namespace and whose second is the sender |
| Store.PreimageWords | crates/eval/src/namespace.rs:8-10 | the first 32 bytes of the preimage are the namespace and the rest are the padded sender |
| Store.PreimageInjective | crates/eval/src/namespace.rs:6-10 | different namespaces or senders have different preimages |
| Store.RainterpreterStore.Set | src/concrete/RainterpreterStore.sol:48-63 | writes the pairs in order to the caller's qualified namespace only, with one event each; an odd length changes nothing |
| Store.RainterpreterStore.WriteAll | src/concrete/RainterpreterStore.sol:56-61 | the loop writes every pair, later pairs over earlier ones |
| Store.EventsAt | src/concrete/RainterpreterStore.sol:56-61 | event `j` of a call carries pair `j`, key before value, under the qualified namespace |
| KeyValues.LastPairWins | src/concrete/RainterpreterStore.sol:56-61 | the last pair for a key decides its value |
| KeyValues.UnwrittenKept | src/concrete/RainterpreterStore.sol:56-61 | a key without a pair keeps its value |
| Store.RainterpreterStore.Get | src/concrete/RainterpreterStore.sol:66-68 | reads what the calls so far wrote to the namespace, or zero |
| Store.Isolation | src/concrete/RainterpreterStore.sol:29-40 | after any run of `set` calls by anyone, a key reads as the last value its own sender wrote in its own namespace, or zero |
| StateCache.CachedIsPlain | src/lib/op/store/LibOpGet.sol:32-62 | a cached evaluation reads the same values as a plain store, and cache over store shows that store at the end |
| StateCache.PlainReadsLatest | src/lib/op/store/LibOpGet.sol:25-28 | a plain store reads the last value set for a key, or else what it began with |
| StateCache.MachineUsesTheCache | src/lib/op/store/LibOpSet.sol:29-40 | the machine's `get` and `set`, key on top and value below, are the cached evaluation's |
| StateCache.WriteBackRefinesPlain | audit/known-false-positives.md:10-16 | for any overlay, gets and sets: the reads are a plain store's, and persisting the cache, read-only keys included, leaves the store as if overlay and sets had been applied to it |
| StateCache.RunsSeeTheView | src/lib/op/store/LibOpGet.sol:32-62 | whole runs, with calls, depend on cache and store only through the values they show together |
| StateCache.OverlayIsStoredState | src/concrete/Rainterpreter.sol:63-70 | running with an overlay is running over a store that already holds it |
| StateCache.PersistedRunsCompose | src/concrete/RainterpreterStore.sol:48-63 | setting the pairs one run returned, in any order, makes the next run behave as if it had gone on with the first one's cache |
| ParseMeta.RankIsBijection | src/generated/RainterpreterParser.pointers.sol:36-38 | counting the set bits below maps the set bits of a filter one-to-one, in order, onto all its item slots |
| ParseMeta.LookupWord | src/generated/RainterpreterParser.pointers.sol:35-44 | the loop over levels with its cumulative offset finds the item of the first level that matches |
| ParseMeta.MissIffUnmatched | src/generated/RainterpreterParser.pointers.sol:39-44 | a lookup misses exactly when no level's probed item has the word's fingerprint |
| ParseMeta.HitHasFingerprint | src/generated/RainterpreterParser.pointers.sol:39-41 | a hit names an item with the word's own fingerprint in a level whose filter admits the word |
| ParseMeta.BuiltWordFound | src/generated/RainterpreterParser.pointers.sol:35-44 | every placed word has a level that holds it, and resolves to its own index exactly when no earlier level has a colliding fingerprint at its bit |
| ParseMeta.AuthoredWordsResolve | src/abstract/BaseRainterpreterSubParser.sol:194-197 | every authored word resolves to its own index, whichever level collisions pushed it to, if words that share a bit differ in fingerprint |
| PointerTables.LoadsReadEntry | src/abstract/BaseRainterpreterSubParser.sol:205-207 | the high-bits and the low-bits load both read the big-endian entry, for every entry in the table |
| PointerTables.EntryIsBigEndian | src/abstract/BaseRainterpreterExtern.sol:74-77 | an entry is its two bytes, high byte first |
| PointerTables.IntegrityAndExternAgree | src/abstract/BaseRainterpreterExtern.sol:46-106 | a dispatch is accepted exactly when its opcode has an entry, and then both contracts use that same entry of their tables |
| PointerTables.PackedDispatchRuns | src/abstract/BaseRainterpreterExtern.sol:66-106 | of a dispatch packed from any higher bits, an opcode and an operand, `extern` runs the opcode's entry counted around the table, and the integrity check runs the opcode's entry or names the opcode |
| PointerTables.ExternStaysInTable | src/abstract/BaseRainterpreterExtern.sol:66-77 | every dispatch lands on a whole entry exactly when the table holds at least one |
| PointerTables.HalfEntryTableConstructs | src/abstract/BaseRainterpreterExtern.sol:30-43 | a one-byte table passes the constructor and has no whole entry to land on |
| PointerTables.SubParserRunsEntry | src/abstract/BaseRainterpreterSubParser.sol:199-208 | a sub parser runs the entry at its index, and refuses exactly the indices without one |
| Forker.Forker.NewWithFork | crates/eval/src/fork.rs:100-151 | a new forker has one fork, with local id 0 and the requested or reported block; a fork that cannot be reached or spawned is reported as it came |
| Forker.Forker.AddOrSelect | crates/eval/src/fork.rs:155-230 | adds an unknown fork with the next local id, selects a known one, does nothing for the active one, with each failure's state |
| Forker.Forker.RollFork | crates/eval/src/fork.rs:386-420 | finds the active fork in whatever order the map's values come and rolls to the given block or its original one |
| Forker.OriginIs | crates/eval/src/fork.rs:396-407 | the scan has one possible outcome |
| Forker.CreatedForkIsActive | crates/eval/src/fork.rs:187-228 | after any run a new fork gets the next ids, is at the block asked for or else the reported one, and is active |
| Forker.KnownForkIsSelected | crates/eval/src/fork.rs:168-186 | after any run a known fork becomes active and nothing else changes, unless the backend never issued its id |
| Forker.AddedForkIsActive | crates/eval/src/fork.rs:155-230 | after a run without refusals an addition succeeds exactly for a known or created fork, and leaves it active in the backend |
| Forker.FailedAddition | crates/eval/src/fork.rs:187-228 | an addition that fails changes nothing, except that a refused later fork stays in the map |
| Forker.RollGoesToBlock | crates/eval/src/fork.rs:405-420 | after any run a roll to a block goes there and moves nothing but the executor and the active fork; refused, the executor alone; without a fork, nothing |
| Forker.IdsInOrder | crates/eval/src/fork.rs:211-218 | after every run the local ids are exactly 0..n-1, in order of first addition |
| Forker.NeverReassigned | crates/eval/src/fork.rs:155-230 | a fork keeps its local id and original block for the rest of every run |
| Forker.AgreesIffNeverRefused | crates/eval/src/fork.rs:211-227 | local ids name the same forks in map and backend exactly when no recorded fork was refused by the backend |
| Forker.BackendDrifts | crates/eval/src/fork.rs:211-227 | the backend's ids are the map's up to the first refusal, and none is after it |
| Forker.RollIsExact | crates/eval/src/fork.rs:396-407 | a roll with no block goes to the original block of the fork the map knows by the active id, which is the fork active in the backend if and only if it was added before the first refusal |
| Forker.RollReturnsToOrigin | crates/eval/src/fork.rs:396-407 | so a fork added before any refusal rolls back to its own original block, whatever was refused since |
| Forker.RefusalMisleads | crates/eval/src/fork.rs:211-227 | a run with one refusal after which a fork is rolled to another fork's block |
| Bitwise.Encode | src/lib/op/bitwise/LibOpBitwiseEncode.sol:57-63 | bits in the window come from the source, all others from the target |
| Bitwise.Decode | src/lib/op/bitwise/LibOpBitwiseDecode.sol:51-52 | the bits of the window, moved down, and no others |
| Bitwise.DecodeEncode | src/lib/op/bitwise/LibOpBitwiseDecode.sol:33-59 | decoding what was encoded gives the source modulo 2^length |
| Bitwise.RoundTripIffFits | src/lib/op/bitwise/LibOpBitwiseEncode.sol:23-28 | of the windows an operand can name, exactly the accepted and the empty ones give back every source |
| Bitwise.EncodeDecoded | src/lib/op/bitwise/LibOpBitwiseEncode.sol:36-70 | encoding a decoded window back is the identity |
| Bitwise.EncodeTwice | src/lib/op/bitwise/LibOpBitwiseEncode.sol:36-70 | the last write to a window wins |
| Bitwise.DecodeOther | src/lib/op/bitwise/LibOpBitwiseEncode.sol:36-70 | a window outside the encoded one reads as before |
| Bitwise.DisjointCommute | src/lib/op/bitwise/LibOpBitwiseEncode.sol:36-70 | encodes into disjoint windows commute |
| Bitwise.EncodeBits | src/lib/op/bitwise/LibOpBitwiseEncode.sol:36-70 | for the window its operand names, each output bit of `encode-bits` is the top item's inside the window and the item below's outside it |
| Bitwise.DecodeBits | src/lib/op/bitwise/LibOpBitwiseDecode.sol:33-59 | for the window its operand names, the output bits of `decode-bits` are the window's, moved down |
| Bitwise.WindowOpsDeclare | src/lib/op/bitwise/LibOpBitwiseEncode.sol:19-30 | as entries of the op table the ops declare their counts for exactly the windows that are not empty and fit |
| Bitwise.WindowOpsHonest | src/lib/op/bitwise/LibOpBitwiseEncode.sol:29-36 | and give what they declare |

## Left out

- The Rainlang parser, and the decimal-float, token, chain-query and extern-call ops: every such op is an arbitrary function that gives as many items as its integrity function declares. An op that reverts, or has an effect other than on the stack, is not represented.
- Recursive source calls, which never terminate by design: an acyclic call graph is assumed through a rank for every source.
- Gas, the outcome of the tracer's static call, and memory exhaustion.
- `LibBytecode`, `LibMemoryKV`, `LibParseMeta` and `LibMemCpy` live in dependencies that are not part of this model.
- Integrity.IntegrityCheck2: the structural check of `LibBytecode` is represented by what it guarantees (`Bytecode.Tight`, `Bytecode.Sized`) and one error; which of its errors it reports is not modelled.
- Deployment.Interpret: assumes that no source of the bytecode is recursive, reached or not, because the rank covers every source.
- Continuations.SafeIffBelowHighwater: where bytecode has less room than `Continuations.HasRoom` asks, only one direction is stated; ops that take several items at once could still find room in part of those cases.
- The deployer's integrity table and the interpreter's opcode table are separate constants in the code and one table here; `Dispatch.ModuloIsIdentity` covers tables of different length.
- The in-memory key/value store is a map: the order in which its pairs are returned is not modelled, and `StateCache.WriteBackRefinesPlain` holds for every order.
- The interpreter's memory is split into a byte region for the serialized expression and a word region for the stacks; that the free memory pointer keeps them apart is taken from the compiler. The header word of a trace is formed by addition, which for its disjoint bits is the source's `or`.
- Lengths whose serialized size would wrap at 2^256, which no memory can hold.
- The operand and inputs that an extern hands to the function it runs; the model ends at which function that is.
- keccak256 is an arbitrary function. Store.Isolation assumes only that no pair used in the run collides with the one read.
- The parse-meta hash is an arbitrary function of seed and word, and the byte packing of filters and items is not modelled. How seeds are searched for is not modelled either: a table is built from any seeds that place every word.
- The Foundry backend is a list of created forks with sequential ids and their blocks; environments, spec ids and the content of a fork are not modelled. Requests are answered by parameters. A backend error when selecting an issued id is not represented.
- The conversions of a fork call's return value other than its traces (`reverted`, `stack`, `writes`) and the error for a missing call arena, which only copy fields.
- Error message text, serialization of results, and the debug-build panic when a path index is the largest `usize` (the release build's wrap is modelled).
