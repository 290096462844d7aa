# Verification of the native profiler's core and the loader's binding policy

A Dafny model of the parts of OpenTelemetry .NET AutoInstrumentation whose correctness rests on algorithms
rather than on the runtime they call, with proofs of what those algorithms promise. `dafny verify
dfyconfig.toml` checks everything.

* **IL rewriter.** `Opcodes`, `InstructionList`, `BranchRelaxation`, `Disassembly`, `RoundTrip`,
  `ImportExport` and `ExceptionRegions` describe method bodies as lists of instructions with symbolic
  targets (ECMA-335 Partition II section 25.4, Partition III section 1.2.1): their bytes, their layout, the
  least widening of short branches, and the round trips between lists, bytes and clause tables. `CodeBuffer`
  and `IlRewriter` hold the doubly linked list, the two passes over it and the retry loop as they run, proved
  against that description.
* **Signatures.** `CompressedNumbers`, `Signatures` and `MethodSignatures` give the grammar of type, local
  and method signatures (ECMA-335 Partition II section 23.2) in both directions; `SignatureParser` is the
  recursive descent; `LocalSignatureRewrite` is the rewrite of an instrumented method's locals, and
  `RewriteRecognition` says which signatures that rewrite takes for its own.
* **Continuous profiler.** `ThreadStacks` (budgeted frame storage), `SampleFormat` and `SampleBuffer` (the
  coded sample stream and a decoder for it), `NameCache` (the recency list, its index and who owns the
  names), `Scheduler` (the mailbox and the sampling cycle as a state machine), `RuntimeSampler` (the service
  that decides which configurations reach it), `SelectiveTraces` (lazy expiry) and `SubSampler` (paced
  allocation samples).
* **Transcoding.** `Transcoding` is UTF-8 and UTF-16 conversion (RFC 3629 section 3, RFC 2781 section 2) on
  machine words.
* **Version policy.** `AssemblyRedirects` keeps the table of assembly redirections across module loads;
  `BindingPolicy`, `BindingUpdate` and `BindingUpdater` normalise binding redirects in a configuration.

Where the code mutates objects the model has classes with those fields; specification functions beside them
carry the theorems, and each method's contract ties it to its function. Calls into the runtime, clocks, dice,
vector reservation and the platform's text functions are parameters.

Five properties turn out not to hold as one might expect; each has a concrete input or run and the exact
condition under which the property does hold:

* the signature buffer of 500 bytes can be written past its end (`OneByteTooLong`, `WritesOutsideExactly`);
* the already-rewritten check of local signatures looks at trailing bytes only (`DeclinesUnrewritten`,
  `RecognizedExactly`);
* a name cache is a least-recently-used cache only for absent keys (`OutgrowsItsLimit`, `NameCache.Put`);
* lazy expiry is eager only up to the truncation of deadlines (`LazyOutlivesEager`, `TightMeansEager`);
* redirect targets are final only while no higher reference meets a use count that has wrapped to zero
  (`WrapUnsettlesTargets`, `RunIsStableExactly`).

The sampling thread by itself would keep the CPU interval for some pairs of intervals only
(`Scheduler.OnTimeExactly`); the service in front of it never stages another (`RuntimeSamplerService.Run`).

## Model

| member | source | states |
|---|---|---|
| `Opcodes.OperandsOf` | src/OpenTelemetry.AutoInstrumentation.Native/il_rewriter.cpp:28-78 | every opcode has the operand class of the flag table; branch targets are exactly the branch, leave and switch-entry opcodes |
| `Opcodes.Long` | src/OpenTelemetry.AutoInstrumentation.Native/il_rewriter.cpp:586-606 | each short branch has a long form one size class up, and the long forms are no short branches |
| `InstructionList.LaidOutKeepsOffsets` | src/OpenTelemetry.AutoInstrumentation.Native/il_rewriter.cpp:489-551 | replacing targets by distances leaves every offset and switch base where it was |
| `InstructionList.InstrBytesInPlace` | src/OpenTelemetry.AutoInstrumentation.Native/il_rewriter.cpp:489-551 | the bytes of each instruction stand at its own offset in the assembled code |
| `BranchRelaxation.PassWidens` | src/OpenTelemetry.AutoInstrumentation.Native/il_rewriter.cpp:553-624 | one pass widens short branches only, and changes nothing exactly when all of them fit in INT8 |
| `BranchRelaxation.WideningLowersShortBranches` | src/OpenTelemetry.AutoInstrumentation.Native/il_rewriter.cpp:621-623 | every retry strictly lowers the number of short branches |
| `BranchRelaxation.PassesBounded` | src/OpenTelemetry.AutoInstrumentation.Native/il_rewriter.cpp:483-624 | the retry loop makes at most one pass more than there are short branches |
| `BranchRelaxation.OutOfReachStaysOutOfReach` | src/OpenTelemetry.AutoInstrumentation.Native/il_rewriter.cpp:579-608 | offsets are monotone in the widened set: a distance that does not fit fits in no wider layout |
| `BranchRelaxation.RelaxSettles` | src/OpenTelemetry.AutoInstrumentation.Native/il_rewriter.cpp:483-624 | the loop ends in a layout in which every remaining short branch fits, having widened short branches only |
| `BranchRelaxation.RelaxIsLeast` | src/OpenTelemetry.AutoInstrumentation.Native/il_rewriter.cpp:483-624 | the widened set is the least one: every other widening in which the short branches fit widens at least those, and is no shorter |
| `BranchRelaxation.RelaxLeavesSettledCode` | src/OpenTelemetry.AutoInstrumentation.Native/il_rewriter.cpp:583-609 | export widens nothing exactly when every short branch fits already |
| `Disassembly.ParseOfAssembled` | src/OpenTelemetry.AutoInstrumentation.Native/il_rewriter.cpp:242-350 | decoding assembled bytes yields the instructions back, from any instruction on |
| `RoundTrip.AssembleOfParse` | src/OpenTelemetry.AutoInstrumentation.Native/il_rewriter.cpp:224-350 | whatever decodes was assembled from what it decodes to, byte for byte |
| `ImportExport.DecodeOfEncode` | src/OpenTelemetry.AutoInstrumentation.Native/il_rewriter.cpp:224-365 | import undoes export: operands, opcodes, and every branch and switch target come back as positions in the list |
| `ImportExport.EncodeOfDecode` | src/OpenTelemetry.AutoInstrumentation.Native/il_rewriter.cpp:474-624 | export undoes import: a decodable body is well formed, needs no widening and is reproduced byte for byte |
| `ImportExport.WideningKeepsWellFormed` | src/OpenTelemetry.AutoInstrumentation.Native/il_rewriter.cpp:583-609 | widening keeps switch tables complete and targets on instructions |
| `ImportExport.ExportPreservesMeaning` | src/OpenTelemetry.AutoInstrumentation.Native/il_rewriter.cpp:474-624 | for every well-formed list, decoding what export emits gives the list with some short branches in long form and nothing else changed, the fewest possible |
| `ExceptionRegions.ExportOfImportedClause` | src/OpenTelemetry.AutoInstrumentation.Native/il_rewriter.cpp:380-415 | import then export reproduces each clause, also where a handler end follows a switch table or is the sentinel |
| `ExceptionRegions.ImportOfExportedClause` | src/OpenTelemetry.AutoInstrumentation.Native/il_rewriter.cpp:684-700 | export then import recovers a clause whose ends are no switch-table entries |
| `ExceptionRegions.ClauseCoversItsInstructions` | src/OpenTelemetry.AutoInstrumentation.Native/il_rewriter.cpp:689-693 | the exported offset/length pairs cover exactly the bytes of the instructions in [TryBegin, TryEnd) and [HandlerBegin, HandlerEnd] |
| `ExceptionRegions.RegionsSurviveInsertion` | src/OpenTelemetry.AutoInstrumentation.Native/il_rewriter.cpp:442-462 | insertions anywhere keep every position in the try and handler regions it was in, clause and positions shifted alike |
| `IlRewriter.PositionsAfterEdits` | src/OpenTelemetry.AutoInstrumentation.Native/il_rewriter.cpp:442-462 | over any sequence of insertions into the list, each instruction and the sentinel move by exactly the insertions before them |
| `IlRewriter.RegionsSurviveEdits` | src/OpenTelemetry.AutoInstrumentation.Native/il_rewriter.cpp:442-462 | so after any sequence of insertions each original instruction is in the same try and handler regions of every clause |
| `IlRewriter.PositionAfterSplice` | src/OpenTelemetry.AutoInstrumentation.Native/il_rewriter.cpp:442-462 | inserting a node moves the nodes behind it, and the sentinel, by one position and no others |
| `IlRewriter.ILRewriter.InsertBefore` | src/OpenTelemetry.AutoInstrumentation.Native/il_rewriter.cpp:442-448 | relinking puts the new node in front of the given one in the ring and nothing else moves |
| `IlRewriter.ILRewriter.InsertAfter` | src/OpenTelemetry.AutoInstrumentation.Native/il_rewriter.cpp:453-459 | the same behind the given node |
| `IlRewriter.ILRewriter.ApplyEdits` | src/OpenTelemetry.AutoInstrumentation.Native/il_rewriter.cpp:442-462 | any sequence of insertions on the ring leaves each original node in the same regions of every imported clause, and ordered regions ordered |
| `IlRewriter.ILRewriter.LayOut` | src/OpenTelemetry.AutoInstrumentation.Native/il_rewriter.cpp:489-551 | the first pass sets every offset, writes opcodes and constants inside the buffer and fails exactly on an opcode outside the table |
| `IlRewriter.ILRewriter.ResolveBranches` | src/OpenTelemetry.AutoInstrumentation.Native/il_rewriter.cpp:553-624 | the second pass widens what one relaxation step widens, asks for a retry exactly when it did, and otherwise completes the code |
| `IlRewriter.ILRewriter.Export` | src/OpenTelemetry.AutoInstrumentation.Native/il_rewriter.cpp:474-624 | ends with the relaxed list and its encoding in a buffer of 10 bytes an instruction; for lists with valid opcodes neither the index error nor the widening error is returned |
| `IlRewriter.ILRewriter.ImportIL` | src/OpenTelemetry.AutoInstrumentation.Native/il_rewriter.cpp:224-365 | succeeds exactly on decodable bodies, and then holds the decoded list, linked, with targets and the offset table set |
| `IlRewriter.ILRewriter.GetInstrFromOffset` | src/OpenTelemetry.AutoInstrumentation.Native/il_rewriter.cpp:426-440 | the table lookup finds the node that starts at an offset, the sentinel at the end, and nothing else |
| `IlRewriter.ILRewriter.ImportEH` | src/OpenTelemetry.AutoInstrumentation.Native/il_rewriter.cpp:367-418 | fails exactly when an end of some clause is no instruction start, or when clauses were imported before |
| `IlRewriter.ILRewriter.ExportEH` | src/OpenTelemetry.AutoInstrumentation.Native/il_rewriter.cpp:684-700 | writes each clause's offsets and lengths from the laid-out nodes |
| `IlRewriter.ILRewriter.EditAndExport` | src/OpenTelemetry.AutoInstrumentation.Native/il_rewriter.cpp:442-700 | insertions followed by Export: original nodes keep their regions, the exported list is the least widening of the edited one, the offset/length pairs cover exactly the bytes of each clause's regions, and for a well-formed edited list the bytes decode to the exported list and the clauses import as themselves |
| `IlRewriter.ILRewriter.ImportAndExport` | src/OpenTelemetry.AutoInstrumentation.Native/il_rewriter.cpp:206-418 | with no edits a method is either rejected or comes back with the same code bytes and the same clause table |
| `CompressedNumbers.ReadOfWritten` | src/OpenTelemetry.AutoInstrumentation.Native/clr_helpers.cpp:814-866 | ParseNumber inverts the compressed-integer encoding for every value below 2^29, in every width it may have |
| `CompressedNumbers.WrittenOfRead` | src/OpenTelemetry.AutoInstrumentation.Native/clr_helpers.cpp:814-866 | whatever it reads was the encoding of the number it returns |
| `CompressedNumbers.ParseNumber` | src/OpenTelemetry.AutoInstrumentation.Native/clr_helpers.cpp:814-866 | the reader is the specification function and never moves past the end |
| `Signatures.TypeParses` | src/OpenTelemetry.AutoInstrumentation.Native/clr_helpers.cpp:892-1015 | parsing the bytes of a type consumes exactly them, nested and generic types included |
| `Signatures.ParsedType` | src/OpenTelemetry.AutoInstrumentation.Native/clr_helpers.cpp:892-1015 | conversely every success has consumed the bytes of a type |
| `SignatureParser.ParseType` | src/OpenTelemetry.AutoInstrumentation.Native/clr_helpers.cpp:892-1015 | the recursive descent terminates on arbitrary bytes, stays inside them, and succeeds exactly where the grammar does |
| `CompressedNumbers.ParseByte` | src/OpenTelemetry.AutoInstrumentation.Native/clr_helpers.cpp:802-812 | reads one byte if there is one before the end and moves by it |
| `SignatureParser.ParseTypeDefOrRefEncoded` | src/OpenTelemetry.AutoInstrumentation.Native/clr_helpers.cpp:868-883 | reads one compressed number, split into kind and index |
| `SignatureParser.ParseTypes` | src/OpenTelemetry.AutoInstrumentation.Native/clr_helpers.cpp:989-997 | the loop over generic arguments ends where the specification of that many types does |
| `SignatureParser.ParseParamOrLocal` | src/OpenTelemetry.AutoInstrumentation.Native/clr_helpers.cpp:1019-1042 | as the specification of optional BYREF, optional PTR and a type, with the same rejections |
| `SignatureParser.ParseRetType` | src/OpenTelemetry.AutoInstrumentation.Native/clr_helpers.cpp:1046-1067 | as the specification of VOID or an optional BYREF and a type |
| `MethodSignatures.LocalSigParses` | src/OpenTelemetry.AutoInstrumentation.Native/clr_helpers.cpp:1153-1190 | parsing a local signature succeeds with one segment a local, each on that local's bytes |
| `MethodSignatures.ParsedLocalSig` | src/OpenTelemetry.AutoInstrumentation.Native/clr_helpers.cpp:1153-1190 | whatever is accepted starts with the bytes of a local signature with the declared count |
| `MethodSignatures.SegmentsHoldLocals` | src/OpenTelemetry.AutoInstrumentation.Native/clr_helpers.cpp:1173-1188 | segments are in bounds, in order and adjacent, and hold their local's bytes |
| `MethodSignatures.MethodParses` | src/OpenTelemetry.AutoInstrumentation.Native/clr_helpers.cpp:1069-1123 | the same for method signatures: type-argument count, return value, parameters and an optional sentinel |
| `MethodSignatures.ParsedMethod` | src/OpenTelemetry.AutoInstrumentation.Native/clr_helpers.cpp:1069-1123 | whatever is accepted starts with the bytes of a method signature |
| `MethodSignatures.ParamSegmentsAdjacent` | src/OpenTelemetry.AutoInstrumentation.Native/clr_helpers.cpp:1096-1120 | parameter segments are adjacent up to one sentinel byte |
| `SignatureParser.TryParseLocals` | src/OpenTelemetry.AutoInstrumentation.Native/clr_helpers.cpp:1153-1190 | the loop computes the specified segments or fails where the specification does |
| `SignatureParser.TryParseMethod` | src/OpenTelemetry.AutoInstrumentation.Native/clr_helpers.cpp:1069-1123 | the loop computes the specified shape or fails where the specification does |
| `LocalSignatureRewrite.RewriteIsSplice` | src/OpenTelemetry.AutoInstrumentation.Native/calltarget_tokens.cpp:482-560 | the new blob parses to the old locals, then return value, exception, call-target return, extra locals and state, whatever width the counts have |
| `LocalSignatureRewrite.IndicesNameTheirLocals` | src/OpenTelemetry.AutoInstrumentation.Native/calltarget_tokens.cpp:577-600 | every reported index names its own local in the new list, and the last is the state's |
| `LocalSignatureRewrite.RewriteIsRecognized` | src/OpenTelemetry.AutoInstrumentation.Native/calltarget_tokens.cpp:407-421 | applied to its own output the rewrite always declines |
| `RewriteRecognition.RecognizedExactly` | src/OpenTelemetry.AutoInstrumentation.Native/calltarget_tokens.cpp:409-419 | for every local signature the profiler's own parser accepts, the check fires exactly when the last local ends in the state's value type or a compressed number holds the VALUETYPE byte right before the bytes of the state's token |
| `RewriteRecognition.DeclinesUnrewritten` | src/OpenTelemetry.AutoInstrumentation.Native/calltarget_tokens.cpp:402-421 | through ModifyLocalSig, and by that check: a signature whose last local is an array of the state type is declined, and so is one in which the bytes of a one-byte type reference straddle two locals |
| `LocalSignatureRewrite.AddAdditionalLocals` | src/OpenTelemetry.AutoInstrumentation.Native/tracer_tokens.cpp:272-320 | appends the bytes of the token class's locals, and stops writing once the accounted size exceeds the buffer |
| `LocalSignatureRewrite.Emit` | src/OpenTelemetry.AutoInstrumentation.Native/calltarget_tokens.cpp:503-566 | assembles exactly the specified bytes in the fixed buffer, or nothing when they do not fit or the accounts are wrong, unless a write would fall outside the buffer |
| `LocalSignatureRewrite.EmitFront` | src/OpenTelemetry.AutoInstrumentation.Native/calltarget_tokens.cpp:503-544 | the writes up to the additional locals stay in the buffer exactly when those bytes fit, and are those bytes |
| `LocalSignatureRewrite.WritesOutsideExactly` | src/OpenTelemetry.AutoInstrumentation.Native/calltarget_tokens.cpp:482-562 | a write falls outside the buffer exactly for a method without locals whose new count takes more than one byte: with two, when the signature fits by the accounts but not in truth; with four, when the accounts are full before a state type with a one-byte token |
| `LocalSignatureRewrite.OneByteTooLong` | src/OpenTelemetry.AutoInstrumentation.Native/calltarget_tokens.cpp:482-562 | it happens: 161 by-ref-like arguments and five different type references with two-byte encodings give 500 accounted bytes and 501 real ones |
| `LocalSignatureRewrite.LocateLocals` | src/OpenTelemetry.AutoInstrumentation.Native/calltarget_tokens.cpp:581-600 | counting back from the end gives the specified indices |
| `LocalSignatureRewrite.ModifyLocalSig` | src/OpenTelemetry.AutoInstrumentation.Native/calltarget_tokens.cpp:402-600 | writes outside its buffer exactly on those inputs; otherwise succeeds exactly when the signature does not look rewritten, fits 500 bytes and has its count accounted for, and then gives the specified blob and indices |
| `ThreadStacks.TryReserveStackFrame` | src/OpenTelemetry.AutoInstrumentation.Native/continuous_profiler.cpp:886-915 | storage grows only when full and within both limits; with exact reservation it fails exactly at a limit |
| `ThreadStacks.ThreadStacksBuffer.TryPrepareFrame` | src/OpenTelemetry.AutoInstrumentation.Native/continuous_profiler.cpp:922-951 | returns the live vector of the thread with room for a frame; with exact reservation null means unknown thread, 512 frames or spent budget |
| `ThreadStacks.ThreadStacksBuffer.RecordFrame` | src/OpenTelemetry.AutoInstrumentation.Native/continuous_profiler.cpp:1130-1147 | appends the frame to its thread's vector alone, or drops it when that is full |
| `ThreadStacks.ThreadStacksBuffer.CaptureFrames` | src/OpenTelemetry.AutoInstrumentation.Native/continuous_profiler.cpp:1130-1147 | over any deliveries every thread keeps a subsequence of its frames; with exact reservation its first ones, and loses the rest only at a limit |
| `ThreadStacks.ThreadStacksBuffer.CaptureFunctionIdentifiers` | src/OpenTelemetry.AutoInstrumentation.Native/continuous_profiler.cpp:1103-1159 | a capture of the given threads: reports failure and leaves nothing behind exactly when shutdown is requested before it or while a stack walker delivers; otherwise as many active threads as the limit admits hold their frames |
| `ThreadStacks.ThreadStacksBuffer.PrepareForCapture` | src/OpenTelemetry.AutoInstrumentation.Native/continuous_profiler.cpp:958-1015 | keeps the budget exact, drops inactive threads, reclaims only under contention and, with exact reservation, leaves min(active, 1024) threads with storage |
| `ThreadStacks.FairStep` | src/OpenTelemetry.AutoInstrumentation.Native/continuous_profiler.cpp:993-1014 | admitting one more thread keeps the budget sufficient for all that are still to come |
| `ThreadStacks.FairEnd` | src/OpenTelemetry.AutoInstrumentation.Native/continuous_profiler.cpp:993-1014 | after all are admitted, as many threads have storage as the limit admits |
| `ThreadStacks.SumBound` | src/OpenTelemetry.AutoInstrumentation.Native/continuous_profiler.cpp:976-991 | capping each vector bounds the total by the number of provisioned threads |
| `ThreadStacks.ThreadStacksBuffer.Reset` | src/OpenTelemetry.AutoInstrumentation.Native/continuous_profiler.cpp:1017-1023 | clears all frames and keeps all storage |
| `ThreadStacks.ThreadStacksBuffer.Clear` | src/OpenTelemetry.AutoInstrumentation.Native/continuous_profiler.cpp:1025-1030 | gives everything back, the cached vector included |
| `SampleFormat.FrameBack` | src/OpenTelemetry.AutoInstrumentation.Native/continuous_profiler.cpp:507-523 | a frame reads back whether its name is coded, gets a code, or comes after the 9999 codes have run out |
| `SampleFormat.StreamBack` | src/OpenTelemetry.AutoInstrumentation.Native/continuous_profiler.cpp:359-383 | a decoder of the documented format recovers all records and the frame names of every sample, names cut at 512 units, whatever its dictionary held before |
| `SampleBuffer.ThreadSamplesBuffer.CanWrite` | src/OpenTelemetry.AutoInstrumentation.Native/continuous_profiler.cpp:525-534 | a write is refused, and the flag set for good, exactly when it does not fit 204800 bytes |
| `SampleBuffer.ThreadSamplesBuffer.WriteShort` | src/OpenTelemetry.AutoInstrumentation.Native/continuous_profiler.cpp:541-549 | the two shifted bytes are the big-endian value |
| `SampleBuffer.ThreadSamplesBuffer.WriteInt` | src/OpenTelemetry.AutoInstrumentation.Native/continuous_profiler.cpp:550-561 | so are the four |
| `SampleBuffer.ThreadSamplesBuffer.WriteUInt64` | src/OpenTelemetry.AutoInstrumentation.Native/continuous_profiler.cpp:591-606 | so are the eight |
| `SampleBuffer.ThreadSamplesBuffer.WriteString` | src/OpenTelemetry.AutoInstrumentation.Native/continuous_profiler.cpp:562-582 | a string is written whole, cut at 512 units and length-prefixed, or not at all |
| `SampleBuffer.ThreadSamplesBuffer.RecordFrame` | src/OpenTelemetry.AutoInstrumentation.Native/continuous_profiler.cpp:482-486 | extends the ideal stream by the frame's code or its definition |
| `SampleBuffer.ThreadSamplesBuffer.WriteCodedFrameString` | src/OpenTelemetry.AutoInstrumentation.Native/continuous_profiler.cpp:507-524 | writes a known code, or defines the next one and stores it only below the code limit |
| `SampleBuffer.ThreadSamplesBuffer.StartBatch` | src/OpenTelemetry.AutoInstrumentation.Native/continuous_profiler.cpp:413-419 | extends the ideal stream by the batch header |
| `SampleBuffer.ThreadSamplesBuffer.StartSample` | src/OpenTelemetry.AutoInstrumentation.Native/continuous_profiler.cpp:440-447 | extends it by the sample header |
| `SampleBuffer.ThreadSamplesBuffer.StartSampleForSelectedThread` | src/OpenTelemetry.AutoInstrumentation.Native/continuous_profiler.cpp:449-457 | extends it by the header of a selected thread |
| `SampleBuffer.ThreadSamplesBuffer.AllocationSample` | src/OpenTelemetry.AutoInstrumentation.Native/continuous_profiler.cpp:465-480 | extends it by the header of an allocation sample |
| `SampleBuffer.ThreadSamplesBuffer.MarkSelectedForFrequentSampling` | src/OpenTelemetry.AutoInstrumentation.Native/continuous_profiler.cpp:459-463 | extends it by the mark |
| `SampleBuffer.ThreadSamplesBuffer.EndSample` | src/OpenTelemetry.AutoInstrumentation.Native/continuous_profiler.cpp:487-491 | extends it by the end of the frame list |
| `SampleBuffer.ThreadSamplesBuffer.WriteFinalStats` | src/OpenTelemetry.AutoInstrumentation.Native/continuous_profiler.cpp:497-505 | extends it by the statistics |
| `SampleBuffer.ThreadSamplesBuffer.ResolveFrames` | src/OpenTelemetry.AutoInstrumentation.Native/continuous_profiler.cpp:1182-1192 | extends it by all frames of a stack, in order, with the codes moving on |
| `SampleBuffer.PublishAllThreads` | src/OpenTelemetry.AutoInstrumentation.Native/continuous_profiler.cpp:1211-1247 | overflow exactly when the ideal stream exceeds the limit; otherwise the buffer is that stream and decodes to every sample |
| `SampleBuffer.PublishSelectedThreads` | src/OpenTelemetry.AutoInstrumentation.Native/continuous_profiler.cpp:1249-1275 | the same for a batch of selected threads |
| `SampleBuffer.PublishAllocation` | src/OpenTelemetry.AutoInstrumentation.Native/continuous_profiler.cpp:2120-2158 | an allocation sample reaches the shared buffer exactly when its stack was captured, nothing was cancelled and there is room; otherwise the shared buffer is as before |
| `SampleBuffer.AllocationsReadBack` | src/OpenTelemetry.AutoInstrumentation.Native/continuous_profiler.cpp:2114-2119 | the shared buffer of separately coded samples decodes to all of them, whatever the decoder's dictionary held before |
| `SampleBuffer.AllocationBuffer.Append` | src/OpenTelemetry.AutoInstrumentation.Native/continuous_profiler.cpp:254-268 | appends a whole sample below 204800 bytes in all, or drops it whole |
| `SampleBuffer.AllocationBuffer.ConsumeAndReplace` | src/OpenTelemetry.AutoInstrumentation.Native/continuous_profiler.cpp:271-293 | hands out and empties the buffer; a reader with room for all of it decodes every sample held |
| `NameCache.CacheHoldsMostRecent` | src/OpenTelemetry.AutoInstrumentation.Native/continuous_profiler.cpp:2306-2336 | evicting at every step leaves the most recently used keys of the whole run, latest first |
| `NameCache.NameCache.Get` | src/OpenTelemetry.AutoInstrumentation.Native/continuous_profiler.cpp:2306-2318 | a hit returns the value last put for the key and moves its node to the front |
| `NameCache.NameCache.Put` | src/OpenTelemetry.AutoInstrumentation.Native/continuous_profiler.cpp:2320-2336 | pushes in front and evicts the last node when the index outgrows its limit; the cache stays well formed exactly when the key was absent |
| `NameCache.PutNew` | src/OpenTelemetry.AutoInstrumentation.Native/continuous_profiler.cpp:2320-2336 | for an absent key it is the put of a least-recently-used cache: the new entry first, the last one evicted from a full cache |
| `NameCache.NameCache.Clear` | src/OpenTelemetry.AutoInstrumentation.Native/continuous_profiler.cpp:2338-2343 | empties list and index together |
| `NameCache.OutgrowsItsLimit` | src/OpenTelemetry.AutoInstrumentation.Native/continuous_profiler.cpp:2320-2336 | putting a present key can take the index past its limit, whatever the limit: a run on a fresh cache of limit n ends with n + 1 entries |
| `NameCache.PutOnKeys` | src/OpenTelemetry.AutoInstrumentation.Native/continuous_profiler.cpp:2320-2336 | what any put does to the keys of list and index, which the counterexample computes with |
| `NameCache.NamingHelper.Lookup` | src/OpenTelemetry.AutoInstrumentation.Native/continuous_profiler.cpp:840-869 | returns a live name that its identifier resolves to; eviction deletes the least recently used name, once, and never the returned one |
| `NameCache.NamingHelper.LookupAll` | src/OpenTelemetry.AutoInstrumentation.Native/continuous_profiler.cpp:840-869 | over any run the cache holds the 5000 most recently used identifiers in order, and at most that many names are live |
| `NameCache.NamingHelper.LookupManagedFunction` | src/OpenTelemetry.AutoInstrumentation.Native/continuous_profiler.cpp:871-882 | trusts valid cached identifiers only, and breaks the cache's form exactly when it resolves a cached invalid one again |
| `Scheduler.DecisionIsPrescribed` | src/OpenTelemetry.AutoInstrumentation.Native/continuous_profiler.cpp:1075-1101 | stepping the counter and comparing it with the ratio samples all threads exactly on every (C/S)-th cycle, or once in 2^32 when C < S |
| `Scheduler.PacedStep` | src/OpenTelemetry.AutoInstrumentation.Native/continuous_profiler.cpp:1534-1552 | a cycle that is on schedule keeps the whole history on schedule |
| `Scheduler.OnTimeExactly` | src/OpenTelemetry.AutoInstrumentation.Native/continuous_profiler.cpp:1075-1101 | all threads are sampled in exactly the cycles that end a multiple of the CPU interval after the configuration was taken up, if and only if one kind is enabled alone or the CPU interval is a multiple of the selective one |
| `Scheduler.AdmissibleExactly` | src/OpenTelemetry.AutoInstrumentation.Native/runtime_sampler_configuration.cpp:11-21 | the validity check asks for precisely that, and that some cycle samples the selected threads only |
| `Scheduler.AllThreadsEveryCpuInterval` | src/OpenTelemetry.AutoInstrumentation.Native/continuous_profiler.cpp:1534-1552 | in any scheduled history, a cycle under a pair of intervals that passes the check samples all threads exactly when it is due |
| `Scheduler.StarvedWhenSelectiveIsSlower` | src/OpenTelemetry.AutoInstrumentation.Native/runtime_sampler_configuration.cpp:13-15 | why the check is needed: with C < S, which it rejects before anything is staged, no cycle of a run below 2^32 cycles would sample all threads |
| `Scheduler.SamplingThread.StageThreadSamplingConfiguration` | src/OpenTelemetry.AutoInstrumentation.Native/continuous_profiler.cpp:1663-1674 | replaces the mailbox and steps its version |
| `Scheduler.SamplingThread.Resume` | src/OpenTelemetry.AutoInstrumentation.Native/continuous_profiler.cpp:1523-1528 | a new wait starts under the latest configuration, or ends on shutdown |
| `Scheduler.SamplingThread.Refresh` | src/OpenTelemetry.AutoInstrumentation.Native/continuous_profiler.cpp:1688-1697 | the top of the waiting loop takes over what is in the mailbox |
| `Scheduler.SamplingThread.Wake` | src/OpenTelemetry.AutoInstrumentation.Native/continuous_profiler.cpp:1687-1714 | a cycle is admitted exactly when an enabled interval runs out under the latest staged configuration without shutdown |
| `Scheduler.SamplingThread.RunCycle` | src/OpenTelemetry.AutoInstrumentation.Native/continuous_profiler.cpp:1524-1552 | resets, steps and compares the iteration counter so that it never passes the ratio |
| `Scheduler.SamplingThread.Run` | src/OpenTelemetry.AutoInstrumentation.Native/continuous_profiler.cpp:1490-1564 | over any run of stagings, shutdowns, notifications and deadlines every admitted cycle is on schedule and under the latest enabled configuration |
| `RuntimeSampler.RuntimeSamplerService.ApplyConfiguration` | src/OpenTelemetry.AutoInstrumentation.Native/runtime_sampler_service.cpp:39-219 | a configuration is committed exactly when the service is alive, the source has enough authority, the configuration is valid and its activation succeeds; everything else leaves authority, configuration and mailbox alone, and unchanged intervals are not staged again |
| `RuntimeSampler.RuntimeSamplerService.Activate` | src/OpenTelemetry.AutoInstrumentation.Native/runtime_sampler_service.cpp:136-183 | the fallible steps in their order, and which of their failures may be final |
| `RuntimeSampler.RuntimeSamplerService.Publish` | src/OpenTelemetry.AutoInstrumentation.Native/runtime_sampler_service.cpp:185-199 | the commit, and the staging of intervals that have changed |
| `RuntimeSampler.RuntimeSamplerService.Shutdown` | src/OpenTelemetry.AutoInstrumentation.Native/runtime_sampler_service.cpp:404-419 | stops the sampling thread for good |
| `RuntimeSampler.RuntimeSamplerService.Work` | src/OpenTelemetry.AutoInstrumentation.Native/continuous_profiler.cpp:1524-1552 | a step of the sampling thread: every cycle it admits has the committed intervals, and none is admitted after a shutdown or a final failure |
| `RuntimeSampler.RuntimeSamplerService.Run` | src/OpenTelemetry.AutoInstrumentation.Native/runtime_sampler_service.cpp:39-219 | over any run of applications, failures, shutdowns and wakes: only valid configurations are committed, none but the first by a seed, and all threads are sampled exactly when the CPU interval has run out |
| `SelectiveTraces.TightMeansEager` | src/OpenTelemetry.AutoInstrumentation.Native/continuous_profiler.cpp:1309-1342 | lazy checks find all expired traces from now on if and only if no scan is due after a deadline |
| `SelectiveTraces.LazyOutlivesEager` | src/OpenTelemetry.AutoInstrumentation.Native/continuous_profiler.cpp:1297-1299 | truncating deadlines to milliseconds parts the two: after a check, a start and a late check on a fresh object the trace is still held, which an eager run has dropped |
| `SelectiveTraces.SelectiveSampling.TryAddSelectiveSamplingTrace` | src/OpenTelemetry.AutoInstrumentation.Native/continuous_profiler.cpp:1288-1301 | refused exactly at 50 traces; keeps expiry prompt exactly when the truncated deadline does not precede the next scan |
| `SelectiveTraces.SelectiveSampling.HasActiveSelectiveSamplingEntries` | src/OpenTelemetry.AutoInstrumentation.Native/continuous_profiler.cpp:1309-1342 | removes nothing early and keeps nothing a millisecond past its deadline; when prompt, what an eager purge leaves |
| `SelectiveTraces.SelectiveSampling.RemoveSelectiveSamplingTrace` | src/OpenTelemetry.AutoInstrumentation.Native/continuous_profiler.cpp:1303-1307 | removes one trace and keeps expiry prompt |
| `SelectiveTraces.SelectiveSampling.Reenable` | src/OpenTelemetry.AutoInstrumentation.Native/continuous_profiler.cpp:1690-1698 | switching selective sampling on again makes a scan due at once |
| `SelectiveTraces.SelectiveSampling.Run` | src/OpenTelemetry.AutoInstrumentation.Native/continuous_profiler.cpp:1288-1342 | for whole-millisecond starts or checks, any interleaving leaves exactly the traces of the eager run, at most 50 |
| `SubSampler.CycleBound` | src/OpenTelemetry.AutoInstrumentation.Native/continuous_profiler.cpp:1997-2044 | no cycle or epoch has more samples than the target it ran under |
| `SubSampler.StartupWindowBound` | src/OpenTelemetry.AutoInstrumentation.Native/continuous_profiler.cpp:2022-2042 | a steady-clock window of width W holds at most W / spacing + 1 samples of an epoch's startup cycles |
| `SubSampler.StartupWindowBoundOverEpochs` | src/OpenTelemetry.AutoInstrumentation.Native/continuous_profiler.cpp:1945-2042 | across any changes of target, a window holds at most the sum of what the pacing admits of each epoch met in it |
| `SubSampler.AllocationSubSampler.ShouldSample` | src/OpenTelemetry.AutoInstrumentation.Native/continuous_profiler.cpp:1997-2044 | accepts exactly under the cap, past the startup spacing and on a winning die, and keeps the history within its bounds |
| `SubSampler.AllocationSubSampler.SetTargetPerCycle` | src/OpenTelemetry.AutoInstrumentation.Native/continuous_profiler.cpp:1945-1967 | a changed nonzero target starts a new epoch; zero and unchanged targets leave the pacing state alone |
| `SubSampler.AllocationSubSampler.AdvanceCycle` | src/OpenTelemetry.AutoInstrumentation.Native/continuous_profiler.cpp:1974-1984 | starts a new cycle and uses up one startup cycle |
| `Transcoding.Decode8` | src/OpenTelemetry.AutoInstrumentation.Native/miniutf.cpp:96-165 | decoding advances, stays within the length and reads no further than the terminator |
| `Transcoding.Decode8OfEncode8` | src/OpenTelemetry.AutoInstrumentation.Native/miniutf.cpp:35-61 | decoding the encoding of any code point below 0x110000 gives it back |
| `Transcoding.Encode8OfDecode8` | src/OpenTelemetry.AutoInstrumentation.Native/miniutf.cpp:96-165 | every accepted sequence is the one encoding of its code point |
| `Transcoding.Decode16OfEncode16` | src/OpenTelemetry.AutoInstrumentation.Native/miniutf.cpp:63-77 | the same for UTF-16 and scalar values |
| `Transcoding.Encode16OfDecode16` | src/OpenTelemetry.AutoInstrumentation.Native/miniutf.cpp:174-191 | every accepted unit or pair is the encoding of a scalar value |
| `Transcoding.ToUtf8IsValid` | src/OpenTelemetry.AutoInstrumentation.Native/miniutf.cpp:298-305 | to_utf8 of any UTF-16 string passes utf8_check |
| `Transcoding.Utf16RoundTrip` | src/OpenTelemetry.AutoInstrumentation.Native/miniutf.cpp:289-305 | to_utf16(to_utf8(s)) == s exactly when utf16_check(s) |
| `Transcoding.Utf8RoundTrip` | src/OpenTelemetry.AutoInstrumentation.Native/miniutf.cpp:289-305 | to_utf8(to_utf16(b)) == b exactly when b passes utf8_check and encodes no surrogates |
| `Transcoding.Utf8Encode` | src/OpenTelemetry.AutoInstrumentation.Native/miniutf.cpp:35-61 | appends the encoding |
| `Transcoding.Utf16Encode` | src/OpenTelemetry.AutoInstrumentation.Native/miniutf.cpp:63-77 | appends the UTF-16 encoding |
| `Transcoding.Utf8Decode` | src/OpenTelemetry.AutoInstrumentation.Native/miniutf.cpp:212-227 | returns the decoded point or U+FFFD, moves forward and not past the end |
| `Transcoding.Utf16Decode` | src/OpenTelemetry.AutoInstrumentation.Native/miniutf.cpp:229-244 | the same for UTF-16 |
| `Transcoding.Utf8Check` | src/OpenTelemetry.AutoInstrumentation.Native/miniutf.cpp:250-266 | true exactly for strings that decode throughout |
| `Transcoding.Utf16Check` | src/OpenTelemetry.AutoInstrumentation.Native/miniutf.cpp:250-270 | the same for UTF-16 |
| `Transcoding.ConvertToUtf16` | src/OpenTelemetry.AutoInstrumentation.Native/miniutf.cpp:289-296 | the loop computes the conversion |
| `Transcoding.ConvertToUtf8` | src/OpenTelemetry.AutoInstrumentation.Native/miniutf.cpp:298-305 | the loop computes the conversion |
| `AssemblyRedirects.ComparisonIsByRank` | src/OpenTelemetry.AutoInstrumentation.Native/clr_helpers.h:671-683 | the comparison is the lexicographic total order of four-part versions |
| `AssemblyRedirects.RedirectIsConsistent` | src/OpenTelemetry.AutoInstrumentation.Native/clr_helpers.cpp:393-456 | one reference keeps the table what the record of events makes of the initial one, counts modulo 2^32 |
| `AssemblyRedirects.RunIsConsistent` | src/OpenTelemetry.AutoInstrumentation.Native/clr_helpers.cpp:354-458 | so do all references of any run |
| `AssemblyRedirects.RedirectStaysStable` | src/OpenTelemetry.AutoInstrumentation.Native/clr_helpers.cpp:393-456 | one reference keeps targets final exactly when it is not a higher reference to a used name whose count reads zero, and never mends what is not final |
| `AssemblyRedirects.RunIsStableExactly` | src/OpenTelemetry.AutoInstrumentation.Native/clr_helpers.cpp:354-458 | over any run from a fresh table, a target moves at most once, upward, before its first use, and every rewritten reference carries the final target, if and only if no such reference occurs in the run |
| `AssemblyRedirects.UnsettledByWrapOnly` | src/OpenTelemetry.AutoInstrumentation.Native/clr_helpers.cpp:415-443 | such a reference takes a use count that is a positive multiple of 2^32 |
| `AssemblyRedirects.TargetsAreStable` | src/OpenTelemetry.AutoInstrumentation.Native/clr_helpers.cpp:354-458 | so targets are final up to 2^32 uses |
| `AssemblyRedirects.LowerReferences` | src/OpenTelemetry.AutoInstrumentation.Native/clr_helpers.cpp:393-456 | n references below the target are all rewritten to it and leave the count at n modulo 2^32 |
| `AssemblyRedirects.WrapUnsettlesTargets` | src/OpenTelemetry.AutoInstrumentation.Native/clr_helpers.cpp:393-456 | a run that does it: 2^32 lower references and then one above the target, from a fresh table, move a target that has been used |
| `AssemblyRedirects.AssemblyRedirector.RedirectAssemblyReferences` | src/OpenTelemetry.AutoInstrumentation.Native/clr_helpers.cpp:354-458 | the loop does to the table, and to every reference's version, what the step function says |
| `AssemblyRedirects.AssemblyRedirector.RedirectReference` | src/OpenTelemetry.AutoInstrumentation.Native/clr_helpers.cpp:360-456 | one turn of the loop, with the reference's version afterwards |
| `BindingPolicy.SelectedIsHighest` | src/OpenTelemetry.AutoInstrumentation.Loader/AssemblyBindingUpdater.cs:290-343 | the exception for having nothing to select is unreachable, and the selected candidate has the highest version of all |
| `BindingUpdate.NoMoreHints` | src/OpenTelemetry.AutoInstrumentation.Loader/AssemblyBindingUpdater.cs:247-283 | once added, codeBase hints cover all candidates, those that come from the hints included |
| `BindingUpdate.NormalisedTwice` | src/OpenTelemetry.AutoInstrumentation.Loader/AssemblyBindingUpdater.cs:351-379 | selecting again among what a rewritten entry leaves gives the same entry |
| `BindingUpdate.UpdateShape` | src/OpenTelemetry.AutoInstrumentation.Loader/AssemblyBindingUpdater.cs:129-184 | rewritten entries come last in catalog order, everything else stays in place |
| `BindingUpdate.UpdateIsIdempotent` | src/OpenTelemetry.AutoInstrumentation.Loader/AssemblyBindingUpdater.cs:129-184 | a second update changes nothing: rewriting, ambiguous and disallowed cases, over any configuration and catalog |
| `BindingUpdate.RewrittenToHighest` | src/OpenTelemetry.AutoInstrumentation.Loader/AssemblyBindingUpdater.cs:129-184 | a rewritten assembly has one entry, whose redirect targets the maximum of all candidate versions |
| `BindingUpdate.UnrelatedStay` | src/OpenTelemetry.AutoInstrumentation.Loader/AssemblyBindingUpdater.cs:149-184 | entries about no assembly of the catalog keep content and order |
| `BindingUpdater.AssemblyBindingUpdater.CollectCandidates` | src/OpenTelemetry.AutoInstrumentation.Loader/AssemblyBindingUpdater.cs:191-239 | the loop collects profiler, codeBase, probing and redirect candidates in order |
| `BindingUpdater.AssemblyBindingUpdater.EnsureCandidateCodeBases` | src/OpenTelemetry.AutoInstrumentation.Loader/AssemblyBindingUpdater.cs:247-283 | adds the missing hints to the first matching entry or to a new one, and nothing else |
| `BindingUpdater.AssemblyBindingUpdater.RewriteDependentAssembly` | src/OpenTelemetry.AutoInstrumentation.Loader/AssemblyBindingUpdater.cs:351-379 | removes all matching entries and appends the normalised one |
| `BindingUpdater.AssemblyBindingUpdater.UpdateAssembly` | src/OpenTelemetry.AutoInstrumentation.Loader/AssemblyBindingUpdater.cs:147-183 | one turn of the loop: rewrite, or only hints when redirects are disallowed or ambiguous |
| `BindingUpdater.AssemblyBindingUpdater.ModifyAssemblyBinding` | src/OpenTelemetry.AutoInstrumentation.Loader/AssemblyBindingUpdater.cs:129-184 | the loop over the catalog computes the specified update |

## Left out

- InstructionList.LaidOut: code sizes at or above 2^31 bytes and lists whose switch tables or targets are malformed are outside the layout results, as the source computes offsets in 32 bits.
- Opcodes.OperandsOf: the flag table is written out from opcode.def; the header's own text is not part of this model.
- IlRewriter.ILRewriter.Export: the 32-bit product of instruction count and 10 is taken not to wrap, allocation does not fail, and the tiny or fat header around the code is not assembled.
- IlRewriter.ILRewriter.ImportIL: runs on a rewriter without instructions; the operand union of a node is kept as two fields, one for values and one for targets.
- LocalSignatureRewrite.ModifyLocalSig: is stated for old signatures with the local-signature tag and a readable count, and for new counts below 2^29; what a write outside the buffer does is not modelled beyond its happening.
- SignatureParser.ParseType: recursion depth is not limited; GenericTypeProps::TryParse is not modelled.
- ThreadStacks.ThreadStacksBuffer.PrepareForCapture: fairness is stated for reservation that grants exactly what is asked; for any other the budget and the limits hold all the same.
- IlRewriter.ILRewriter.InsertBefore: AdjustState, which adds the opcode's pushes to m_maxStack, is not modelled.
- IlRewriter.ILRewriter.InsertAfter: likewise without AdjustState.
- IlRewriter.ILRewriter.EditAndExport: the edits are a given sequence, each before or behind an instruction listed by then; the inserted branches point into the edited list.
- ThreadStacks.ThreadStacksBuffer.CaptureFunctionIdentifiers: starts from a buffer without frames, as the reset after each cycle leaves it; shutdown is seen at the start or behind some number of delivered frames, and what else the walker reports is left out.
- SampleBuffer.PublishAllThreads: the header carries the trace mark that selective sampling adds; order of threads is that of a given sequence where the source walks a hash map.
- NameCache.NamingHelper.Lookup: how a name is resolved is a function of the identifier; resolution order and failures of the runtime calls are inside it.
- RewriteRecognition.RecognizedExactly: speaks of signatures in the grammar of the profiler's parser; ModifyLocalSig reads any blob, so pinned, multi-dimensional array and function-pointer locals are outside it.
- Scheduler.SamplingThread.Run: real time is left out, a deadline is an event; the 64-bit configuration version is unbounded; stack capture between cycles is not part of the state.
- RuntimeSampler.RuntimeSamplerService.ApplyConfiguration: what each fallible step comes to is a parameter, latched outcomes included; the allocation target and session behind it are not part of the state.
- SelectiveTraces.SelectiveSampling.Run: times are nonnegative nanoseconds in the order the operations take the lock.
- SubSampler.AllocationSubSampler.ShouldSample: the two clocks and the die are parameters, and the steady clock does not run backwards.
- Transcoding.ConvertToUtf8: UTF-32, lowercasing and normalisation are left out.
- AssemblyRedirects.AssemblyRedirector.RedirectAssemblyReferences: other code that raises the use count of a redirection is not modelled; whether metadata can be read or set is a parameter of each reference.
- BindingUpdate.UpdateIsIdempotent: XML elements are values, so their identity, whitespace and comments are not modelled; probing and version texts are functions of the platform, with locations that are not blank.
- m_maxStack, section headers, COM and metadata calls, ReJIT, event callbacks, stack walking, probing of files, logging and shutdown admission are not modelled.
- Single-instruction helpers, the loader IL, generated redirection tables and package tooling would only add easy members.
