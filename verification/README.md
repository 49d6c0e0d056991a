# eBPFDexDumper: a verified model of capture and repair

eBPFDexDumper-rs watches Android processes from the kernel, collects the DEX
files and method bytecode they really execute, and afterwards repairs the
dumped files so that ordinary tools can read them. This project models the
parts of it that carry the correctness argument and proves what they are for.

- **DEX repair** (`Bytes`, `Leb128`, `ClassData`, `CodeItem`, `Dex`, `MapList`,
  `Synthesis`, `Relocation`, `FormatFix`, `Validator`, `Repair`): every
  `class_data_item` is parsed, captures that fit are written in place, missing
  `code_item`s are synthesized, all live items are copied into two fresh runs at
  the end of the file, the old sections are zeroed, map, header bounds and
  digests are rebuilt, and an independent validator has the last word. The
  proofs are in `RelocationProofs`, `Relocated`, `Live`, `FormatProofs`,
  `InPlace`, `Runs`, `GrownLength`, `Sealing`, `RepairProofs`, `RepairTheorems`,
  `RepairedProgram`, `RepairedRest`, `RepairOutcome`, `StaleOffsets`,
  `Unshared`, `Idempotence`, `Closure` and `Sharing`; `Example` is a concrete
  file. `CodeItemFormat`, `SynthesisExact` and `ValidatorExact` say from outside
  what an item is, what a synthesized one holds and what an accepted file is.
  `DexImages` is the repair as it runs, a buffer edited in place.
- **Bytecode walker** (`Bytecode`, `BytecodeFormat`): which instruction streams
  decode, and the register window they need; and an assembler for every Dalvik
  format, whose output the walker reads back.
- **Strings** (`Mutf8`): modified UTF-8 and string items.
- **Capture** (`Intervals`, `Reassembly`, `Capture`, `CaptureProofs`,
  `CodeFiles`, `CapturedRecords`, `Outcomes`, `History`, `AnyOrder`,
  `MapsRegions`): reassembling files from chunks, quarantine, saving and
  flushing; what each event does, and what a run leaves behind, told by bytes and
  by what was captured. `DumpStates` is the shared state as an object whose
  handlers update it in place.
- **Chunk protocol** (`ChunkProtocol`, `ChunkProducer`, `SavedMemory`): kernel
  probes, a lossy ring, evictable progress, and the consumer, as one transition
  system, down to the files it writes.
- **ELF sections** (`ElfDiscovery`, `GnuHash`, `ElfSections`, `ElfLayout`,
  `ElfRebuild`, `ElfProofs`, `ElfReadBack`, `RebuiltFile`, `ElfSegments`,
  `ElfTags`): finding the sections of a dumped shared object and rebuilding its
  program headers and section table, read back from the rebuilt file. `SoImages`
  is the rebuild as it runs.

## How to read it

Each operation is a function on values that follows the program branch by
branch; the loops and the classes (`DexImage`, `DexRecvState`, `DumpState`,
`KernelMaps`, `SoImage`) are methods proved against those functions; the
theorems are lemmas about the functions. `dafny verify dfyconfig.toml` checks
everything.

A repair's input is `RepairTheorems.WellFormed`: supported header, id tables
before the data, a map that lists itself with distinct types and offsets, class
data and items that parse and do not overlap each other or the map, unusable code
offsets that do not point into live items, method indices in range.
`Recoverable` adds that whatever keeps its own code offset keeps a usable one or
none; `Relocates` that some method lost its body or has a record that does not
fit. SHA-1 and Adler-32 are arbitrary functions of the file.

An image to be rebuilt is `RebuiltFile.Describable` when it opens, has segments
to find sections in, fits its file class, and its sections that share a start
address stay apart.

## Two things the proofs turned up

- A repair that accounts for every method is not always a fixed point. Zeroing
  the retired section, or growing the file, can make a record usable that was
  not, and the second run then relocates once more.
  `Example.SecondRunMovesAgain` is such a file: its last string lost its
  terminator. And when methods that share an item have different records for it,
  a relocation takes the item apart and the second run writes each its own.
  `Sharing.RepairIdempotent` says exactly when the second run changes nothing.
- Sizing a section from its neighbour leaves a section alone when the next one
  starts at the same address. If it is not empty and a later section is not
  either, they can overlap (`ElfSections.SharedStartOverlaps`); a shared start
  can also be harmless (`ElfSections.SharedStartMayBeEmpty`).
  `ElfSections.NeighbourSizingIsDisjoint` says exactly when sections are disjoint.

## Model

| member | source | states |
|---|---|---|
| Leb128.UlebRoundTrip | src/fix.rs:1164-1176 | every u32 reads back from its encoding anywhere in any buffer, and reading stops where the encoding ends |
| Leb128.EncodingLength | src/fix.rs:1164-1176 | a u32 never takes more than the five bytes the reader follows |
| Leb128.AnyGroupsRead | src/dex.rs:379-395 | up to five groups, shortest form or not, read as the low 32 bits of the number they stand for; signed, as that number, sign bit of the last group included, when it is an i32, and are refused otherwise |
| Leb128.UlebStops | src/dex.rs:379-395 | no number, signed or not, is read when the fifth group is not the last |
| Leb128.GroupsCut | src/dex.rs:379-395 | nor when the bytes end before a last group does |
| Leb128.SlebRoundTrip | src/fix.rs:1339-1353 | every i32 reads back from its signed encoding anywhere in any buffer; larger numbers of up to 35 bits are refused |
| Leb128.ReadUlebLocal | src/dex.rs:379-395 | a ULEB128 reads the same wherever its bytes stand and whatever surrounds them |
| Leb128.ReadSlebLocal | src/fix.rs:1339-1353 | the same for SLEB128, the refusal of values outside i32 included |
| Leb128.TakeUleb | src/fix.rs:1076-1080 | the shift-and-or loop, 32-bit truncation of a fifth group included, computes the number the groups denote |
| Leb128.TakeSleb | src/fix.rs:1339-1353 | the 64-bit loop with sign extension computes the signed number the groups denote, or refuses it |
| Leb128.PushUleb | src/fix.rs:1164-1176 | the byte loop appends exactly the encoding |
| ClassData.ClassDataRoundTrip | src/fix.rs:1119-1162 | encoding an item and parsing it at any position in any buffer gives the item back and ends exactly at the encoded length |
| ClassData.RoundTripExactlyWhenEncodable | src/fix.rs:1119-1162 | the round trip holds if and only if indices ascend within each list and no item is pending |
| ClassData.ParsedIsEncodable | src/fix.rs:1119-1134 | whatever bytes the parser accepts, saturation included, its result is encodable, hence round-trips |
| ClassData.OffsetEditsStayEncodable | src/fix.rs:910-938 | rewriting code offsets of an encodable item keeps it encodable |
| ClassData.ParseClassDataLocal | src/fix.rs:1119-1134 | class data parses the same wherever its bytes stand |
| ClassData.ReadEncodedFieldList | src/fix.rs:1082-1096 | the field loop, delta-coded from zero, reads the list the format denotes or fails where it does |
| ClassData.ReadEncodedMethodList | src/fix.rs:1098-1113 | the same for methods |
| ClassData.ParseClassDataEnd | src/fix.rs:1119-1134 | the parser, four lists with deltas restarted for each, returns item and end position, or the error |
| ClassData.EncodeClassItem | src/fix.rs:1137-1162 | the encoder loops build exactly the encoding the round trip is about |
| CodeItem.CodeItemEndLocal | src/fix.rs:1290-1337 | the end of an item, its padding, try table, handler lists and address checks included, depends only on its shape and not on where it lies |
| CodeItemFormat.ItemFound | src/fix.rs:1290-1337 | encoding any valid item - instructions, padding, tries, handlers with pairs, catch-alls or both - at any nonzero aligned offset of any buffer, the end found is exactly the end of the encoding, and its instructions are those encoded |
| CodeItemFormat.AcceptedIsItem | src/fix.rs:1290-1337 | an offset is accepted with a given end if and only if a whole item is written between the two: try items covering its own instructions and naming starts of its own handlers, all handler addresses inside, a catch-all exactly after a size that is not positive |
| CodeItemFormat.HandlerFound | src/fix.rs:1304-1325 | an encoded handler is skipped whole, its catch-all address included when it has one |
| CodeItem.SameBytesSameShape | src/fix.rs:1290-1337 | the same bytes at another offset have the same shape |
| CodeItem.WalkHandlers | src/fix.rs:1304-1325 | the handler walk returns the offsets at which handlers start and where the list ends; what a handler is, `CodeItemFormat.HandlerFound` says |
| CodeItem.CheckTries | src/fix.rs:1326-1335 | the try check accepts exactly tables whose tries stay in the code and name a handler that starts there |
| CodeItem.LocateCodeItemEnd | src/fix.rs:1290-1337 | the whole computation, every error included |
| Bytecode.ScanExact | src/bytecode.rs:194-326 | a stream is accepted if and only if it is whole units that tile into defined instructions and payloads naming no register above the 16-bit window; then all units were walked, the register count is the least bound above every named register, wide halves included, and the outs count the largest argument window |
| Bytecode.CutIsOnlyTiling | src/bytecode.rs:203-326 | there is at most one way to tile a stream |
| Bytecode.CutReachesEndIffTiles | src/bytecode.rs:203-326 | the walk reaches the end exactly when the stream tiles |
| Bytecode.RegMarkIsLeastBound | src/bytecode.rs:159-192 | the register mark is the least bound above every register the instructions name |
| Bytecode.OutsMarkIsMaximum | src/bytecode.rs:203-326 | the outs mark is the largest argument count passed |
| Bytecode.ScanFromClosed | src/bytecode.rs:194-326 | on failure the partial marks are those of the clean prefix and the fault is that of the first bad position |
| Bytecode.ScanComposes | src/bytecode.rs:203-365 | after a stream that scans, any further units scan or fail as alone, marks joined and positions shifted |
| Bytecode.ScanInsns | src/bytecode.rs:194-326 | the loop with its running marks, all formats and payloads, returns that result |
| BytecodeFormat.OpcodesAre | src/bytecode.rs:84-192 | for each of the 256 opcodes, width, register fields and which of them name pairs are those of the format the Dalvik documentation gives it, types of conversions, arithmetic and memory accesses derived from their families; unused opcodes have none |
| BytecodeFormat.InstructionDecodes | src/bytecode.rs:203-308 | every instruction assembled from its registers, anywhere in a stream, is read as itself: its length, its registers with the high halves of longs and doubles, its argument words |
| BytecodeFormat.RefusedInstructions | src/bytecode.rs:203-308 | an instruction is refused exactly for an unused opcode, for being cut short, for more than five listed arguments, or for a range past the last register, and reported as that |
| BytecodeFormat.PayloadDecodes | src/bytecode.rs:330-365 | every packed-switch, sparse-switch and array payload, anywhere in a stream, is stepped over whole and names nothing |
| BytecodeFormat.RefusedPayloads | src/bytecode.rs:330-365 | a payload the stream cuts short after any of its units is reported as truncated |
| BytecodeFormat.AssembledScans | src/bytecode.rs:194-326 | any program assembled from instructions and payloads is walked to its end; its window is one past the highest register it names, high halves included, and its outgoing words are the most it passes; it is refused exactly when that window does not fit 16 bits |
| Mutf8.DecodeInvertsEncode | src/dex.rs:308-377 | decoding returns every string of Unicode scalar values from its encoding, two-byte NUL and surrogate pairs included |
| Mutf8.EncodingHasNoNul | src/dex.rs:308-377 | no encoding contains the terminator |
| Mutf8.MalformedIs | src/dex.rs:308-377 | each byte that starts nothing, and each lead byte without what it needs, becomes one replacement character; too few bytes after a lead end the string |
| Mutf8.WellFormedIs | src/dex.rs:308-377 | a surrogate outside a pair becomes one replacement character; other sequences stand for their bits, shortest or not |
| Mutf8.StringDataRoundTrip | src/dex.rs:188-208 | a length-prefixed, terminated string reads back anywhere in a file, whatever length it claims |
| Mutf8.DecodeMutf8 | src/dex.rs:308-377 | the decoding loop, replacement of malformed sequences included, computes the decoding |
| Dex.TablesEndBounds | src/fix.rs:1355-1400 | the id tables of a validated file end, aligned, inside it, past every table |
| Dex.ClassDefInside | src/fix.rs:1355-1400 | every class definition of a validated file lies between header and the end of the tables |
| Dex.CountWords | src/fix.rs:1007-1022 | the parameter loop counts two registers for long and double, one for the rest, and one for `this` |
| Synthesis.SynthesizedItem | src/fix.rs:960-1003 | a synthesized item is whole by itself, holds exactly the captured instructions, has no tries, and declares a window that covers its parameters and, unless forced, every register and argument its instructions use |
| Synthesis.StandaloneAnywhere | src/fix.rs:1290-1337 | a whole item ends with its bytes at any nonzero aligned offset of any file |
| SynthesisExact.HexIs | src/fix.rs:967-967 | a capture decodes to some bytes if and only if it spells them, two digits each, in either case |
| SynthesisExact.WrittenString | src/dex.rs:100-112 | a string entry that leads to a string written the way the format writes strings is that string |
| SynthesisExact.MethodReads | src/dex.rs:128-229 | the parameter descriptors of a method are found if and only if its entries resolve in their tables: class, name, prototype, return type and every parameter |
| SynthesisExact.IncomingIs | src/fix.rs:1007-1022 | the incoming words of a method are counted if and only if its entries resolve and 16 bits suffice: one for `this` unless static, one for each parameter, one more for each `J` or `D` |
| SynthesisExact.SynthesisIs | src/fix.rs:961-1003 | synthesis succeeds if and only if the capture is hexadecimal, nonempty and of whole units, scans or is forced, and its words can be counted; the item is then given byte by byte, its window the larger of the incoming words and what the scan found, if need be before it stopped |
| Synthesis.ExtractedIsStandalone | src/fix.rs:915-917 | the bytes copied out for a live item are whole by themselves |
| MapList.MapReadsBack | src/fix.rs:1204-1237 | an encoded table at an aligned offset named by the header reads back |
| MapList.SubstituteIs | src/fix.rs:1248-1255 | substitution replaces exactly the entries of the replaced types; an empty run leaves none |
| MapList.NewEntriesAre | src/fix.rs:1270-1276 | the table written is the given entries with one entry for itself, sorted by offset |
| MapList.MoveMapLayout | src/fix.rs:1268-1286 | the new table is aligned and ends the file, the old one is zero, and no other byte but `map_off` changes |
| MapList.RebuildMapExact | src/fix.rs:1239-1287 | on a change the result reads as the old entry set with replaced types substituted and a single self entry, in offset order, ending the file; everything else is in place |
| MapList.RebuildMapUnchanged | src/fix.rs:1239-1287 | it reports no change exactly when nothing was relocated and the table is already ordered, self-describing and last; then the file is untouched |
| MapList.RebuildSettles | src/fix.rs:1239-1287 | with distinct offsets a second rebuild finds nothing to do |
| RelocationProofs.PlanFromIs | src/fix.rs:803-881 | planning covers every class with data, in order, keeps its lists, and leaves each method nothing, a standalone item, or a whole item on disk |
| RelocationProofs.EmitMethodsAre | src/fix.rs:910-931 | each copied item stands, byte-equal, at the next aligned offset, and the copies follow one another |
| RelocationProofs.EmitBodiesAre | src/fix.rs:910-931 | the same over all classes: one contiguous run of code items |
| RelocationProofs.EmitClassesAre | src/fix.rs:937-944 | class data forms a second contiguous run and only the planned `class_data_off` fields change |
| RelocationProofs.ZeroRangesAre | src/fix.rs:945-947 | retiring zeroes exactly the bytes of the retired ranges |
| Relocated.RetiredRangesAre | src/fix.rs:887-904 | the ranges retired are exactly the sections of code and class data, each up to the next mapped offset |
| Relocated.SectionsApart | src/fix.rs:887-904 | with distinct offsets no two mapped sections share a byte |
| Relocated.RelocateIs | src/fix.rs:887-950 | relocation byte by byte: two runs at the end, retired sections zero, links redirected, all else kept; and the map entries it announces |
| Relocated.RelocationKeepsProgram | src/fix.rs:792-950 | when items move, every class keeps its lists, every method its expected item, and all bytes outside retired sections and data offsets keep value and place |
| Relocated.AppendPreservesProgram | src/fix.rs:792-950 | relocated or not, following class_def, class_data and code_off gives each class its field and method lists and each method its old item, the synthesized one, or none |
| RepairOutcome.ByMethodIs | src/fix.rs:798-801 | a method has a record exactly if some capture names it, and then the last one that does |
| RepairOutcome.PlanSucceeds | src/fix.rs:803-881 | planning succeeds if and only if all class data parses and every item with instructions that a method runs is whole |
| RepairOutcome.OffsetsSucceed | src/fix.rs:288-321 | collecting code offsets succeeds if and only if all class data parses |
| RepairOutcome.OutcomeIs | src/fix.rs:792-950 | the counts reported are those of the file: methods with a body and a record that does not fit what they have, refilled or given up, and methods with neither item nor record; anything is moved exactly if some method was refilled or lost, and else no byte changes |
| GrownLength.EmitMethodLength | src/fix.rs:910-931 | copying an item takes exactly the padding and the length worked out from the plan, and succeeds whenever that fits 32 bits |
| GrownLength.RelocateLength | src/fix.rs:887-950 | relocation succeeds whenever the length worked out from the plan fits 32 bits, and the file then has that length |
| GrownLength.RebuildMapLength | src/fix.rs:1239-1287 | the rebuilt map ends the file at the aligned end plus one entry per kept section, per run, and for itself |
| FormatProofs.ClearAllExact | src/fix.rs:1548-1623 | clearing words that do not overlap gives each its cleared value and changes nothing else |
| FormatProofs.FixFormatExact | src/fix.rs:1548-1623 | exactly the class-definition fields and debug words that point past the end become zero, no other byte changes, and every class and item reads as before |
| FormatProofs.MethodsFixed | src/fix.rs:1586-1619 | in any file, readable or not, each item of a class loses its debug offset exactly when that points past the end and its tries exactly when their table does not fit, and no other byte changes |
| FormatProofs.FormatOnlyPreserves | src/fix.rs:1548-1623 | whatever changes only those fields keeps every class and item readable to the same values |
| Live.PreservedReadsSame | src/fix.rs:1434-1454 | keeping definitions, class data and item shapes keeps every class and item readable to the same values |
| Live.ReadsSameIsHealthy | src/fix.rs:1434-1454 | live offsets and their health carry over to a file that reads the same |
| InPlace.EndIgnoresInsns | src/fix.rs:1290-1337 | where an item ends does not depend on its instructions |
| InPlace.ApplyRecordsExact | src/fix.rs:238-286 | each live item ends up with the last record that is for it and fits it (under force: the last one for it, cut or zero-padded), or keeps its own instructions, and no other byte changes |
| InPlace.MethodOffsetsAre | src/fix.rs:288-321 | the offset table holds only offsets of methods of the file, or zero |
| Unshared.OwnOffsets | src/fix.rs:288-321 | with own indices and items, the table maps each method to its own offset and each offset back to one method |
| RepairTheorems.AppliedIs | src/fix.rs:719-752 | the in-place pass changes nothing but instructions of live items and keeps a well-formed file well-formed |
| Runs.RunsAreHealthy | src/fix.rs:906-950 | a file in two runs past its tables has only whole, non-overlapping live items |
| Runs.RunOffsets | src/fix.rs:906-950 | the items of the runs are exactly the live ones |
| Runs.RunItemsApart | src/fix.rs:910-931 | two items of the run do not overlap |
| Validator.CollectsFrom | src/fix.rs:1434-1454 | the validator collects exactly the live class data and code offsets |
| Validator.CodeRunWalks | src/fix.rs:1455-1485 | walking the collected code items in offset order covers the code run, each item once |
| Validator.ClassRunWalks | src/fix.rs:1455-1485 | the same for class data |
| ValidatorExact.IdBoundsAre | src/fix.rs:1355-1400 | id tables pass if and only if the header is supported, every non-empty table starts aligned past it and ends in the file, and no byte belongs to two tables |
| ValidatorExact.MapIs | src/fix.rs:1204-1237 | the map reads as given entries if and only if the header points at an aligned table of them, each non-empty and starting in the file, no type twice |
| ValidatorExact.RebuildSucceeds | src/fix.rs:1239-1287 | a map is rebuilt if and only if it reads, no section but itself starts inside its table, and a new one has room below 32 bits unless nothing moved and it is sorted, last and self-describing already |
| ValidatorExact.CollectedIsHealthy | src/fix.rs:1434-1454 | collecting succeeds if and only if all class data parses, all method indices name methods and every item with a code offset is whole |
| ValidatorExact.CheckRunIs | src/fix.rs:1455-1485 | the check of a kind passes if and only if the map lists the kind exactly when it has live items, with their number and the offset of the first, each item starting where the one before it ends (code items at the next multiple of four) and the last ending before the next section |
| ValidatorExact.AcceptedIsConsistent | src/fix.rs:1403-1487 | the validator accepts a file if and only if it is consistent: sound tables, right sizes and digests, a strictly sorted map that lists itself, whole classes and items, and both kinds truly listed |
| ValidatorExact.AcceptedItemsApart | src/fix.rs:1403-1487 | of any two live items of an accepted file, of one kind or two, one ends before the other starts |
| ValidatorExact.RepairedIsConsistent | src/fix.rs:688-713 | whatever the input, relocated or not, a repair that succeeds leaves a consistent file |
| Sealing.BoundsFixed | src/fix.rs:1492-1542 | afterwards file size and data bounds are right exactly if the length fits 32 bits, and no byte outside them changed |
| ValidatorExact.TablesEndIs | src/fix.rs:1492-1520 | the id tables end where the last non-empty one does, or with the header when all are empty |
| ValidatorExact.HeaderBoundsAre | src/fix.rs:1492-1542 | the header step writes the file size and a data section from the aligned end of the tables to the end of the file, and no other byte; nothing when that is past the end or beyond 32 bits |
| Sealing.DigestsFixed | src/fix.rs:323-340 | signature and checksum match afterwards, and nothing else changed |
| Sealing.HeaderSealed | src/fix.rs:323-340 | both together, in the order the repair applies them |
| Sealing.TablesStay | src/fix.rs:1355-1400 | a file with the same table fields passes the same table validation, with the same tables end |
| Sealing.MapFrame | src/fix.rs:1204-1237 | the map reads the same wherever its pointer and its table are the same |
| RepairProofs.SealIs | src/fix.rs:703-709 | map, header and digests together: what they leave where, byte by byte |
| RepairProofs.SealedValidates | src/fix.rs:703-710 | a sealed relocated file is accepted by the validator if and only if its length fits 32 bits, and reads as before |
| RepairProofs.FinishValidates | src/fix.rs:702-712 | everything after the bytecode step succeeds, validation included, if and only if the file does not outgrow 32 bits |
| RepairTheorems.AppendGrows | src/fix.rs:792-950 | on a well-formed file the bytecode step succeeds or reports that the file outgrew 32 bits |
| RepairTheorems.AppendedIsReady | src/fix.rs:792-950 | a relocated file has healthy runs past its tables, an intact map, and announces exactly the entries of the two runs |
| RepairTheorems.RepairValidates | src/fix.rs:688-713 | repair establishes its validator: a well-formed file that needs relocation is repaired if and only if the length worked out beforehand fits 32 bits, and then has that length |
| RepairedProgram.FormattedItem | src/fix.rs:1548-1623 | clearing stale fields leaves each item as it was but for a stale debug word |
| RepairedProgram.FinishedItems | src/fix.rs:702-712 | after map, header and digests every class reads the same and each item is the settled old one |
| RepairedProgram.AppliedBody | src/fix.rs:238-286 | the in-place pass leaves each item whole, with the instructions of the last fitting record |
| RepairedProgram.RepairKeepsProgram | src/fix.rs:688-950 | end to end, relocated or not: every class keeps its lists and every method leads to its item, overwritten by the fitting record, or to the synthesized one, or to none |
| RepairedRest.RepairKeepsRest | src/fix.rs:688-950 | end to end, for every byte of the input: zeroed if a relocation retires it; otherwise kept in value and place unless it is an instruction, a sealed header field, the old map, a class-definition offset or a debug word |
| Idempotence.HeaderSettles | src/fix.rs:1492-1542 | header bounds and digests are a fixed point after one pass |
| Idempotence.MapSettles | src/fix.rs:1239-1287 | a rebuilt map is a fixed point |
| Idempotence.FormatSettles | src/fix.rs:1548-1623 | a file with no field past its end is a fixed point of the format pass |
| Idempotence.FinishSettles | src/fix.rs:702-712 | a finished file is a fixed point of everything after the bytecode step |
| Idempotence.SecondRun | src/fix.rs:688-713 | when the records are in place, a second run leaves every byte alone if and only if no method is lost and no unfitting record can be synthesized |
| Closure.RepairedIsWellFormed | src/fix.rs:688-713 | repair is closed: a well-formed file is repaired into a well-formed one with only usable code offsets, relocated or not |
| Closure.SettledMap | src/fix.rs:1239-1287 | a map that a rebuild would leave alone has distinct offsets, lists itself, ends the file, and no section starts inside it |
| Sharing.RepairedIsRecoverable | src/fix.rs:688-713 | a repaired file meets the hypotheses of a further repair, whatever has been recorded by then |
| Sharing.LastIsInTable | src/fix.rs:288-321 | the offset table gives each index the offset of its last method |
| Sharing.ReapplyIsNothing | src/fix.rs:238-286 | writing records changes nothing exactly when every item already holds the last record that is for it and fits it |
| Sharing.SecondRunChanges | src/fix.rs:688-713 | a second run leaves every byte alone if and only if the records are in place, no method is lost, and no unfitting record can be synthesized |
| Sharing.RepairIdempotent | src/fix.rs:688-713 | after any successful first run, the second run with the same records changes nothing if and only if the first lost no method, methods whose shared item was taken apart do not disagree about it, and no unfitting record has become usable; the last two hold in particular for unshared items and when no record failed |
| StaleOffsets.RepairIsDecided | src/fix.rs:688-713 | where kept offsets are usable, none or unaligned, a relocating repair succeeds if and only if none is unaligned and the length worked out beforehand fits 32 bits |
| Example.SampleIsRepaired | src/fix.rs:688-713 | a concrete file meets every hypothesis of the theorems and is repaired with one record failed and no method unaccounted for |
| Example.SecondRunMovesAgain | src/fix.rs:688-713 | on that file a second run does not leave the bytes alone |
| DexImages.DexImage.BuildMethodCodeOffMap | src/fix.rs:288-321 | the loop over class definitions builds the offset table, later duplicates winning |
| DexImages.DexImage.ApplyRecordsToDex | src/fix.rs:238-286 | the record loop edits the buffer into the exact result, forced or not |
| DexImages.IndexCaptures | src/fix.rs:798-801 | later records of a method win |
| DexImages.DexImage.PlanEdits | src/fix.rs:803-881 | the planning loops build the plan, stopping where the table runs off the file |
| DexImages.DexImage.AppendCodeItems | src/fix.rs:910-931 | the copying loops extend the buffer and set the offsets |
| DexImages.DexImage.AppendClassData | src/fix.rs:937-944 | the class data loop extends the buffer and patches the definitions |
| DexImages.DexImage.CollectRetired | src/fix.rs:887-904 | the ranges to retire, or the error for bad bounds |
| DexImages.DexImage.Retire | src/fix.rs:945-947 | the buffer with those ranges zeroed |
| DexImages.DexImage.AppendMissingCodeItems | src/fix.rs:792-950 | the whole step on the buffer, outcome counters and announced entries included |
| DexImages.DexImage.FixFormatFields | src/fix.rs:1548-1623 | both loops of the format pass; it reports a change exactly when a byte changed |
| DexImages.DexImage.RebuildMapList | src/fix.rs:1239-1287 | the buffer and the report of the map rebuild |
| DexImages.DexImage.FixHeader | src/fix.rs:1492-1542 | header bounds written in place |
| DexImages.DexImage.RecalcDexHeader | src/fix.rs:323-340 | signature first, then the checksum over it |
| DexImages.DexImage.CollectLive | src/fix.rs:1434-1454 | the validator loop over classes and methods |
| DexImages.DexImage.CheckLiveRun | src/fix.rs:1455-1485 | the validator's walk over one run; what it accepts, `ValidatorExact.CheckRunIs` says |
| DexImages.DexImage.ValidateRepaired | src/fix.rs:1403-1487 | the whole validation; what it accepts, `ValidatorExact.AcceptedIsConsistent` says |
| DexImages.DexImage.RepairOneDex | src/fix.rs:688-713 | the whole repair in place: on success the buffer is the repaired file the theorems are about |
| Intervals.RecordExact | src/dump.rs:282-307 | recording keeps the list sorted, non-empty per entry and strictly separated, and denotes exactly the old bytes and the new range |
| Intervals.CanonicalUnique | src/dump.rs:282-307 | a set of bytes has only one such list |
| Intervals.CompleteExact | src/dump.rs:309-311 | for a nonzero total, complete means every byte was recorded |
| Intervals.RecordLoop | src/dump.rs:282-307 | the index loops compute that list |
| Reassembly.PlaceKeepsHistory | src/dump.rs:409-428 | an accepted chunk extends what the buffer agrees with and what is covered by exactly itself |
| Reassembly.ConflictIs | src/dump.rs:409-416 | a chunk is refused exactly when a byte received before differs |
| Reassembly.PiecesAssemble | src/dump.rs:400-437 | pieces of one file never conflict, and once they cover it the file is complete and is that file |
| Reassembly.OrderIndependent | src/dump.rs:400-437 | every permutation of a conflict-free covering set of chunks completes, with the same bytes |
| Reassembly.DexRecvState.Record | src/dump.rs:282-307 | the object's interval list after recording |
| Reassembly.DexRecvState.ConflictsWith | src/dump.rs:409-416 | the comparison loop answers whether any received byte differs |
| Reassembly.DexRecvState.Accept | src/dump.rs:423-428 | payload copied and range recorded, nothing else |
| CaptureProofs.StepKeeps | src/dump.rs:352-500 | every handler keeps the invariant: nothing held for ambiguous keys, pending and cached keys disjoint, pending totals equal buffer lengths and observed sizes, caches match their files |
| CaptureProofs.RunKeepsInv | src/dump.rs:352-500 | the invariant holds in every state of every run |
| CaptureProofs.RunEvolves | src/dump.rs:727-810 | over every run ambiguous keys only grow, an unambiguous key keeps its size and cached bytes, files stay, and plain ones keep their bytes |
| CaptureProofs.FilesKeepBytes | src/dump.rs:750-810 | a file name once written only ever holds other bytes if the two have the same hash, the one in its name; never, if the hash is injective |
| CaptureProofs.AllSizesEqual | src/dump.rs:727-736 | all sizes ever reported for a key that is unambiguous at the end were equal |
| CodeFiles.FlushedStem | src/dump.rs:914-959 | the code JSON flushed for a key carries the stem of the saved .dex with exactly its cached bytes, and the key is not ambiguous |
| CodeFiles.RunStems | src/dump.rs:914-959 | over every run whose scans pass whole files, every code JSON ever written has the stem of a .dex file of that size, which holds the cached bytes while the key is unambiguous |
| CodeFiles.FlushedForGood | src/dump.rs:914-959 | what a key had cached when its JSON was flushed is what the .dex file of that stem holds ever after |
| CapturedRecords.RecordsAreCaptured | src/dump.rs:444-500 | over every run an address unambiguous at the end has exactly the records of its method events with bytecode since the last flush, in order, each named from the file cached when it came |
| CapturedRecords.FlushWritesCaptured | src/dump.rs:914-959 | after any run a flush puts exactly those records in the JSON of each address whose write goes through, that is unambiguous, has a saved file and captured something; every other JSON stays, and all records are taken |
| CapturedRecords.JsonsAreCaptured | src/dump.rs:914-959 | every JSON a run leaves holds exactly what had been captured for its address before one of the run's flushes |
| Outcomes.StepDisputes | src/dump.rs:352-500 | an event makes an address ambiguous if and only if it gives it an absurd or another size, or carries bytes of it that differ from its cached file, reach past it, or differ from bytes that have arrived |
| Outcomes.AmbiguousIsDisputed | src/dump.rs:727-748 | over every run an address ends up ambiguous if and only if some event disputed it |
| Outcomes.StepSaves | src/dump.rs:750-810 | an event saves exactly a scanned DEX that is not the system's and not cached already, or a chunked one whose every byte has arrived, while captures are open and the write succeeds; under a plain name exactly if nothing disputes the address; no event changes any other file or cached byte |
| Outcomes.StepEntries | src/dump.rs:352-442 | what has arrived for an address changes only so: a chunk that nothing disputes adds exactly its bytes, or completes the file and leaves nothing; a dispute, a time-out or the whole file from elsewhere drops it |
| Outcomes.SealedForGood | src/dump.rs:750-810 | once captures are sealed no run changes a file or a cached byte |
| AnyOrder.ChunksAreCached | src/dump.rs:360-442 | chunks that cover a file without contradiction, in any order and among any events of other keys, leave exactly that file cached |
| AnyOrder.OrderDoesNotMatter | src/dump.rs:360-442 | two runs that deliver the same chunks in different orders cache the same bytes |
| History.AcceptedHistory | src/dump.rs:400-437 | an accepted chunk leaves an entry that agrees with every chunk of its life on the bytes it covers |
| History.StepHistory | src/dump.rs:400-437 | every handler keeps every pending entry in agreement with what it accepted |
| History.RunHistory | src/dump.rs:400-437 | over every run each pending buffer equals the payload of each accepted chunk, and covers exactly their union |
| MapsRegions.WalkIsSound | src/dump.rs:244-266 | whatever the region list, a range is only called the system's when a system mapping holds each of its bytes |
| MapsRegions.WalkIsExact | src/dump.rs:244-266 | over ordered, disjoint regions it is called so exactly when it is non-empty, mapped throughout and meets no other region |
| MapsRegions.SkipIs | src/dump.rs:231-266 | a range is skipped exactly when it is non-empty, mapped throughout and only the system's, and under the path of the system region it starts in |
| MapsRegions.RangeIsExclusivelySystem | src/dump.rs:244-266 | the cursor loop, address overflow included, gives that answer |
| DumpStates.DumpState.QuarantineDex | src/dump.rs:738-748 | in place: key marked ambiguous and everything held for it dropped |
| DumpStates.DumpState.ObserveDex | src/dump.rs:727-736 | in place: first size remembered, another size quarantines, unreasonable or ambiguous ignored |
| DumpStates.DumpState.SaveDexFile | src/dump.rs:750-810 | in place: all ways a save can go: refused, skipped, already cached, conflicting, hashed beside a quarantined key, failed write |
| DumpStates.DumpState.HandleDexEvent | src/dump.rs:352-358 | in place: a start event only observes the size |
| DumpStates.DumpState.HandleDexChunk | src/dump.rs:360-442 | in place: all ways a chunk can go: ignored, started, conflicting, placed, completed and saved |
| DumpStates.DumpState.HandleMethodEvent | src/dump.rs:444-500 | in place: the size observed and, unless the key is ambiguous, the method named and its bytecode, if any, appended to the key's records, which `CapturedRecords.RecordsAreCaptured` follows over runs |
| DumpStates.DumpState.NameMethod | src/dump.rs:886-912 | in place: a cached name is reused, otherwise one is made from the saved file and cached |
| DumpStates.DumpState.Seal | src/dump.rs:1374-1374 | in place: from then on saves are refused |
| DumpStates.DumpState.SweepStale | src/dump.rs:1344-1354 | in place: exactly the given entries dropped |
| DumpStates.DumpState.FlushJson | src/dump.rs:914-959 | in place: the records of each key that is neither ambiguous nor without a file, under its stem; all records taken |
| ChunkProtocol.NextKeepsInv | bpf/bpf.c:495-581 | each step of probes, eviction, losses, delivery, timeouts and other events keeps the system invariant |
| ChunkProtocol.RunKeepsSystemInv | bpf/bpf.c:495-581 | so does every run, with any number of interleaved probes |
| ChunkProtocol.ProgressIsSafe | bpf/bpf.c:495-581 | below every local or stored offset everything was submitted; for a key neither quarantined, saved nor timed out it lies in the ring or among the received bytes |
| ChunkProtocol.CompletedIsMemory | src/dump.rs:430-441 | a chunk that completes its file completes it with the process memory it was read from, byte for byte |
| ChunkProtocol.NoFalseQuarantine | src/dump.rs:360-421 | a delivered chunk is refused only if its address was given another size, or its key is quarantined, saved or timed out |
| SavedMemory.SavedIsMemory | src/dump.rs:750-810 | in every state of every run of the whole system, whose scans read memory, each cached file and each .dex file, whatever its name, is the process memory at its address, as long as its name says |
| SavedMemory.OnlySizesQuarantine | src/dump.rs:727-748 | over those runs an action makes a key ambiguous only by reporting for it an absurd size or one that differs from the size it had |
| ChunkProducer.PiecesCover | bpf/bpf.c:513-577 | the pieces of a call are in bounds, read from memory, and cover exactly the bytes between the two offsets |
| ChunkProducer.CallIsRun | bpf/bpf.c:495-581 | a whole call is a run of the protocol with the loop's effect on ring and progress |
| ChunkProducer.QuotaIs | bpf/bpf.c:493-581 | however long a call goes on, it sends at most 128 pieces |
| ChunkProducer.CallsProgress | bpf/bpf.c:495-581 | calls that store their progress move it by the number of pieces they may send, at most 128 each and 128 KiB less the record header per piece, up to the end of the file |
| ChunkProducer.CallsFinish | bpf/bpf.c:495-581 | from any state of any run, calls that may send enough pieces bring progress to the end of the file, and every byte of it has then gone into a record |
| ChunkProducer.KernelMaps.SubmitDexChunksPartial | bpf/bpf.c:495-581 | the loop pushes the pieces up to the first failure, the quota or the end, and stores how far it got |
| ElfSections.SortIs | src/so_fix.rs:848-850 | sorting rearranges, ascending; distinct addresses end up strictly ascending |
| ElfSections.SizePass | src/so_fix.rs:852-870 | the size pass over the array, in place |
| ElfSections.NeighbourSizingIsDisjoint | src/so_fix.rs:848-870 | no address lies in two allocatable sections if and only if no section that keeps its size because the next one shares its start reaches into a later non-empty one; so in particular when start addresses are distinct |
| ElfSections.SharedStartOverlaps | src/so_fix.rs:765-791 | two array sections whose tags give one address keep their sizes and overlap |
| ElfSections.SharedStartMayBeEmpty | src/so_fix.rs:765-791 | two array sections at one address are disjoint when the first announces no size |
| ElfSections.IndexIsExact | src/so_fix.rs:351-361 | in a rebuilt list the lookup gives each address its only section if and only if the list is disjoint, which is that condition; 0 means none, always |
| ElfSections.FindSection | src/so_fix.rs:351-361 | the lookup loop |
| GnuHash.CountIsExact | src/so_fix.rs:1064-1106 | for a table whose chains are grouped by bucket and terminated, the count is the number of symbols |
| GnuHash.GnuHashSymCount | src/so_fix.rs:1064-1106 | both loops, with every early return |
| ElfLayout.ShdrRoundTrip | src/so_fix.rs:246-282 | a section header reads back in either class, fields cut to the class's width |
| ElfLayout.SymRoundTrip | src/so_fix.rs:285-316 | a symbol reads back with name, value and section index |
| ElfLayout.SymKind | src/so_fix.rs:285-316 | a written symbol is a global function of default visibility and size zero |
| ElfLayout.NameReadsBack | src/so_fix.rs:925-936 | a NUL-free, terminated name reads back |
| ElfProofs.RebuildFrame | src/so_fix.rs:373-1022 | the image changes only in the section-table header fields, p_offset and p_filesz, and section indices of dynamic symbols |
| ElfProofs.PayloadsAre | src/so_fix.rs:954-964 | appended payloads stand aligned past the image, in order, none overlapping |
| ElfProofs.RebuildLayout | src/so_fix.rs:954-1020 | payloads, name table and word-aligned header table are disjoint, in order, and end the file |
| ElfProofs.NameTableOk | src/so_fix.rs:925-936 | every section name stands terminated where the table says |
| ElfProofs.SymNamesOk | src/so_fix.rs:880-897 | every injected name stands terminated at its offset |
| ElfProofs.SymTableOk | src/so_fix.rs:880-897 | entry i + 1 of the symbol table is injected symbol i, entry 0 the null symbol |
| ElfReadBack.HeadersReadBack | src/so_fix.rs:972-1014 | entry k of the emitted table is the header of section k |
| ElfReadBack.HeaderLeadsToTable | src/so_fix.rs:1016-1020 | the file header leads to that table, its size, and its string table |
| ElfReadBack.SectionNameReadsBack | src/so_fix.rs:972-1014 | every `sh_name` reads back the section's NUL-free name |
| ElfReadBack.InjectedReadsBack | src/so_fix.rs:880-915 | every injected symbol reads back with its name, value and section |
| ElfReadBack.RemapIs | src/so_fix.rs:1036-1058 | each symbol in the file keeps its value and gets the index its own fields call for |
| ElfReadBack.DynamicSymbolsAreExact | src/so_fix.rs:1036-1058 | a defined dynamic symbol inside a section gets exactly that section's index; undefined and reserved ones keep theirs |
| RebuiltFile.DiscoveredLoadable | src/so_fix.rs:475-845 | whatever the image, the sections found are few, allocated, without appended bytes, and have NUL-free names of their own |
| RebuiltFile.HeadersAreFound | src/so_fix.rs:972-1020 | following the rebuilt file's own header leads to the emitted header of every section, and to none beyond |
| RebuiltFile.LookupLocates | src/so_fix.rs:351-361 | the index looked up for an address is that of the only emitted header that holds it, or 0 when none does |
| RebuiltFile.DynamicSymbolsNameTheirHeaders | src/so_fix.rs:373-1058 | from image to file: a defined dynamic symbol keeps its value and names the only emitted header whose range holds it; where none does, and for undefined and reserved symbols, the index stays |
| RebuiltFile.InjectedSymbolsNameTheirHeaders | src/so_fix.rs:373-1022 | from image to file: an injected symbol reads back with name and value and names the only emitted header that holds the value, or none |
| RebuiltFile.SectionNamesReadBack | src/so_fix.rs:925-1020 | from image to file: every section's name reads back from the string table the file header points at |
| ElfSegments.OpenImageIs | src/so_fix.rs:373-392 | an image opens exactly if it is a little-endian ELF file of either class with a whole header |
| ElfSegments.RebuiltSegments | src/so_fix.rs:393-439 | from image to file: every program header that overlaps nothing else the rebuild patches reads back with its address as file offset, and, when it is a loaded segment, with the larger of its two sizes in the file; type, addresses and memory size stay |
| ElfSegments.SegmentsAre | src/so_fix.rs:403-439 | discovery works with the loaded segments of the image in order and its last dynamic segment |
| ElfSegments.EndsAre | src/so_fix.rs:447-460 | no segment ends after the ends computed in memory and in the file, and one ends there |
| ElfSegments.TagsAre | src/so_fix.rs:463-476 | each tag has the value of its last entry before the null one and the end of the segment, and a tag without one has none |
| ElfTags.FoundAre | src/so_fix.rs:491-845 | the sections found are exactly those given away: one for each of fourteen tags by a table of type, flags, link, entry size, alignment, size and info tags, the symbols, their versions, the jump relocations, stubs, code, the dynamic table, the offset table, data and zeroed data, each under its own condition |
| ElfTags.GivenAwayHasHeader | src/so_fix.rs:491-1014 | each of them has a header in the rebuilt file with its name, type, flags, address, offset, link, info, entry size and alignment, links being indices of headers of that name, and its announced size unless the next section cuts it, or the room up to there when it announces none |
| ElfTags.HeaderIsGivenAway | src/so_fix.rs:491-1014 | and the headers between the null one and the appended ones describe such sections only |
| ElfTags.AppendedHeadersAre | src/so_fix.rs:880-923 | the headers after those are, read back, the symbol table with one local symbol and a link to its strings, and these, when symbols are injected, and last the section names; none is loaded |
| ElfTags.SymbolCountIs | src/so_fix.rs:479-488 | a SysV hash table gives the number of its chains, whatever other table there is, and nothing when cut short; without one a GNU table is counted |
| ElfTags.LocalsAre | src/so_fix.rs:1109-1133 | the info field of the symbols counts them up to the first that is not local, one at least |
| ElfReadBack.InjectedIsExact | src/so_fix.rs:351-361 | an injected symbol names exactly the section that holds it, and is undefined exactly when none does |
| SoImages.SizeSections | src/so_fix.rs:848-870 | sort and size pass together |
| SoImages.BuildNames | src/so_fix.rs:925-936 | the name table loop |
| SoImages.BuildSymbols | src/so_fix.rs:880-897 | the symbol table loop |
| SoImages.SoImage.FixProgramHeaders | src/so_fix.rs:403-439 | program headers normalized in place, up to the first that runs off the file, and the segments they named; what they then say, `ElfSegments.RebuiltSegments` reads back |
| SoImages.SegmentEnds | src/so_fix.rs:447-460 | where segments end in memory and in the file, in one loop |
| SoImages.SoImage.ReadTags | src/so_fix.rs:463-476 | the dynamic table up to its null entry, later entries of a tag winning |
| SoImages.SoImage.CountDynSyms | src/so_fix.rs:479-488 | the symbol count from whichever hash table there is |
| SoImages.SoImage.CountLocalSyms | src/so_fix.rs:1109-1133 | the leading local symbols, at least one |
| SoImages.SoImage.EmitSections | src/so_fix.rs:848-1022 | sort, size, remap and append on the image |
| SoImages.SoImage.RebuildSections | src/so_fix.rs:393-1022 | the whole rebuild on the image, segment and section discovery and their early errors included |
| SoImages.RebuildSoSections | src/so_fix.rs:373-1022 | the whole rebuild from bytes to bytes, every early error included |
| SoImages.SoImage.RemapSymShndx | src/so_fix.rs:1036-1058 | section indices rewritten in place |

## Left out

- RepairTheorems.RepairValidates: speaks of repairs that relocate, since without relocation the validator's verdict depends on the layout the file came with; and asks that kept offsets be usable. `StaleOffsets.RepairIsDecided` adds unaligned ones; an aligned offset that leads nowhere can read as an item once the file has grown over it, and for such files nothing is claimed.
- Sharing.RepairIdempotent: whether a record has become usable is a condition on the repaired file.
- CaptureProofs.FilesKeepBytes: hashes may collide, and then a hashed name can be written again with other bytes.
- ChunkProtocol.ProgressIsSafe: process memory is taken as unchanging while it is captured.
- SavedMemory.SavedIsMemory: scans are taken to read whole files from that memory.
- AnyOrder.OrderDoesNotMatter: the file must be savable, that is start with a DEX header, and saves must not be sealed or fail meanwhile.
- RebuiltFile.DynamicSymbolsNameTheirHeaders: symbols that lie in the file header or outside the image are not followed, nor are images whose sections clash or do not fit their class.
- MapsRegions.WalkIsExact: needs ordered, disjoint, non-empty regions, which is how the kernel lists them.
- GnuHash.CountIsExact: tables that end no chain, or name symbols they do not have, are only specified.
- Machine integers: `usize` is 64 bits wide, so the checked `usize` additions never overflow; `u32` and `u64` casts, saturation and truncation are explicit.
- Id-table overlap is modelled as pairwise disjointness of the non-empty tables.
- Error texts are collapsed into an enumeration, and what a failed in-place step leaves in the buffer is not specified.
- SHA-1, Adler-32, JSON and the naming of methods are opaque functions.
- Event byte layouts: events arrive parsed.
- The file system is a map from structured names to contents with atomic writes that may fail.
- Time: the 30-second sweep may drop any entries at any moment.
- Entries under reassembly are taken out of the map and put back as values, so in-place growth of one buffer is modelled in `DexRecvState` only.
- Handlers run as atomic steps; their locks are not modelled.
- The read-failure fallback, process scans and native buffers appear only as scans that save some bytes.
- Printing, coverage reports and statistics beyond the bytecode outcome.
- ELF address arithmetic wraps as in a release build, but offsets into the file are unbounded: a table offset near the end of the 64-bit range, where the program would fail, is simply outside the image.
- Hook discovery, eBPF loading, register and pointer chasing, the event rate limiter, directory drivers and the command line.
- Whether a repaired method passes ART's verifier, and lost try tables: the program recovers neither.
- Encoding a decoded ULEB128 need not give the same bytes, as longer encodings are accepted.
