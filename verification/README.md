# Morpho bytecode optimizer: bookkeeping core in Dafny

This project models the table-driven bookkeeping at the heart of Morpho's
bytecode optimizer and proves what each piece promises:

- **Register tracking** (`RegInfo`, from `src/reginfo.c`). A `RegInfoList`
  holds one provenance record per register: what it holds, the constant,
  global or register index, the use count, the writing instruction, a type
  hint and the "has been copied" flag. A write first repairs every register
  that holds a copy of the one being overwritten. Invalidation downgrades
  matching records to an unknown value.
- **Global tracking** (`GlobalInfo`, from `src/info.c`). Each global climbs
  the lattice EMPTY < CONSTANT(k) < VALUE and counts its reads.
- **Layout** (`Layout`, from `src/layout.c`). The `BlockComposer` copies
  each block's non-NOP instructions into a dense output program and maps old
  block starts to new ones. It then re-aims each block-ending branch with the
  relative offset `newdest - newend - 1`. `LayoutBuild` composes the two
  passes. Lemmas describe the program it builds:
  - every output instruction is a source instruction, in order, with the
    NOPs dropped;
  - each branch sits at the end of its block and lands on the mapped start
    of its chosen successor;
  - every other instruction is untouched.
- **Strategy dispatch** (`Strategy`, from `src/strategy.c`). Table rows run
  in order, filtered by opcode (or wildcard) and level, up to the first
  success.
- **Opcode table** (`Opcodes`, from `src/opcodes.c`). The definition table
  and its flags, lookup bounded by `nopcodes`, and `opcode_initialize`'s
  count, sort and check. Also the two process functions, which record a
  load in the register tracker.
- **The superseded optimizer** (`LegacyState`, `LegacyGlobals`,
  `LegacyRegisters`, `LegacyOptimizer`, `LegacyAnnotations`, from
  `old/optimizecheck.c`). This covers:
  - the older global-contents lattices;
  - register invalidation and the arithmetic type rule;
  - the copy-chain search and the peephole rules (duplicate loads, register
    replacement, zero-offset branch, unused global store);
  - the merge of predecessor register states;
  - the debug-annotation cursor and the run-length repair of annotations
    for a block.

Instructions are the datatype `Bytecode.Instr`: an opcode with either three
byte operands or one wide operand. The bit packing is not part of the model.
Morpho values are the small datatype `Values.Val` compared with `==`. The
morpho dictionary used for the start map is a Dafny `map`. The dictionary
holding a block's successors is a sequence of slots (`Option<int>`), so that
its slot order, which `blockcomposer_dictflatten` depends on, is kept.

In these places the code behaves in ways a reader might not expect; the model follows the code:

- `reginfo.ndup` is a C `bool`, so `ndup++` only sets it; it is a flag here.
- The PUSHERR case of `blockcomposer_fixbranch` (src/layout.c:142-143) is
  never reached. The PUSHERR row of the opcode table carries no flags
  (`Opcodes.ProcessOpcodes`), so the BRANCH test returns first;
  `Layout.FixSpec` leaves the output unchanged for it.
- In `optimize_restoreregisterstate` the merged record's contents were
  already set to VALUE when the test `contains == NOTHING` runs. That test is
  therefore always false: the block is only replaced when it was
  `CODEBLOCKDEST_EMPTY` (`LegacyRegisters.MergeEntry`).
- `optimize_annotationmoveto` starts `lastelement` at 0. After a restart,
  when non-element records precede the first element, a target at the start
  of that element leaves the cursor past record 0: record 0 is skipped. The
  model keeps this
  (`LegacyAnnotations.RestartSkipsFirstRecord`).
- `optimize_findoriginalregister` stops only at a non-copy register or on
  returning to the start. A copy cycle that avoids the start never ends
  (`LegacyRegisters.CycleBesideStartNeverStops`), so callers must show that
  the search stops.

## Model

| member | source | states |
|---|---|---|
| RegInfo.RegInfoList.Init | src/reginfo.c:12-26 | a new list tracks n registers, every one EMPTY with index 0, no writer, no uses, nil type and not copied; the queries read exactly that back |
| RegInfo.RegInfoList.Wipe | src/reginfo.c:34-37 | the first n records become blank, and the queries read them back as EMPTY, index 0, no writer, no uses, nil type; the records beyond them and the storage are untouched |
| RegInfo.RegInfoList.Copy | src/reginfo.c:40-44 | succeeds exactly when src tracks no more registers than dest; on failure dest is unchanged, on success dest's first src.nreg records equal src's and the rest are untouched |
| RegInfo.RegInfoList.Write | src/reginfo.c:47-61 | the new records are WriteSpec of the old ones; for an in-range register, ContentsOf, RegContentsOf and SourceOf read back the written contents, index and instruction, with no uses and nil type |
| RegInfo.WriteSpec | src/reginfo.c:47-61 | out of range nothing changes. Otherwise: the written register holds exactly (c, k), no uses, the writing instruction, nil type and no copy flag; writing a copy of k flags k; every copy of a flagged r takes r's old contents, index, use count and (non-nil) type; no other record changes, and copy flags are only ever set |
| RegInfo.WriteKeepsTracking | src/reginfo.c:47-144 | when every copy points at a flagged register and copies are acyclic (witnessed by a rank), a write keeps both |
| RegInfo.RegInfoList.Unduplicate | src/reginfo.c:115-144 | the new records are Unduplicated of the old ones |
| RegInfo.Unduplicated | src/reginfo.c:115-144 | each register in use that copied r takes r's contents, index, type (when not nil) and use count, keeping its own writer; every other record is unchanged apart from copy flags; the only flag newly set is that of the register r itself copies, and only when some alias of r was repaired |
| RegInfo.UndupStep | src/reginfo.c:118-143 | one pass of the repair loop over register i repairs it exactly when it copies r |
| RegInfo.UndupPrefix | src/reginfo.c:118-143 | the repair loop after m registers keeps the length of the register file |
| RegInfo.RegInfoList.Invalidate | src/reginfo.c:147-159 | the new records are Invalidated of the old ones; every tracked register that held (c, ix) reads back as VALUE with index ix, and, unless c is VALUE, no register reads back as (c, ix) |
| RegInfo.Invalidated | src/reginfo.c:147-159 | afterwards no register in use holds (c, ix) unless c is VALUE; a record changes only when it held (c, ix), and then only its contents, which become VALUE |
| RegInfo.RegInfoList.SetType | src/reginfo.c:64-67 | only the type of an in-range register changes; TypeOf then reads back t in range and nil outside, while contents, writer and use count read back as before |
| RegInfo.RegInfoList.Uses | src/reginfo.c:76-79 | only the use count of an in-range register grows, by one: CountUses reads back one more in range and the same outside, while contents, writer and type read back as before |
| RegInfo.RegInfoList.Duplicate | src/reginfo.c:109-112 | only the copy flag of an in-range register is set |
| RegInfo.RegInfoList.TypeOf | src/reginfo.c:70-73 | reads back the type SetType last gave an in-range register, nil after Write, Wipe or Init, and nil out of range (the laws are the ensures of those methods) |
| RegInfo.RegInfoList.ContentsOf | src/reginfo.c:82-87 | absent out of range; in range, reads back the contents and index Write last stored, VALUE after Invalidate of what the register held, unchanged by SetType and Uses (the laws are the ensures of those methods) |
| RegInfo.RegInfoList.RegContentsOf | src/reginfo.c:90-93 | EMPTY out of range; in range, reads back the contents Write last stored (the law is an ensures of Write) |
| RegInfo.RegInfoList.SourceOf | src/reginfo.c:96-100 | absent out of range; in range, reads back the instruction Write last recorded, no instruction after Wipe or Init, unchanged by SetType and Uses (the laws are the ensures of those methods) |
| RegInfo.RegInfoList.CountUses | src/reginfo.c:103-106 | 0 out of range; in range, counts the Uses calls since the last Write, Wipe or Init, and SetType leaves it alone (the laws are the ensures of those methods) |
| RegInfoAsWritten.GuardAdmitsOnePastEnd | src/reginfo.c:48 | the guard `rindx > nreg` lets through index nreg and negative indices, neither of which is a register in use |
| RegInfoAsWritten.WriteAsWritten | src/reginfo.c:47-61 | the nested write as written still leaves the written register as written |
| RegInfoAsWritten.UndupAsWritten | src/reginfo.c:115-144 | the nested repair as written keeps the length of the register file |
| RegInfoAsWritten.ChainOfCopies | src/reginfo.c:47-61 | a three-register chain of copies whose copy relation is tracked |
| RegInfoAsWritten.StaleAliasAsWritten | src/reginfo.c:115-144 | as written, overwriting the head of that chain leaves r1 recorded as a copy of the overwritten r0 with r0's flag cleared, so the copy relation is no longer tracked |
| RegInfoAsWritten.ChainRepairedCorrectly | src/reginfo.c:115-144 | the corrected write on the same input repairs only r2 and keeps the relation tracked |
| GlobalInfo.GlobalInfoList.Init | src/info.c:13-29 | n globals, each EMPTY with no reads, nil type and index 0, none of them a constant |
| GlobalInfo.GlobalInfoList.Clear | src/info.c:32-36 | no globals remain |
| GlobalInfo.GlobalInfoList.Read | src/info.c:39-41 | only the read count of g grows, by one; whether g is a constant does not change |
| GlobalInfo.GlobalInfoList.WriteValue | src/info.c:44-46 | global g becomes Stored(g, value), after which it is no constant; nothing else changes |
| GlobalInfo.GlobalInfoList.WriteConstant | src/info.c:49-54 | global g becomes Stored(g, constant k); it then reads back as constant k if nothing was stored in it before, and as no constant otherwise; nothing else changes |
| GlobalInfo.Stored | src/info.c:44-54 | every store climbs the lattice strictly until VALUE; the result is CONSTANT exactly when a constant was stored into an EMPTY global, and then holds its index; the read count and type never change |
| GlobalInfo.StoresFromBlank | src/info.c:44-54 | from a fresh global, a run of stores gives EMPTY when there are none, CONSTANT k when there is one constant store k, and VALUE otherwise |
| GlobalInfo.ValueAbsorbs | src/info.c:44-54 | once VALUE, any run of stores leaves VALUE and the index unchanged |
| GlobalInfo.GlobalInfoList.IsConstant | src/info.c:57-63 | none after Init or WriteValue; constant k after the first store, if that was WriteConstant(g, k); none after any second store; Read leaves it alone (the laws are the ensures of those methods) |
| Strategy.Apply | src/strategy.c:33-44 | the rows run are Dispatch of the table |
| Strategy.DispatchRunsOnlyEligible | src/strategy.c:36-39 | every row run matches the opcode or OP_ANY, has level at most maxlevel and lies before the OP_END row |
| Strategy.DispatchInOrderStopsAtSuccess | src/strategy.c:36-41 | rows run in increasing table order, and every row run before the last one failed |
| Strategy.DispatchRunsAllUntilSuccess | src/strategy.c:36-41 | an eligible row before the terminator is run unless an earlier row run succeeded |
| Strategy.StrategyNullResult | src/strategy.c:16-18 | the null strategy fails |
| Strategy.DefinitionTableDispatch | src/strategy.c:24-27 | with the shipped table, dispatch runs the null row once when maxlevel >= 0 and nothing otherwise |
| Opcodes.InfoOf | src/opcodes.c:46-96 | the row describing an opcode carries that opcode's number |
| Opcodes.DefinitionTableIsIndexed | src/opcodes.c:46-96 | with opcodes numbered in table order, the definition table lists opcode i at row i, OP_END last |
| Opcodes.DefinitionTableInitializes | src/opcodes.c:46-127 | with opcodes numbered in table order, the shipped table passes the start-up check: OP_END first at row OP_END, with the rows before it sorted, distinct and below OP_END |
| Opcodes.BranchesEndBlocks | src/opcodes.c:65-69 | every branch ends its block, and exactly POPERR, B, BIF and BIFF branch |
| Opcodes.ConditionalBranches | src/opcodes.c:68-69 | only BIF and BIFF are conditional, and they are branches that read A |
| Opcodes.TerminatingOpcodes | src/opcodes.c:73-95 | exactly RETURN and END terminate, and both end their block |
| Opcodes.ArithmeticFlags | src/opcodes.c:51-62 | the binary arithmetic and comparison opcodes overwrite A and use B and C; NOT uses only B |
| Opcodes.ProcessOpcodes | src/opcodes.c:47-96 | exactly LCT and LGL have process functions, and PUSHERR has no flags |
| Opcodes.SingularOpcodes | src/opcodes.c:47-96 | exactly LIX overwrites B, and exactly CLOSEUP and CLOSURE are unsupported |
| Opcodes.Process | src/opcodes.c:30-38 | LCT's function records A as (CONSTANT, Bx), LGL's as (GLOBAL, Bx), through the register tracker's write |
| Opcodes.OpcodeDatabase.constructor | src/opcodes.c:44-46 | the table holds the given rows and nopcodes starts at 0 |
| Opcodes.OpcodeDatabase.Initialize | src/opcodes.c:120-128 | nopcodes is the index of the first OP_END row; the rows before it are a sorted permutation of the old ones; the rest are untouched; the check passes exactly when nopcodes equals OP_END |
| Opcodes.OpcodeDatabase.RowsBeforeEnd | src/opcodes.c:122 | the first OP_END row |
| Opcodes.OpcodeDatabase.WriteFront | src/opcodes.c:125 | the sorted rows replace the front of the table and nothing else |
| Opcodes.SortByCode | src/opcodes.c:114-125 | a permutation of the rows sorted by opcode number |
| Opcodes.InsertByCode | src/opcodes.c:114-118 | inserting a row keeps the rows sorted and adds exactly that row |
| Opcodes.SortedCodesAreIndices | src/opcodes.c:120-127 | sorted rows with distinct codes below their count have code i at row i |
| Opcodes.CodeAtLeastIndex | src/opcodes.c:120-127 | in sorted distinct rows, row i's code is at least i |
| Opcodes.CodeAtMostIndex | src/opcodes.c:120-127 | and at most i when every code is below the row count |
| Opcodes.OpcodeDatabase.GetFlags | src/opcodes.c:99-102 | no flags above nopcodes, the row's flags otherwise |
| Opcodes.OpcodeDatabase.GetProcessFn | src/opcodes.c:105-108 | no process function above nopcodes, the row's otherwise |
| Opcodes.OpcodeDatabase.LookupFindsRow | src/opcodes.c:99-127 | after a successful initialization over rows whose codes before OP_END are sorted, distinct and below OP_END, looking an opcode up finds its own row, and opcodes above OP_END find nothing |
| Layout.BlockComposer.constructor | src/layout.c:27-34 | the composer starts with no output, no blocks and an empty map |
| Layout.BlockComposer.AddInstruction | src/layout.c:49-51 | appends one instruction and returns its index |
| Layout.BlockComposer.SetInstructionAt | src/layout.c:54-57 | overwrites one output instruction; at or past the end it does nothing |
| Layout.BlockComposer.AddBlock | src/layout.c:60-63 | appends the new block and maps the old start to the new start |
| Layout.BlockComposer.Map | src/layout.c:71-80 | present exactly when the old start is mapped, and then its new start |
| Layout.BlockComposer.ProcessBlock | src/layout.c:83-99 | appends exactly the block's non-NOP instructions in order, records an output block from the old length to the new length minus one, and maps the old start to the old length |
| Layout.NonNops | src/layout.c:89-94 | dropping NOPs never lengthens the code |
| Layout.NonNopsHasNoNop | src/layout.c:91 | no NOP survives |
| Layout.NonNopsMembers | src/layout.c:89-94 | an instruction survives exactly when it was there and is not a NOP |
| Layout.NonNopsAppend | src/layout.c:89-94 | dropping NOPs commutes with concatenation, so order is kept |
| Layout.NonNopsKeepsLast | src/layout.c:89-96 | a range ending in a non-NOP ends its output in that instruction |
| Layout.BlockComposer.DictFlatten | src/layout.c:102-112 | returns min(nmax, number of keys) and fills that many entries with the keys in slot order, leaving the rest of the array alone |
| Layout.Keys | src/layout.c:104-108 | there are no more keys than slots |
| Layout.KeysMembers | src/layout.c:105 | the keys are exactly the values of the filled slots |
| Layout.KeysOfPrefix | src/layout.c:104 | stopping early yields a prefix of the keys |
| Layout.BranchTo | src/layout.c:117-119 | the re-encoded branch keeps opcode and A, and from newend it lands on newdest (newend + 1 + offset == newdest) |
| Layout.Patched | src/layout.c:114-122 | a mapped target rewrites the instruction at newend into the branch to its new start; an unmapped one changes nothing |
| Layout.BlockComposer.FixBrnch | src/layout.c:114-122 | the output becomes Patched of the old output |
| Layout.DestChoice | src/layout.c:129-140 | B and POPERR take the first successor; BIF and BIFF take the first successor unless it is the fall-through, and the second one otherwise (none when there is no second) |
| Layout.FixSpec | src/layout.c:125-145 | the output keeps its length and is unchanged when the block does not end in a branch |
| Layout.FixSpecKeepsOthers | src/layout.c:125-145 | only the instruction at the new block's end can change |
| Layout.BlockComposer.FixBranch | src/layout.c:125-145 | the output becomes FixSpec of the old output |
| Layout.BlockComposer.CopyBlocks | src/layout.c:159-161 | the composer's output, blocks and map are CopiedBlocks of the whole graph |
| Layout.CopiedBlocks | src/layout.c:159-161 | one output block per block copied |
| Layout.BlockComposer.FixBranches | src/layout.c:164-166 | the output is Patch of the copied output over every block |
| Layout.Patch | src/layout.c:164-166 | patching keeps the output's length |
| Layout.LayoutBuild | src/layout.c:152-170 | the new program is Built of the code and the blocks |
| Layout.CopiedIsRangesWithoutNops | src/layout.c:159-161 | before patching, the output is the blocks' ranges, concatenated in block order, without their NOPs |
| Layout.CopiedGrows | src/layout.c:159-161 | copying more blocks only appends to the output and the output blocks |
| Layout.LaidBlockAt | src/layout.c:87-96 | output block k runs from the output length before block k to the length after it minus one |
| Layout.LaidInOrder | src/layout.c:159-161 | output blocks follow one another in block order without overlap |
| Layout.BranchEndsApart | src/layout.c:159-166 | distinct branch-ending blocks have their branches at distinct output positions |
| Layout.BodyEndsWithBranch | src/layout.c:89-127 | a block ending in a branch contributes that branch last |
| Layout.BranchIsNotNop | src/opcodes.c:47 | a branch is never a NOP |
| Layout.CopyOneEndsWithBranch | src/layout.c:89-96 | copying a branch-ending block appends at least the branch, last |
| Layout.BranchBlockKeepsBranch | src/layout.c:89-127 | in the copied output, a branch-ending block is non-empty and ends in its source branch |
| Layout.LaidKeepsBranchBlocks | src/layout.c:159-166 | every branch-ending block has a non-empty output block, so the second loop only re-aims real instructions |
| Layout.PatchSkips | src/layout.c:164-166 | re-aiming branches elsewhere leaves an output position alone |
| Layout.BuiltAimsBranch | src/layout.c:125-170 | in the new program, each block-ending branch sits at its block's new end and, when its chosen successor was mapped, lands on that successor's new start |
| Layout.BuiltKeepsOthers | src/layout.c:152-170 | every other position of the new program holds the copied instruction |
| LegacyOptimizer.Optimizer.GlobalContents | old/optimizecheck.c:41-53 | global ix becomes ContentsJoin of its record; nothing changes when globals are not tracked |
| LegacyGlobals.ContentsJoin | old/optimizecheck.c:41-53 | the first store is recorded; the same provenance with another index loses the index; another provenance gives VALUE with no index; VALUE stays VALUE; a repeated store changes nothing |
| LegacyGlobals.JoinAllFrom | old/optimizecheck.c:41-53 | after a first store, a run keeps the provenance exactly when every store agrees with it, and the index exactly when every store repeats it |
| LegacyGlobals.StoresFromNothing | old/optimizecheck.c:41-53 | from nothing, a run of stores keeps the first provenance (index) exactly when all stores share it |
| LegacyOptimizer.Optimizer.UpdateGlobalContents | old/optimizecheck.c:72-80 | global ix becomes ContentsUpdate of its record; nothing changes when globals are not tracked |
| LegacyGlobals.ContentsUpdate | old/optimizecheck.c:72-80 | nil takes the value; AMBIGUOUS stays; a different value gives AMBIGUOUS; an equal one changes nothing; other fields are untouched |
| LegacyGlobals.UpdateAllFrom | old/optimizecheck.c:72-80 | after a first value, a run keeps it exactly when every value equals it, and is AMBIGUOUS otherwise |
| LegacyGlobals.LeadingNils | old/optimizecheck.c:75-76 | the length of the run of leading nil values |
| LegacyGlobals.UpdatesFromNil | old/optimizecheck.c:72-80 | from nil, a run of values leaves nil when all are nil, the first non-nil value when every later value equals it, and AMBIGUOUS otherwise |
| LegacyOptimizer.Optimizer.RegInvalidate | old/optimizecheck.c:104-111 | the registers become Invalidated of the old ones |
| LegacyRegisters.Invalidated | old/optimizecheck.c:104-111 | no register in use holds (t, id) afterwards unless t is VALUE; exactly those that held it become VALUE; nothing else changes |
| LegacyRegisters.ArithmeticType | old/optimizecheck.c:113-128 | int with int gives the integer tag; any mix of int and float, or float with float, gives the float tag; anything else gives nil |
| LegacyRegisters.ArithmeticTypeSymmetric | old/optimizecheck.c:119-125 | the rule ignores operand order |
| LegacyRegisters.Follow | old/optimizecheck.c:137-138 | following copy records stays within the registers |
| LegacyRegisters.FindOriginalRegister | old/optimizecheck.c:135-142 | returns where the search first stops: a register that is not a copy, or the start when the chain returns to it |
| LegacyRegisters.OriginalIsUnique | old/optimizecheck.c:135-142 | the search has one answer |
| LegacyRegisters.CycleBesideStart | old/optimizecheck.c:135-142 | a register file where r0 copies r1 and r1 and r2 copy each other |
| LegacyRegisters.CycleBesideStartNeverStops | old/optimizecheck.c:137-140 | from r0 there the search alternates between r1 and r2 and never stops |
| LegacyOptimizer.FirstHolder | old/optimizecheck.c:553-557 | the lowest register in use holding (t, id), written in this block before the current instruction, or none |
| LegacyOptimizer.Optimizer.ReplaceDuplicateLoad | old/optimizecheck.c:548-595 | succeeds exactly when such a register exists; then the load becomes a MOV from it, or a NOP when it is the target itself; otherwise the instruction is unchanged |
| LegacyOptimizer.Optimizer.DuplicateLoadConst | old/optimizecheck.c:548-570 | on LCT A, Bx: succeeds exactly when a register in use holds (CONSTANT, Bx), written earlier in this block; then the load becomes MOV A from the lowest such register when it is not A, and NOP when it is A; otherwise the instruction is unchanged |
| LegacyOptimizer.Optimizer.DuplicateLoadGlobal | old/optimizecheck.c:573-595 | on LGL A, Bx: succeeds exactly when a register in use holds (GLOBAL, Bx), written earlier in this block; then the load becomes MOV A from the lowest such register when it is not A, and NOP when it is A; otherwise the instruction is unchanged |
| LegacyOptimizer.Optimizer.RegisterReplacement | old/optimizecheck.c:598-612 | outside ADD..LE the instruction is unchanged; inside, opcode and A are kept and B and C become the registers they were copied from; always fails |
| LegacyOptimizer.Optimizer.BranchOptimization | old/optimizecheck.c:643-652 | succeeds exactly on a zero offset, which becomes a NOP; otherwise nothing changes |
| LegacyOptimizer.Optimizer.UnusedGlobal | old/optimizecheck.c:655-662 | a store into a global that is never read becomes a NOP; always fails |
| LegacyOptimizer.Optimizer.CopyPredecessor | old/optimizecheck.c:742-746 | the first predecessor's records are copied verbatim |
| LegacyRegisters.CopiedUpTo | old/optimizecheck.c:744 | the first k records are the predecessor's, the rest unchanged |
| LegacyOptimizer.Optimizer.MergePredecessor | old/optimizecheck.c:749-771 | one later predecessor is merged entry by entry and maxreg grows to cover it |
| LegacyRegisters.MergeEntry | old/optimizecheck.c:753-767 | an empty or agreeing predecessor entry changes nothing; a disagreeing one gives VALUE with the larger use count, keeping index and writer, and replaces the block only when it was CODEBLOCKDEST_EMPTY |
| LegacyRegisters.MergedUpTo | old/optimizecheck.c:753-768 | the first k entries are merged, the rest unchanged |
| LegacyRegisters.MergeAll | old/optimizecheck.c:749-771 | merging keeps the number of records |
| LegacyRegisters.MaxSize | old/optimizecheck.c:770 | maxreg never shrinks |
| LegacyRegisters.MaxSizeIsMax | old/optimizecheck.c:770 | maxreg covers every merged predecessor and is either the old value or one of their sizes |
| LegacyOptimizer.Optimizer.RestoreRegisterState | old/optimizecheck.c:735-777 | the registers become Restored of the old ones, and maxreg RestoredMaxReg |
| LegacyRegisters.Restored | old/optimizecheck.c:741-771 | restoring keeps the number of records |
| LegacyRegisters.RestoredMaxReg | old/optimizecheck.c:749-771 | maxreg never shrinks |
| LegacyRegisters.RestoredMaxRegBounds | old/optimizecheck.c:749-771 | maxreg covers every predecessor after the first, and grows only to one of their sizes |
| LegacyRegisters.MergeAllEntry | old/optimizecheck.c:749-771 | a register stays unchanged when every predecessor agrees on it, and becomes VALUE when one disagrees; index kept, use count never lower |
| LegacyRegisters.RestoredEntry | old/optimizecheck.c:741-771 | a register is the first predecessor's entry when the later ones agree with it, and VALUE when one disagrees |
| LegacyAnnotations.AnnotationFixer.Init | old/optimizecheck.c:149-153 | the cursor starts at record 0, instruction 0, offset 0, with nothing written |
| LegacyAnnotations.AnnotationFixer.Restart | old/optimizecheck.c:149-154 | the cursor returns to its start |
| LegacyAnnotations.AnnotationFixer.Advance | old/optimizecheck.c:161-168 | the cursor becomes Advanced |
| LegacyAnnotations.Advanced | old/optimizecheck.c:161-168 | moving past a record keeps the cursor well formed |
| LegacyAnnotations.AnnotationFixer.MoveTo | old/optimizecheck.c:176-195 | the cursor becomes MoveToSpec |
| LegacyAnnotations.MoveToSpec | old/optimizecheck.c:176-195 | moving keeps the cursor well formed |
| LegacyAnnotations.Scan | old/optimizecheck.c:179-194 | the search never passes the target, and when it stops at a record the offset is the target's distance from that record's start |
| LegacyAnnotations.ScanLands | old/optimizecheck.c:179-194 | from a cursor at a record start, the search lands on the element covering the target, or runs off the end when none does |
| LegacyAnnotations.RestartSkipsFirstRecord | old/optimizecheck.c:177-188 | after a restart over two non-element records followed by an element, moving to instruction 0 leaves the cursor on record 1, so record 0 is skipped |
| LegacyAnnotations.AnnotationFixer.CountNops | old/optimizecheck.c:216-219 | the number of NOPs among the k instructions from lo |
| LegacyAnnotations.NopCount | old/optimizecheck.c:216-219 | never more NOPs than instructions |
| LegacyAnnotations.NopCountAppend | old/optimizecheck.c:216-219 | NOP counts add up over consecutive stretches |
| LegacyAnnotations.NopCountMatchesLayout | old/optimizecheck.c:212-219 | the NOPs counted are those layout drops |
| LegacyAnnotations.AnnotationFixer.CopyElement | old/optimizecheck.c:207-233 | at an element, writes Cut, advances by Take and stops exactly when the element reaches the block's end |
| LegacyAnnotations.AnnotationFixer.OtherStep | old/optimizecheck.c:234-237 | a record that is not an element is copied as it is |
| LegacyAnnotations.AnnotationFixer.ElementStep | old/optimizecheck.c:207-233 | one pass at an element keeps what is written and where the loop ends in line with CopySpec |
| LegacyAnnotations.AnnotationFixer.CopyStep | old/optimizecheck.c:202-238 | one pass of the loop keeps what is written and where the loop ends in line with CopySpec |
| LegacyAnnotations.AnnotationFixer.CopyForBlock | old/optimizecheck.c:198-239 | writes CopySpec's records for the block after moving to its start, and leaves the cursor where CopySpec ends |
| LegacyAnnotations.CopySpec | old/optimizecheck.c:202-238 | the loop never moves back and never runs past the block; if it stops inside the annotations, the whole block was handled |
| LegacyAnnotations.CopySpecAtElement | old/optimizecheck.c:207-233 | the loop at an element writes Cut and either stops or goes on from the next record |
| LegacyAnnotations.CopySpecAtOther | old/optimizecheck.c:234-237 | the loop at another record copies it and goes on |
| LegacyAnnotations.CutAccounts | old/optimizecheck.c:209-228 | an element's handled part is re-emitted with its length less its NOPs, and dropped when that is zero |
| LegacyAnnotations.CopyAccounts | old/optimizecheck.c:202-238 | the element records written cover the instructions handled less their NOPs, none is empty, and the other records are exactly those passed |
| LegacyAnnotations.CopyMatchesLayout | old/optimizecheck.c:198-239 | when the annotations reach past the block, the element records written cover exactly the instructions layout keeps of it |
| LegacyAnnotations.AccountedBlock | old/optimizecheck.c:198-239 | records that account for a whole block cover what layout keeps of it |

## Left out

- `src/eval.c` and the glue of `src/optimize.c` (running the VM, printing, class registration) are not part of this model.
- The control-flow graph builder and `cfgraph_sort` are not part of this model. `Layout.LayoutBuild` takes the blocks already in ascending start order, and `Layout.AllWellFormed` asks each block to cover a range of the program.
- `optimize_buildblock`, `optimization_pass`, `optimize_optimizeblock`, `optimize_subexpression_elimination`, `optimize_constant_global` and `optimize_fixpusherr` are not part of this model: each depends on helpers whose source is not available.
- `optimize_replaceinstruction` and `optimize_fetchinstructionat` are not shown. The rules replace `current`, and the annotation repair reads the program as a parameter.
- `optimize_regsettype` is not shown, so `optimize_resolvearithmetictype` is modelled by the type it computes (`LegacyRegisters.ArithmeticType`), not by the register update.
- All `*_show` printing and debug logging, `MORPHO_MALLOC` failure paths, and the clear functions that only free memory (`reginfolist_clear`; `blockcomposer_clear`) are not modelled.
- `qsort` is replaced by `Opcodes.SortByCode`. `qsort` is not stable, so among rows with equal codes the order it leaves is unspecified; `Opcodes.OpcodeDatabase.Initialize` promises only some sorted permutation of the rows. The start-up check compares only the OP_END row's code with the row count and does not ask for distinct codes.
- Opcode numbers come from Morpho's headers, which are not part of this model. The definition table is numbered in its own row order, and `opcode_initialize` is modelled over arbitrary rows.
- Opcodes.DefinitionTableInitializes: holds because the model numbers opcodes in table order; whether the real start-up check passes depends on the numbering in Morpho's headers, which is not modelled.
- The two-byte and three-byte bit packing of instructions and of the sentinel constants is not modelled: `INSTRUCTIONINDX_EMPTY`, `GLOBAL_UNALLOCATED` and `CODEBLOCKDEST_EMPTY` are -1, which no real index takes.
- The morpho dictionary's hashing is not modelled. A block's successors are a given sequence of slots, whose order decides which successor `blockcomposer_dictflatten` returns first.
- Layout.BlockComposer.FixBranch: requires that a branch-ending block has a non-empty output block. `layout_build` always meets this (`Layout.LaidKeepsBranchBlocks`); otherwise the source would write before the start of the output.
- RegInfo.RegInfoList.Wipe, RegInfo.RegInfoList.Copy: require the records to fit the storage, which the source does not check.
- LegacyOptimizer.Optimizer.RegisterReplacement: requires the copy records of B and C to lead somewhere the search stops, because the source loops forever otherwise (`LegacyRegisters.CycleBesideStartNeverStops`). It also requires every REGISTER record to name a register index (`LegacyRegisters.CopiesInRange`), which old/optimizecheck.c:138 does not check: it casts the id and indexes the register file with it.
- LegacyOptimizer.Optimizer.UnusedGlobal: requires globals to be tracked and the index to be in range; the source reads `globals[Bx]` without a check.
- LegacyOptimizer.Optimizer.RestoreRegisterState: takes the predecessors' final register records as values. The block lookup and the visited check (commented out in the source) are not modelled.
- Integer widths are not modelled: indices and counters are unbounded, and the source's 8-bit register operands and 32-bit counts never overflow in the model.

## Findings

| source | as written | input that shows it | evidently intended | confidence | as-written member | corrected member |
|---|---|---|---|---|---|---|
| src/reginfo.c:48 | `if (rindx>rlist->nreg) return;` admits `rindx == nreg` and negative indices, and the record array is then indexed out of bounds (the same guard is at lines 65, 71, 77, 83, 91, 97 and 104) | nreg = n, rindx = n | `rindx < 0 \|\| rindx >= nreg` | not executed | RegInfoAsWritten.GuardAdmitsOnePastEnd | RegInfo.RegInfoList.Write |
| src/reginfo.c:115-144 | the alias repair calls the full write, which first repairs the aliases of the alias, re-pointing them at the register being overwritten and then clearing that register's copy flag | r0 = constant 5 (flagged), r2 copies r0 (flagged), r1 copies r2; write constant 7 to r0 | each direct alias of r takes r's old contents, and its own aliases still copy it | not executed | RegInfoAsWritten.StaleAliasAsWritten | RegInfo.WriteKeepsTracking |
