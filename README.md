# Assembler and compiler front end, modelled in Dafny

This project models two parts of a toy computer's toolchain.

**The assembler** (`assembler.py`) takes a parsed pseudo-assembly program and lowers it to
4-field machine code. The ISA has 15 registers, 14 of them allocatable (R1..R14). Each
instruction is an optional `label:`, a mnemonic and operands (`R<n>`, `#<n>`, or a label name).
`convert_syntax` runs these passes over the program, in place:

- remove comment lines;
- scan for "immediate registers", the registers written only by `LDI` before the first branch
  or label, and take every written register out of the pool of unused registers;
- drop redundant `LDI Rn, #0`;
- lower the pseudo-branches `BRZ`, `BRU` and `BRGT` to `BRE` and `BRLT`;
- replace every immediate operand outside an `LDI` by a register holding its value, reusing a
  tracked register or prepending a new `LDI`;
- compute label cycles, prepend `LDI`s of each label's memory cell, strip the declarations and
  replace label uses by registers.

`convert_to_machine_code` then turns mnemonics into opcodes, operands into numbers (an `LDI`
value split over two 4-bit fields), and pads every row to 4 fields.

**The compiler front end** has three parts:

- a maximal-munch lexer (`compiler/src/lexical_analysis.py`) over an abstract token classifier;
- the abstract syntax tree node (`compiler/src/abstract_syntax_tree.py`): its checked
  constructor with parent links, and its pre-order printing;
- the symbol-table entry classes (`compiler/src/symbol_table.py`): construction, Python `==`
  (including which subclass method Python calls first) and `str`.

Modules:

- `Instructions`: the instruction datatype, the opcode table and the helpers.
- `Dicts`: insertion-ordered Python dicts as sequences of items.
- `Seqs`: filtering, and `list.remove`.
- `Tracker`: `RegisterInfo`, the tracker and the pool.
- `Hex`: the memory-cell encoding of a cycle.
- `RegisterScan`, `ZeroLdis`, `BranchLowering`, `Materialize` and `Labels`: one specification
  function per pass, with the lemmas about it.
- `Assembler`: one class whose fields are the program and the module-level dicts and list. Each
  pass is a method proved against its specification function.
- `Encoder`: the three encoding passes as methods over an `array` of rows.
- `Lexer`, `Ast` and `SymbolTable`: the three front-end files.

## Model

| member | source | states |
|---|---|---|
| Instructions.BeginsWithLabel | assembler.py:64-69 | defines "begins with a label" as carrying a `label:` field, which a loader line whose first token ends in `:` fills |
| Instructions.IsBranch | assembler.py:84-90 | defines a branch as a mnemonic starting with `BR`; `FirstBranchOrLabel` states where the first one is |
| Instructions.IsWriteBack | assembler.py:134-135 | defines a write-back instruction as one whose opcode is from ADD to LDI; `ScanStepRules` states what the scan does with it |
| Instructions.GetOpcode | assembler.py:76-82 | the table's opcode for a known mnemonic, -1 exactly when the mnemonic is unknown; only `LDI` gives 8 |
| Instructions.GetOperandValue | assembler.py:110-116 | succeeds exactly on `R<n>`/`#<n>` operands, and raises the malformed-operand error on a label name |
| Instructions.FirstBranchOrLabel | assembler.py:118-125 | -1 exactly when no instruction is labelled or a branch; otherwise the first such index |
| Assembler.Assembler.FirstBranchOrLabelCycle | assembler.py:118-125 | the loop returns the index of the first labelled or branch instruction, -1 when there is none |
| Tracker.InitialPool | assembler.py:28-31 | the unused-register pool starts as [1, ..., 14] |
| Tracker.InitialPoolValid | assembler.py:28-31 | the empty tracker and the initial pool are consistent, and R0 is never in the pool |
| Assembler.Assembler.constructor | assembler.py:22-37 | the module's initial state: the program, empty dicts and the pool 1..14 |
| Dicts.Get | assembler.py:158 | `d[k]` for a present key: the value of its item; `PutThenGet` and `PutOther` state that it reads back stores |
| Dicts.Put | assembler.py:165-167 | `d[k] = v`: the key is present afterwards; storing to a present key keeps the length, a new key is appended at the end |
| Dicts.Pop | assembler.py:155 | `d.pop(k)`: one item fewer; `PopRemovesKey` states that exactly `k` goes and `PopKeepsOthers` that every other key keeps its value and its place in order |
| Dicts.PutThenGet | assembler.py:165-167 | a dict store is read back; storing to an existing key keeps the key order |
| Dicts.PopRemovesKey | assembler.py:154-163 | `pop` removes exactly that key and keeps the others distinct |
| Dicts.PopKeepsOthers | assembler.py:155-163 | after `pop(k)` the keys are the old keys without `k`, in the same order, and every other key keeps its value |
| Dicts.PopKeysOrder | assembler.py:155-163 | the keys after `pop(k)` are the old keys with `k` filtered out |
| Dicts.PopOtherValue | assembler.py:155-163 | any other key is still present after `pop(k)` and maps to the same value |
| Dicts.PutKeepsOthers | assembler.py:158-167 | `d[k] = v` leaves every other key present or absent as before, with its value, and keeps the order of the other keys |
| Dicts.DistinctKeysPut | assembler.py:236 | storing a key keeps keys distinct |
| Tracker.FindIndex | assembler.py:191-201 | the first tracker entry holding the value with an earlier write cycle, none exactly when no entry does |
| Tracker.Find | assembler.py:191-201 | -1 exactly when no tracked register holds `v` written before `cycle`; otherwise the first such register in insertion order |
| Assembler.Assembler.FindExistingImmediateRegister | assembler.py:191-201 | the loop returns what `Find` specifies |
| Tracker.Bump | assembler.py:208-214 | every tracked register keeps its key and value and its write cycle goes up by one |
| Tracker.BumpKeepsValues | assembler.py:208-214 | after the bump the same registers are tracked, each with its value and one cycle later |
| Assembler.Assembler.IncrementLastWrittens | assembler.py:208-214 | the tracker becomes `Bump` of the old one, nothing else changes |
| Tracker.RemoveValue | assembler.py:144-145 | `list.remove` on the pool removes that register once and keeps every other |
| RegisterScan.ScanStep | assembler.py:131-168 | one iteration of the scan loop, with its raises; `ScanStepRules` and `ScanStepValid` state its effect |
| RegisterScan.ScanPrefix | assembler.py:127-169 | the scan over the first n instructions, stopping at the first raise; `ScanPrefixSound` and `ScanFailurePersists` state its properties |
| RegisterScan.ScanStepRules | assembler.py:127-169 | a write-back to an immediate raises; the destination leaves the pool; a non-LDI write or a late LDI evicts a tracked register; any other LDI records (value, cycle), also for an untracked register; `ScanStepFrame` states what stays the same |
| RegisterScan.ScanStepFrame | assembler.py:131-168 | an instruction that writes no register leaves the state as it was; a write-back removes only its destination from the pool and leaves every other tracked register, its value, its cycle and the order of the other keys unchanged; a non-LDI write to an untracked register leaves the tracker unchanged |
| RegisterScan.ScanStepValid | assembler.py:127-169 | one scan step keeps tracker and pool consistent and only shrinks the pool |
| RegisterScan.ScanPrefixSound | assembler.py:127-169 | after the scan every write-back destination is a register outside the pool and the tracker is consistent |
| RegisterScan.ScanRejectsImmediateDestination | assembler.py:137-139 | any write-back with an immediate destination makes the scan raise |
| RegisterScan.ScanFailurePersists | assembler.py:127-169 | once the scan has raised, it raises the same error on every longer prefix |
| Assembler.Assembler.ScanForImmediateRegisters | assembler.py:127-169 | the while loop leaves the tracker and pool the scan specifies, or raises its error; the program is unchanged |
| ZeroLdis.ZeroLdiTarget | assembler.py:175-185 | the register of a removable zero LDI, none for a kept instruction, or the operand error the source raises; `ZeroPrefixSpec` uses it |
| ZeroLdis.ZeroPrefix | assembler.py:171-189 | the pass over the first n instructions: the kept ones and the tracker; `ZeroPrefixSpec`, `ZeroPrefixResets` and `ZeroFailurePersists` state its properties |
| ZeroLdis.ZeroPrefixSpec | assembler.py:171-189 | the kept program is the original minus exactly the unlabelled `LDI Rn, #0` of tracked Rn, in order; the tracked registers stay the same, each keeps its value, and its cycle is kept or reset to 0 by a removed LDI |
| ZeroLdis.ZeroPrefixResets | assembler.py:184-185 | every register whose zero LDI was removed is still tracked and reads as written at cycle 0 |
| ZeroLdis.ZeroFailurePersists | assembler.py:171-189 | once the pass has raised, it raises the same error on every longer prefix |
| Seqs.RemoveFirst | assembler.py:186 | `list.remove`: no change when the element is absent, one shorter when present; `RemoveFirstAt` states which element goes |
| Seqs.RemoveFirstAt | assembler.py:186 | `list.remove` deletes the first equal element |
| Assembler.ZeroRemove | assembler.py:184-187 | a removable zero LDI is the first instruction equal to it from the current position, so `remove` deletes that one |
| Assembler.ZeroKeptDiffer | assembler.py:184-187 | no instruction kept before it equals a removable zero LDI |
| Assembler.ZeroPassKeepsValid | assembler.py:171-189 | the pass keeps the tracker and the pool consistent |
| Assembler.Assembler.ZeroLdiLoop | assembler.py:173-189 | the while loop, with its index decrement after a removal, computes `ZeroPrefix` |
| Assembler.Assembler.ZeroLdiStep | assembler.py:174-189 | one iteration removes the current instruction or keeps it, as the pass specifies |
| Assembler.Assembler.ZeroLdiRegister | assembler.py:178-185 | the test for a removable zero LDI, with its errors |
| Assembler.Assembler.RemoveZeroLdis | assembler.py:171-189 | the new program and tracker are the pass's result, or its error; the pool and labels are unchanged |
| BranchLowering.LowerBranch | assembler.py:276-293 | the rewrite of one instruction, or the error of a missing operand; `LowerBranchSpec` states it |
| BranchLowering.LowerPrefix | assembler.py:271-295 | the pass over the first n instructions; `LowerPrefixSpec` states it |
| BranchLowering.LowerBranchSpec | assembler.py:271-295 | BRZ t,a becomes BRE t,a,#0; BRU t becomes BRE t,R1,R1; BRGT t,a,b becomes BRLT t,b,a; the label is kept and others are untouched |
| BranchLowering.LowerPrefixSpec | assembler.py:271-295 | the pass succeeds exactly when every instruction lowers; the result has the same length and is the per-instruction lowering |
| BranchLowering.LowerFailurePersists | assembler.py:271-295 | once the pass has raised, it raises the same error on every longer prefix |
| BranchLowering.LowerPrefixStep | assembler.py:276-293 | a successful rewrite of the next instruction extends the pass by it |
| BranchLowering.LowerStopsAt | assembler.py:276-293 | a failed rewrite of the next instruction is the error of the whole pass |
| Assembler.Assembler.LowerBranchOf | assembler.py:276-293 | the loop body computes the rewrite of one instruction, or its error |
| Assembler.LoweredHasNoPseudoBranches | assembler.py:271-295 | after the pass no BRZ, BRU or BRGT is left |
| Assembler.Assembler.ConvertCustomBranches | assembler.py:271-295 | the loop rewrites the program into the lowering, or raises its error |
| Materialize.CreateNewLdi | assembler.py:216-238 | one call of `create_new_ldi` on the state; `CreateNewLdiSpec` states it |
| Materialize.CreateNewLdiSpec | assembler.py:216-238 | raises exactly on an empty pool; otherwise takes the pool's last register and records (v, 0); for v ≠ 0 prepends `LDI R<n>, #v` and bumps every earlier record; for v = 0 adds nothing |
| Materialize.CreateNewLdiFront | assembler.py:216-238 | the tracker outcome does not depend on which program the LDI goes in front of |
| Materialize.CreateNewLdiExtends | assembler.py:216-238 | creating a register only extends the state: values are kept and the pool only shrinks |
| Materialize.CreateNewLdiKeepsValues | assembler.py:216-238 | every register already tracked keeps its value |
| Materialize.CreateNewLdiPool | assembler.py:216-238 | the pool only shrinks, and no sentinel register appears |
| Materialize.CreateNewLdiGrowsFront | assembler.py:216-238 | the LDIs already placed stay, and a new one loads a nonzero value |
| Assembler.Assembler.CreateNewLdi | assembler.py:216-238 | the method performs `CreateNewLdi` on the fields and the program |
| Assembler.Assembler.ReplaceOperand | assembler.py:203-206 | exactly operand `k` of that instruction becomes `R<reg>` |
| Materialize.Materialize | assembler.py:253-258 | a found register is reused, otherwise a new one is created; `MaterializeSpec` states it |
| Materialize.MaterializeSpec | assembler.py:252-263 | the register that replaces `#v` holds `v`; the only instruction ever added is an `LDI` of it with a nonzero `v`; nothing tracked changes value |
| Materialize.MaterializeValid | assembler.py:252-263 | materializing an immediate keeps the tracker consistent |
| Materialize.FoundHolds | assembler.py:254-255 | a reused register holds the immediate's value |
| Materialize.MaterializeMakesAvailable | assembler.py:252-263 | after a nonzero immediate is handled, its value is available at that instruction's cycle, so to every later operand of the same instruction |
| Materialize.MaterializeKeepsAvailable | assembler.py:252-263 | handling another immediate never takes an available value away |
| Materialize.AvailableMeansReuse | assembler.py:254-255 | an available value is reused: no pool register is taken and no LDI is added, so a repeat of an immediate reuses its register |
| Materialize.ConvertOperand | assembler.py:251-263 | one operand: an immediate is materialized into a register, anything else is kept; `OpsKeepsPromise` states it |
| Materialize.OpsPrefix | assembler.py:250-263 | the operand loop over the first n operands; `OpsPrefixSpec` states it |
| Materialize.OpsPrefixSpec | assembler.py:247-263 | the operand loop replaces each immediate by a register holding its value and keeps other operands |
| Materialize.OpsStep | assembler.py:247-263 | one more operand of the loop |
| Materialize.OpsKeepsPromise | assembler.py:247-263 | one more operand keeps the loop's promise: the state only extends, and each immediate so far is replaced by a register holding it |
| Materialize.ImmOperandKeepsPromise | assembler.py:252-263 | an immediate operand is replaced by a register holding its value, or raises register exhaustion |
| Materialize.ConvertInstr | assembler.py:243-263 | one instruction of the pass, an LDI untouched; `ConvertInstrSpec` states it |
| Materialize.ConvertInstrSpec | assembler.py:243-263 | a converted instruction keeps label, mnemonic and operand count; an LDI is untouched; the only error is register exhaustion |
| Materialize.ImmPrefix | assembler.py:240-265 | the pass over the first n instructions of the original program; `ImmPrefixSpec` and `ImmReuse` state its properties |
| Materialize.ImmPrefixSpec | assembler.py:240-265 | the pass raises only on pool exhaustion; otherwise the program is the added LDIs followed by the originals in order, each converted (reuse across instructions is stated by `ImmReuse` and `RepeatReuses`) |
| Materialize.ImmPassLeavesNoImmediates | assembler.py:240-265 | after the pass no non-LDI instruction has an immediate operand, and every added LDI loads a nonzero value |
| Materialize.ImmFailurePersists | assembler.py:240-265 | once the pass has raised, it raises the same error on every longer prefix |
| Materialize.AvailableLater | assembler.py:191-201 | a register found for a value at one cycle is found for it at every later cycle too |
| Materialize.OpsKeepAvailable | assembler.py:250-263 | the operand loop of an instruction never takes away a value available at its cycle |
| Materialize.OpsMakeAvailable | assembler.py:250-263 | after the operand loop, each nonzero immediate it met is available at the instruction's cycle |
| Materialize.InstrKeepsAvailable | assembler.py:243-263 | converting an instruction never takes away a value available at its cycle |
| Materialize.ImmReuse | assembler.py:240-265 | after n instructions, each nonzero immediate of an earlier non-LDI instruction is available at the cycle of instruction n, LDIs added in front included |
| Materialize.RepeatReuses | assembler.py:252-263 | a nonzero immediate that an earlier non-LDI instruction had is reused at any operand of instruction n: no pool register is taken and no LDI is added |
| Assembler.ImmPassKeeps | assembler.py:240-265 | the pass leaves a consistent tracker, no immediates outside LDIs and no pseudo-branches |
| Assembler.Assembler.ReplaceImmediate | assembler.py:252-263 | one immediate operand handled in place, as `Materialize` specifies, with the instruction's new cycle |
| Assembler.Assembler.ConvertInstructionAt | assembler.py:243-263 | one instruction converted in place, as `ConvertInstr` specifies |
| Assembler.Assembler.ConvertNextInstruction | assembler.py:242-265 | one iteration of the outer loop advances the pass by one original instruction |
| Assembler.Assembler.ConvertImmediateOperands | assembler.py:240-265 | the while loop, with its cycle bump after a new LDI, leaves the program and tracker of `ImmPrefix`, or its error |
| Hex.ParseHex | assembler.py:310 | `int(s, 16)`, with an optional `0x` prefix; `HexStringRoundTrip` states that it reads `hex(n)` back |
| Hex.CycleToCustomHex | assembler.py:297-305 | `hex(c // 15 + 1)` followed by the digits of `hex(c % 15 + 1)`; `CustomHexParses` states what it reads back as |
| Hex.HexDigitsRoundTrip | assembler.py:297-305 | the hexadecimal digits of a number parse back to it |
| Hex.HexStringRoundTrip | assembler.py:297-311 | `int(hex(n), 16) == n` |
| Hex.CustomHexParses | assembler.py:297-311 | the custom hex string of a cycle parses to 16·(c div 15 + 1) + (c mod 15) + 1 |
| Hex.CycleToCellInt | assembler.py:307-311 | the cell integer is that formula's value |
| Hex.CellShape | assembler.py:297-311 | the low nibble is 1..15, the high part is c div 15 + 1, the cell is at least 0x11, and it fits in a byte exactly for c < 225 |
| Hex.CellInjective | assembler.py:297-311 | different cycles have different cells |
| Hex.ByteSplit | assembler.py:427-429 | for 15 < v ≤ 0xFF the two hex digits read are v div 16 and v mod 16 |
| Labels.CalculateFrom | assembler.py:321-328 | the label loop over the first n instructions; `CalculateSpec` states it |
| Labels.CalculateSpec | assembler.py:321-328 | the keys are exactly the declared labels, distinct, each mapped to the last instruction declaring it |
| Labels.CalculateUnlabelled | assembler.py:321-328 | an unlabelled instruction leaves the labels as they were |
| Labels.CalculateLabelled | assembler.py:321-328 | a labelled instruction becomes the last declaration of its label, and the keys stay distinct |
| Assembler.Assembler.CalculateBranchLabels | assembler.py:321-328 | the loop stores each declaration's cycle into the label dict |
| Labels.CalculateTargetsDeclarations | assembler.py:321-328 | each label points at an instruction that declares it |
| Labels.Shift | assembler.py:330-333 | every label keeps its place and moves `amount` cycles later |
| Labels.ShiftGet | assembler.py:330-333 | after the shift the same labels are present, each `amount` later |
| Labels.ShiftTargetsDeclarations | assembler.py:330-355 | shifting by the number of instructions put in front keeps each label on its declaration |
| Assembler.Assembler.IncrementBranchLabels | assembler.py:330-333 | the label dict becomes its shift |
| Labels.MissCount | assembler.py:338-344 | the first loop's count is at most the number of labels |
| Assembler.Assembler.CountMissingLabelLdis | assembler.py:338-344 | the loop counts the labels whose cell no register holds at the label's cycle |
| Labels.LabelLdi | assembler.py:350-355 | one turn of the second loop; `LabelLdiStep` states it |
| Labels.LabelLdiPrefix | assembler.py:349-355 | the second loop over the first n labels; `LabelLdiSpec` and `LabelLdiTakes` state it |
| Labels.LabelLdiStep | assembler.py:348-355 | one turn of the second loop either finds the cell tracked or takes one pool register for an LDI of it |
| Labels.LabelLdiSpec | assembler.py:348-355 | the second loop raises only on pool exhaustion; otherwise every label's cell is tracked, the pool shrinks by the number of LDIs added, and each added LDI loads a label's cell |
| Labels.LabelLdiTakes | assembler.py:221-225 | the LDIs the second loop puts in front load exactly the registers it took from the end of the pool, newest first, and what is left of the pool is its beginning |
| Labels.TakenRegistersDistinct | assembler.py:221-225 | with a pool of distinct registers, the registers of those LDIs are distinct and none is left in the pool |
| Labels.LabelLdiFailurePersists | assembler.py:348-355 | once the second loop has raised, it raises the same error on every longer prefix |
| Labels.TargetsNonzero | assembler.py:307-311 | no label cell is 0, so each missing one costs an LDI |
| Labels.AddLabelLdis | assembler.py:335-355 | count, shift, then create; `AddLabelLdisSpec` states it |
| Labels.AddLabelLdisSpec | assembler.py:335-355 | labels move by the first loop's count; afterwards every label's cell is tracked; the LDIs put in front load exactly the registers taken from the end of the pool, newest first, each LDI of a label cell, and the pool keeps its beginning |
| Assembler.LabelLdisKeep | assembler.py:335-355 | the pass adds only LDIs and keeps the tracker consistent |
| Assembler.Assembler.CreateLabelLdiAt | assembler.py:349-355 | one turn of the second loop, in place |
| Assembler.Assembler.CreateLabelLdis | assembler.py:348-355 | the second loop leaves the state `LabelLdiPrefix` specifies, or its error |
| Assembler.Assembler.AddLabelLdiInstructions | assembler.py:335-355 | count, shift, then create, as `AddLabelLdis` specifies |
| Labels.StripLabels | assembler.py:357-362 | same length; every instruction loses its label and keeps mnemonic and operands |
| Assembler.StripKeeps | assembler.py:357-362 | after the pass no label is left, and no immediate or pseudo-branch reappears |
| Assembler.Assembler.RemoveLabelDeclarations | assembler.py:357-362 | the loop leaves `StripLabels` of the program |
| Labels.ResolveOperand | assembler.py:370-376 | one operand: a label use becomes `R` of the register found for the label's cell, anything else is kept; `ResolveOperandSpec` states it |
| Labels.ResolveLabels | assembler.py:364-376 | the pass keeps the program's length; `ResolveLeavesNoLabelUses` states its effect |
| Labels.ResolveOperandSpec | assembler.py:364-376 | a label use becomes the register the tracker finds for the label's cell (holding it, written before the instruction), or R-1 when there is none; other operands are untouched |
| Labels.ResolveLeavesNoLabelUses | assembler.py:364-376 | after the pass no operand names a label |
| Assembler.ResolveKeeps | assembler.py:364-376 | the pass leaves no label use and keeps the other properties |
| Assembler.Assembler.ConvertBranchLabels | assembler.py:364-376 | the nested loops leave `ResolveLabels` of the program |
| Seqs.Filter | assembler.py:378-386 | the order-preserving filter: never longer, and everything kept was there and passes; `FilterKeepsSatisfying` gives the converse |
| Seqs.FilterKeepsSatisfying | assembler.py:378-386 | an element survives the filter exactly when it was there and passes |
| Seqs.FilterIdempotent | assembler.py:378-386 | filtering twice is filtering once |
| Assembler.CommentStep | assembler.py:380-386 | one iteration of the comment loop: pop at the index or advance it |
| Assembler.Assembler.RemoveComments | assembler.py:378-386 | the program becomes its non-comment lines in order; nothing else changes |
| Assembler.Assembler.ConvertSyntax | assembler.py:388-398 | when every pass succeeds: a consistent tracker, no label declarations, no label uses, no pseudo-branches and no immediates outside LDIs |
| Encoder.RowOf | assembler.py:92-101 | an instruction's list is `[label:] mnemonic operand...` |
| Encoder.OpcodeRowOfInstr | assembler.py:400-405 | the first entry of an unlabelled instruction becomes its opcode |
| Encoder.RowOpcodeOfInstr | assembler.py:76-82 | the opcode looked up for an unlabelled row is the mnemonic's |
| Encoder.MapRows | assembler.py:400-442 | a row-wise pass over the first n rows, stopping at the first raise; `MapRowsSpec` states it |
| Encoder.MapRowsSpec | assembler.py:400-433 | a row-wise pass succeeds exactly when every row does, and gives each row's result |
| Encoder.MapRowsFailurePersists | assembler.py:400-433 | once a row-wise pass has raised, it raises the same error on every longer prefix |
| Encoder.MapRowsStep | assembler.py:400-433 | one more row of a row-wise pass |
| Encoder.ConvertOpcodes | assembler.py:400-405 | the array's rows become their opcode rows, or the pass's error |
| Encoder.EncodeOperands | assembler.py:409-433 | one row's operand loop; `EncodeDirect` and `EncodeLdi` state it |
| Encoder.EncodeCell | assembler.py:412-433 | one operand step keeps the opcode and never shortens the row |
| Encoder.OperandsPrefix | assembler.py:410-433 | the operand loop keeps the opcode and never shortens the row |
| Encoder.OperandsFailurePersists | assembler.py:410-433 | once the operand loop has raised, it raises the same error on every later index |
| Encoder.EncodeLdi | assembler.py:413-429 | `[8, R<r>, #v]` encodes as `[8, r, 0, v]` for every v ≤ 15, negative values included, and as `[8, r, v div 16, v mod 16]` for 0 ≤ v ≤ 0xFF |
| Encoder.LdiFieldsRoundTrip | assembler.py:413-429 | the two LDI fields are 4-bit and recombine to the value |
| Encoder.DirectOperandsPrefix | assembler.py:412-433 | in a non-LDI row the loop succeeds exactly when every operand is at most 15, and writes each value in place |
| Encoder.EncodeDirect | assembler.py:407-433 | a non-LDI instruction encodes exactly when every operand is at most 15, as its opcode followed by the operand values; otherwise it raises |
| Encoder.ConvertRowOperands | assembler.py:408-433 | one row's operand loop computes `EncodeOperands` |
| Encoder.ConvertOperands | assembler.py:407-433 | the array's rows become their encoded rows, or the pass's error |
| Encoder.Pad | assembler.py:437-442 | one row padded with zeros to 4 entries; `PadSpec` states it |
| Encoder.PadSpec | assembler.py:435-442 | a padded row is at least 4 long, starts with the row, and the rest is zeros |
| Encoder.PadAll | assembler.py:435-442 | every row is padded |
| Encoder.PadToEqualWidth | assembler.py:435-442 | every array row becomes its padding |
| Encoder.MachineCode | assembler.py:444-448 | the three passes on the rows; `MachineCodeRows` states it |
| Encoder.MachineCodeRows | assembler.py:444-448 | the encoding succeeds exactly when every row encodes, and gives each row's encoding |
| Encoder.ConvertToMachineCode | assembler.py:444-448 | the three passes in order leave `MachineCode` of the rows, or the first error |
| Encoder.EncodeLdiInstr | assembler.py:400-448 | `LDI R<r>, #v` encodes as `[8, r, 0, v]` for every v ≤ 15, negative values included, and as `[8, r, v div 16, v mod 16]` for 0 ≤ v ≤ 0xFF, where the fields recombine to v |
| Lexer.Upper | compiler/src/lexical_token.py:36 | ASCII upper-casing, character by character |
| Lexer.UpperIsUpper | compiler/src/lexical_token.py:36 | upper-cased text has no lower-case ASCII letter left, and upper-casing it again changes nothing |
| Lexer.CreateToken | compiler/src/lexical_token.py:32-40 | the token has the given type; it stores a value exactly when the type stores one; the value is the text, upper-cased for TYPE |
| Lexer.TokensOf | compiler/src/lexical_token.py:32-40 | one token per text, in order |
| Lexer.EmitEnd | compiler/src/lexical_analysis.py:25-42 | the end of the next emitted token is the first place where an accepted prefix is followed by a rejected one-character extension |
| Lexer.LexemesFrom | compiler/src/lexical_analysis.py:20-53 | every text is nonempty and accepted; an unaccepted remainder raises the invalid-tokens error for the line |
| Lexer.LexemesSpec | compiler/src/lexical_analysis.py:25-53 | the texts concatenate back to the line; each is accepted and maximal, and its one-character extension into the next was rejected |
| Lexer.LexemesUnique | compiler/src/lexical_analysis.py:25-53 | conversely, any split of the line with those properties is the one the lexer finds |
| Lexer.EmittedSpec | compiler/src/lexical_analysis.py:31-40 | an emitted token followed by a valid split of the rest is a valid split |
| Lexer.MunchedUpTo | compiler/src/lexical_analysis.py:25-42 | a prefix with no earlier boundary is maximal |
| Lexer.TokenizationCons | compiler/src/lexical_analysis.py:31-40 | a maximal accepted text whose extension was rejected, followed by a valid split, is a valid split |
| Lexer.TokenizationTail | compiler/src/lexical_analysis.py:31-40 | the rest of a valid split is a valid split |
| Lexer.LexLine | compiler/src/lexical_analysis.py:13-57 | an empty or `//` line never raises; any failure is the invalid-tokens error for that line |
| Lexer.LexLineSpec | compiler/src/lexical_analysis.py:13-57 | a line's tokens are the tokens of its unique split, without whitespace |
| Lexer.ScanStep | compiler/src/lexical_analysis.py:26-29 | extending an accepted substring does not move the next token's end |
| Lexer.EmitStep | compiler/src/lexical_analysis.py:32-40 | an emission moves the start to the end of the emitted token |
| Lexer.FinalStep | compiler/src/lexical_analysis.py:46-53 | the remainder is appended when accepted and raises otherwise |
| Lexer.TokensOfSnoc | compiler/src/lexical_analysis.py:35-36 | appending a text appends its token |
| Lexer.ScanCharacter | compiler/src/lexical_analysis.py:26-42 | one iteration keeps the scan invariant and strictly advances end, or start with end fixed |
| Lexer.ScanLine | compiler/src/lexical_analysis.py:20-42 | the loop ends with the tokens emitted so far and a remainder with no further boundary |
| Lexer.ConvertLine | compiler/src/lexical_analysis.py:13-57 | the string case computes `LexLine` |
| Lexer.GetNonWhitespaceTokens | compiler/src/lexical_analysis.py:3-9 | the non-whitespace tokens in order |
| Lexer.NonWhitespaceSpec | compiler/src/lexical_analysis.py:3-9 | a token survives exactly when it was there and is not whitespace; filtering twice is filtering once |
| Lexer.TokenizeHasNoWhitespace | compiler/src/lexical_analysis.py:55-66 | no result contains a whitespace token |
| Lexer.ItemsHaveNoWhitespace | compiler/src/lexical_analysis.py:59-66 | the list case's result contains no whitespace token |
| Lexer.TokenizeItemsAppend | compiler/src/lexical_analysis.py:59-66 | a list's tokens are the in-order concatenation of its parts' tokens, and the first failure wins |
| Lexer.TokenizeItemsPrefix | compiler/src/lexical_analysis.py:59-66 | appending lines does not change the tokens of the first ones |
| Lexer.SingleItem | compiler/src/lexical_analysis.py:59-66 | a one-line list tokenizes like the line |
| Lexer.ItemsFailurePersists | compiler/src/lexical_analysis.py:59-66 | once a line has raised, the whole list raises that error |
| Lexer.Tokenize | compiler/src/lexical_analysis.py:11-69 | a string by `LexLine`, a list line by line, any other input raises; `TokenizeHasNoWhitespace` states its result |
| Lexer.TokenizeItems | compiler/src/lexical_analysis.py:59-66 | the list case over its first n items; `TokenizeItemsAppend` states it |
| Lexer.ConvertIntoTokens | compiler/src/lexical_analysis.py:11-69 | the function computes `Tokenize`: a string by `LexLine`, a list line by line, any other input raises |
| Ast.TokenString | compiler/src/lexical_token.py:14-18 | a token prints in angle brackets |
| Ast.FirstInvalid | compiler/src/abstract_syntax_tree.py:16-22 | the index of the first child that is neither a node nor a token |
| Ast.NodesBeforeStep | compiler/src/abstract_syntax_tree.py:16-20 | one more child adds at most that child to the linked nodes |
| Ast.AstNode.Leaf | compiler/src/abstract_syntax_tree.py:9-15 | a fresh node with the operator and parent and no children |
| Ast.AstNode.Append | compiler/src/abstract_syntax_tree.py:18 | the child is appended and the tree stays well-formed |
| Ast.New | compiler/src/abstract_syntax_tree.py:9-22 | raises on a bad operator, or on the first bad child after linking the node children before it; on success a fresh well-formed node holds the operator, parent and children in order, and each node child's parent is the new node |
| Ast.AstNode.PreOrder | compiler/src/abstract_syntax_tree.py:24-30 | the pre-order entries start with the operator's string |
| Ast.JoinAppend | compiler/src/abstract_syntax_tree.py:27-28 | joining two lists puts one newline between their joins |
| Ast.JoinStep | compiler/src/abstract_syntax_tree.py:27-28 | one more child adds a newline and that child's text |
| Ast.AstNode.ChildString | compiler/src/abstract_syntax_tree.py:28 | `str` of a child is the join of its entries |
| Ast.AstNode.ToString | compiler/src/abstract_syntax_tree.py:24-30 | the node prints as its pre-order entries joined by newlines |
| Ast.LeafPrints | compiler/src/abstract_syntax_tree.py:24-30 | a childless node prints only its operator |
| Ast.TokenLines | compiler/src/abstract_syntax_tree.py:27-28 | the token strings of the children, in order |
| Ast.TokenChildrenEntries | compiler/src/abstract_syntax_tree.py:27-28 | the entries of token children are their token strings |
| Ast.TokenChildrenPrint | compiler/tests/syntax_analysis_test.py:7-21 | a node with token children prints its operator, then each token in order |
| SymbolTable.NewVar | compiler/src/symbol_table.py:34-36 | a new variable entry has type VAR, is not accessed, and keeps address and data type |
| SymbolTable.NewConst | compiler/src/symbol_table.py:57-59 | a new constant entry has type CONST and keeps address, data type and value |
| SymbolTable.BaseEq | compiler/src/symbol_table.py:20-24 | the base `__eq__`: the three common fields agree; raises on an object without them |
| SymbolTable.MethodEq | compiler/src/symbol_table.py:20-70 | the `__eq__` of the entry's own class; `EqualsIsIdentity` and `EqualsRaises` state it |
| SymbolTable.Equals | compiler/src/symbol_table.py:20-70 | Python's `==`: the right operand's method first when its class is a proper subclass of the left one's; `EqualsIsIdentity` states it |
| SymbolTable.EqualsIsIdentity | compiler/src/symbol_table.py:20-70 | two entries compare equal exactly when class and every field agree; comparison is symmetric |
| SymbolTable.EqualsRaises | compiler/src/symbol_table.py:42-70 | comparing raises exactly when a plain entry matches a subclass entry on the common fields; comparing with a non-entry raises |
| SymbolTable.VarConstUnequal | compiler/src/symbol_table.py:42-70 | a variable and a constant compare unequal without raising |
| SymbolTable.AccessBreaksEquality | compiler/tests/symbol_table_test.py:5-11 | two fresh variables are equal, and setting one's accessed flag breaks equality |
| SymbolTable.NatString | compiler/src/symbol_table.py:17 | an int prints as decimal digits |
| SymbolTable.NatStringRoundTrip | compiler/src/symbol_table.py:17 | the digits read back as the number |
| SymbolTable.IntString | compiler/src/symbol_table.py:17 | a negative int prints with a leading minus |
| SymbolTable.EntryString | compiler/src/symbol_table.py:16-63 | `m_addr=…, d_type=…, e_type=…`, followed by `, is_accessed=…` for a variable or `, const_val=…` for a constant |
| SymbolTable.EntryStringExamples | compiler/tests/symbol_table_test.py:26-35 | the renderings of a fresh CHAR variable and constant at address 0 |

## Left out

- File input and output: `read_file_into_list`, `write_to_file` and the command-line script. The model takes and returns in-memory programs.
- Textual operand parsing. Operands are already `R<n>`, `#<n>` or a name. `int()` on a name's tail is taken to raise, so an undeclared label fails as a malformed operand. A label named like `R3` is not modelled.
- `mem_cell_branch_labels` is declared but never used, so it is not modelled.
- `RegisterInfo.__str__` is only used for debugging output, so it is not modelled.
- Exceptions are error results. The partial state a pass leaves when it raises part-way is not stated, except in `Ast.New`.
- `Materialize.MaterializeMakesAvailable`: stated for the operands of the same instruction. Reuse across instructions is stated by `Materialize.ImmReuse` and `Materialize.RepeatReuses`.
- `Materialize.ImmPrefixSpec`: does not itself state reuse of a repeated immediate across instructions. `Materialize.ImmReuse` and `Materialize.RepeatReuses` state it.
- Loader lines that make the source raise before any pass are not representable: an `Instr` always has a mnemonic, and each operand is already a register, an immediate or a name. A label-only line such as `loop:` has no mnemonic, so `get_opcode_str` (assembler.py:72-74) raises `IndexError`. An empty token, from a double space, raises at `str(instruction[0])[-1]` (assembler.py:66) or `operand[0]` (assembler.py:105).
- `Encoder.EncodeCell`: a text cell (`label:` or mnemonic) in operand position is a malformed operand. The source would apply `int()` to its tail.
- `Encoder.EncodeOperands`: an empty row raises a missing-operand error rather than an `IndexError`.
- `Encoder.EncodeLdi`: stated only for values up to 0xFF. Above that, only the first two hex digits are read.
- `Encoder.EncodeLdiInstr`: stated only for values up to 0xFF, for the same reason.
- `Labels.AddLabelLdisSpec`: the count is not proved exact, because the first loop looks up unshifted cells and the second loop shifted ones.
- `Labels.ResolveOperandSpec`: it allows `R-1` when no register holds the cell, as the source does.
- The token regexes and the JSON table of token types. The classifier and the stores-value table are parameters of the lexer.
- `Lexer.Upper` covers ASCII only. Python's `str.upper` also maps other letters.
- `SymbolTable.Equals`: a comparison between two non-entries is outside the model. A constant's value is an `int`, although the source accepts any value.
- `SymbolTable.EntryString`: an address's `str` is modelled for `int` only.
- The schematic generator, the parsers and grammar loader, semantic analysis, the older copies of the lexer and symbol table, and the test helpers are not part of this model.
