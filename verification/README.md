# DBrew, verified

DBrew specialises x86-64 functions at run time. It emulates a function over a state in which every register,
flag and stack byte is dead, unknown, known, or an address on the private stack. It captures the instructions
that still matter, generates binary code for the captured blocks, and its LLVM back end recovers a control-flow
graph and lifts instructions. This project models six of its components and proves that they keep the meaning
of the program.

**Specialising emulator** (`Bits`, `Machine`, `Emulator`, `EmuObject`, `Relation`, `Access`, `Simulation`,
`SavedState`, `Ledger`, `Engine`, `Specialise`, `Departures`). `Machine` gives MOV, ADD, SUB, AND, OR, XOR,
IMUL, LEA, CMP, JMP, the conditional jumps and RET on 64-bit operands their architectural meaning. `Emulator`
says what emulating and capturing one instruction computes; `EmuObject.EmuState` is the object whose methods do
it in place. `Relation.StateRel` relates an emulator state to the original and the residual machine: a known
location has the emulator's value in the original, an unknown one is equal in both, a dead one is unconstrained,
and an address on the private stack is the emulator's value moved to where the stack really lies.
`Simulation.SimStep` is the simulation step, `Engine.Rewriter` the worklist with saved states, and `Ledger.BookOk`
the invariant of the whole emulation. `Specialise.Specialised` is the theorem about whole runs, through jumps
in both directions, unrolled loops and blocks that are reused because an equal state was saved.

**Code layout** (`Layout`, `Generation`), **encoder and decoder** (`Bytes`, `ModRM`, `Vex`, `Codec`, `BlockCodec`,
`Contexts`), for operands of 8 to 64 bits and the vector additions with and without VEX prefix, and both with the
emulator (`EndToEnd`, `Rewrite`). `Generation.Generator` runs the three passes over one byte array.
`EndToEnd.Rewritten` says that the bytes in that array, fetched, decoded and executed, return exactly if the original
function does, with the same result, stack pointer, preserved registers and memory. `Rewrite.RewriteFunction` runs the
components one after the other, and its contract ends in that statement about all calls. `Example` takes a function
with a jump of unknown direction, shows that every configured call of it meets all conditions, and concludes what its
eighteen rewritten bytes return.

**Lifter** (`Cfg`, `CfgOnce`, `CfgDecoder`, `LiftedFlags`, `FlagCache`, `RegFile`) and **vectorisation** (`Vectorize`).

What the theorems about rewritten functions assume:

* `Specialise.Safely`, about the running program. An access that the emulator does not track stays off the private
  stack, and memory declared constant still holds what was read while rewriting (`src/emulate.c:43-46`); and where a
  JBE or JA was captured as another jump, that jump goes the original way (`Specialise.CapturedExact` says when).
* `Specialise.FaithfulBook`: conditions that can be checked on the emulator states of a rewriting. They exclude
  where the code departs from the processor, and this table names what shows each of them exact:

  | condition | exact by |
  |---|---|
  | no register of an address is dead | `Departures.DeadAddressExact` |
  | no scaled register of a stack-relative address is stack-relative | `Departures.ScaledAnchorIff` |
  | a loaded slot does not mix known and unknown bytes | `Departures.MixedLoadBreaks` one way, `Access.TrackedLoad` the other |
  | stack addresses are loaded from where they were spilled | `Departures.StraddleExact` with `Departures.StraddledLoad` |
  | nothing uninitialised is stored off the tracked stack | `Departures.DeadStoreExact` |
  | a difference or product with a stack address moves with the stack | `Departures.AnchorIff` |
  | a known destination that is loaded for an operation or comparison is tracked, and no register of it is known | `Departures.MaterialisedStore`, `Departures.MaterialisedAddress` |
  | a known jump tests flags the emulator has right, and takes their direction | `Departures.SumKnownExact`, `Specialise.TakenExact` |
  | a captured jump tests flags that captured code sets | `Departures.DroppedFlags` |

  Beside these, no jump goes to address zero, which the engine takes for no address, and at a return the emulator knows
  that the stack pointer is back and nothing about the preserved registers. The places for stack addresses are a
  parameter of the theorems, and do not overlap for the whole run: code that spills addresses to overlapping places at
  different times is excluded, although it is captured right.
* `EndToEnd.KeepsFlags`: the generator clears a register by an exclusive or, which sets flags; no such clearing
  may be the last thing before a jump that tests flags.
* The result is the same where `Specialise.GivesResult` holds: every return of the rewritten function has initialised
  RAX, and no floating-point result is configured. The rest of the outcome does not depend on it.

Departures found, each with an input and its exact condition below:

* Carry and overflow of additions follow the formula of subtractions.
* JLE and JG ignore the overflow flag; JBE and JA are captured as JLE and JG.
* The difference or product of a known value and a stack address counts as a stack address, and so does an address
  whose scaled index is one.
* The move that loads a known stack slot for the residual program keeps registers that program need not have; the one
  in front of a comparison stores through such registers to memory of the original program.
* A load of known and unknown bytes is captured although the known ones need not be in memory; a load across two
  spilled stack addresses counts as a stack address.
* A store of an uninitialised value is not captured, also where the emulator does not track its destination.
* An operation with a neutral source is left out with the flags it sets.
* An instruction with AH, CH, DH or BH beside a register numbered eight or more is encoded with SPL, BPL, SIL or DIL.
* A write to a low legacy byte register is recorded as the high byte.
* The second source of a three-operand vector addition is not looked at; requests to vectorise a kernel with a pointer
  argument always stop, where others succeed on every accepted block with room.
* The comment at `llvm/src/lldecoder.c:102` says that each instruction belongs to exactly one block. Truncation
  (`llvm/src/lldecoder.c:171`) looks only for the block that holds the last instruction, so a third block on one run
  of instructions can overlap the first. `CfgDecoder.DecodeFunction` says when the comment holds, by the order in
  which addresses are asked for.

`dafny verify dfyconfig.toml` checks the whole project.

## Model

| member | source | states |
|---|---|---|
| Bits.BorrowWordBit | src/emulate.c:783-820 | bit i of the borrow word is the borrow out of bit i of d - s, for every bit of every width |
| Bits.BorrowWordFlags | src/emulate.c:783-820 | carry is unsigned less-than and overflow is signed overflow, at every width from two bits |
| Simulation.SubFlagsCorrect | src/emulate.c:783-820 | the four flags the emulator computes for a 64-bit subtraction are the architectural ones |
| Simulation.BitFlagsCorrect | src/emulate.c:866-914 | the flags computed for AND, OR and XOR are the architectural ones |
| Departures.CarryWordBit | src/emulate.c:825-862 | the word formed for an addition has the carry out of bit i exactly if bit i of the sum is bit i of the first operand |
| Departures.AddFlagsExact | src/emulate.c:825-862 | zero and sign of an addition are right; carry and overflow are right exactly under a condition on the two top bits of operand and sum |
| Departures.SumKnownExact | src/emulate.c:825-862 | of the flags of a known sum, exactly which ones a later jump may rely on |
| Departures.AddCarryMissed | src/emulate.c:825-862 | an addition whose carry and overflow the emulator both misses |
| Departures.AnchorIff | src/emulate.c:522-550 | a sum, difference or product with a stack address moves with the stack, wherever the stack lies, exactly if it is a sum, has the address on the left of a difference, or is a product with one |
| Departures.AnchorWrong | src/emulate.c:522-550 | one minus a stack address, and twice a stack address, get the state of a stack address and do not move with the stack |
| Departures.ScaledAnchorIff | src/emulate.c:1208-1222 | an address called stack-relative moves with the stack, wherever the stack lies, exactly if no stack-relative register of it is scaled by more than one |
| Departures.DeadAddressExact | src/emulate.c:1378-1398 | for every machine in relation the folded operand has the original address exactly if no register of it is dead |
| Departures.MaterialisedAddress | src/emulate.c:1553-1556 | for every machine in relation the captured load of a known slot addresses the slot of the operation behind it, exactly if no register of the operand is known to the emulator |
| Departures.MaterialisedStore | src/emulate.c:1553-1556 | the captured load of a known destination keeps the relation, for all machines in relation, exactly if the destination is tracked and no register of it is known |
| Departures.UnfoldedStore | src/emulate.c:1643-1648 | a known word stored through a known register breaks the relation of some related machines |
| Departures.KnownCompareStores | src/emulate.c:1626-1651 | the code captured for a comparison of a constant in memory with an unknown register stores the constant through a register that is known |
| Departures.MixedLoadBreaks | src/emulate.c:938-950 | if a loaded slot has a known byte, some residual machine in relation loads another value than the original |
| Departures.MixedSlot | src/emulate.c:938-950 | a slot of one known and seven unknown bytes counts as unknown |
| Departures.StraddleExact | src/emulate.c:938-950 | the word at byte k of two adjacent stack addresses moves with the stack, wherever the stack lies, exactly if it is one of the two |
| Departures.StraddledLoad | src/emulate.c:938-988 | the word at byte k of two adjacent spilled addresses counts as a stack address, and is described by the emulated value exactly if it moves by the distance of the stack |
| Departures.StraddledSlot | src/emulate.c:938-950 | a state with two adjacent spilled addresses where the word across them counts as one |
| Departures.DeadStoreExact | src/emulate.c:1405-1426 | leaving out a move or operation with an uninitialised result keeps the relation, for all machines in relation, exactly if its destination is tracked |
| Departures.DeadStoreDropped | src/emulate.c:1405-1426 | a store of an uninitialised register through an unknown one is left out |
| Departures.DroppedFlags | src/emulate.c:1511-1580 | each flag of an operation reaches the residual program, whatever its flags were before, exactly if the captured code executes the operation |
| Departures.NeutralDropped | src/emulate.c:1511-1580 | add rax, 0 on an unknown register is left out, flags and all |
| Specialise.TakenExact | src/emulate.c:2353-2373 | after a comparison of known operands the emulator takes the direction of the processor exactly if the jump is no JLE or JG or the signed difference does not overflow |
| Specialise.TakenWrong | src/emulate.c:2353-2373 | after comparing the least value with one the emulator goes on behind a JLE that the processor takes |
| Specialise.CapturedExact | src/emulate.c:2289-2311 | after any comparison, sum, difference or bitwise operation the captured jump goes the original way exactly if it is no JBE or JA, or the operands have one sign (of a difference, or of a sum that is not zero) or the result of the bitwise operation is not negative |
| Specialise.CapturedWrong | src/emulate.c:2289-2311 | after comparing zero with 2^63 the jump captured for JBE is not taken |
| Specialise.CapturedWrongBits | src/emulate.c:2289-2311 | after the bitwise or of -2^63 and 0 the jump captured for JBE is taken, where the original is not |
| Relation.AddressRel | src/emulate.c:1378-1398 | folding known base, index and RIP into the displacement, modulo 2^64, keeps the address the original program uses |
| Relation.OriginalAddress | src/emulate.c:1208-1222 | a known address is the original one, a stack-relative one is the original one moved by the position of the stack |
| Access.TrackedLoad | src/emulate.c:938-988 | a load from the tracked stack is described by its combined state and value |
| Access.ValueRel | src/emulate.c:1226-1287 | the value and state of an operand describe both machines, the residual one reading the folded operand |
| Access.StoreTracked | src/emulate.c:991-1041 | a store to a tracked slot, with different words in both machines, keeps the relation |
| Access.StoreUntracked | src/emulate.c:1317-1354 | a store off the private stack of the same word to both memories keeps the relation |
| Access.AssignDropped | src/emulate.c:1405-1426 | leaving out a tracked assignment of a known or dead value keeps the relation |
| Simulation.ResultRel | src/emulate.c:522-563 | the state given to a result describes it: known results are right, also for zero products, zero conjunctions and a register xor-ed with itself |
| Simulation.Materialise | src/emulate.c:1553-1556 | telling the residual code a known operand keeps the relation and makes both machines agree on it |
| Simulation.SimMov | src/emulate.c:1405-1426 | the code captured for a move simulates it |
| Simulation.SimLea | src/emulate.c:1604-1623 | the code captured for LEA simulates it, also with results forced unknown |
| Simulation.SimAlu | src/emulate.c:1511-1580 | the code captured for a binary operation simulates it: nothing, a move, a materialising move, an operation left out for a neutral source, or the operation |
| Simulation.SimCmp | src/emulate.c:1626-1651 | the code captured for a comparison simulates it and leaves described flags |
| Simulation.SimStep | src/emulate.c:1922-2808 | one-step simulation: the relation survives when the original executes an instruction and the residual machine the captured code, and flags stay described where FlagsKept says so |
| EmuObject.EmuState.constructor | src/emulate.c:119-169 | a fresh state is dead but for the callee-saved registers |
| EmuObject.EmuState.Reset | src/emulate.c:119-156 | resetting in place gives the fresh state back |
| EmuObject.EmuState.Address | src/emulate.c:1208-1222 | the address computed from the object is that of the abstract state |
| EmuObject.EmuState.OperandValue | src/emulate.c:1226-1287 | reading an operand, byte states combined in a loop |
| EmuObject.EmuState.WriteSlot | src/emulate.c:991-1041 | writing value and state bytes in place replaces exactly the slot and lowers the accessed mark |
| EmuObject.EmuState.SetOperand | src/emulate.c:1290-1354 | storing to an operand, with its failures |
| EmuObject.EmuState.SetFlagsFor | src/emulate.c:783-914 | flags and their states after an operation |
| EmuObject.EmuState.ApplyStatic | src/emulate.c:1378-1398 | folding known registers |
| EmuObject.EmuState.IsTracked | src/emulate.c:1360-1374 | whether the emulator keeps the state of an operand |
| EmuObject.EmuState.CapturedMov | src/emulate.c:1405-1426 | code captured for a move |
| EmuObject.EmuState.CapturedBinary | src/emulate.c:1511-1580 | code captured for a binary operation and the possibly forced state of its result |
| EmuObject.EmuState.CapturedCmp | src/emulate.c:1626-1651 | code captured for a comparison |
| EmuObject.EmuState.CapturedLea | src/emulate.c:1604-1623 | code captured for LEA |
| EmuObject.EmuState.ProcessInstr | src/emulate.c:1922-2808 | one instruction in place: the new object state and the captured code are those of the step function, failures included |
| EmuObject.EmuState.ProcessReturn | src/emulate.c:1666-1682 | the return kills the scratch registers and loads a known result |
| EmuObject.EmuState.CopyFrom | src/emulate.c:272-322 | copying between states of different stack sizes aligns them at the top and kills the added bottom |
| EmuObject.EmuState.CloneState | src/emulate.c:325-337 | the clone keeps the accessed part of the stack and remembers its parent |
| SavedState.RestoreExact | src/emulate.c:325-378 | restoring a saved state recovers registers, flags, call stack and every stack byte ever written |
| SavedState.CloneRefines | src/emulate.c:325-337 | a clone describes exactly the machines its original describes |
| SavedState.CopyRefines | src/emulate.c:272-322 | so does a copy |
| SavedState.RefinesRel | src/emulate.c:341-358 | a refined state may stand for the finer one: the relation carries over |
| SavedState.EqualRefines | src/emulate.c:184-269 | states found equal: what the compared one describes the saved one describes, whatever the stack sizes |
| SavedState.EqualDescribesSame | src/emulate.c:184-269 | states found equal that describe one common pair of machines describe the same pairs exactly if the bottom only one of them has is dead, where the comparison also accepts an unknown one |
| SavedState.EqualSymmetric | src/emulate.c:184-269 | the comparison is symmetric |
| Engine.Rewriter.IsEqual | src/emulate.c:215-269 | the comparison in place, with its loops, is the specified one |
| Engine.Rewriter.SaveEmuState | src/emulate.c:341-371 | an equal saved state is reused, else a clone is appended while there is room; the result stands for the live state |
| Engine.Rewriter.RestoreEmuState | src/emulate.c:373-378 | the live state becomes the copy of the saved one at the size of the live stack, which refines it |
| Engine.Rewriter.GetCaptureBB | src/emulate.c:587-639 | the block with a key, appended once if there is none and room; keys stay unique |
| Engine.Rewriter.PushCaptureBB | src/emulate.c:659-673 | pushes or reports a full stack |
| Engine.Rewriter.PopCaptureBB | src/emulate.c:675-683 | takes the current block off the stack and gives it its end |
| Engine.Rewriter.Capture | src/emulate.c:704-723 | captured instructions extend the slice of the current block at its end |
| Engine.Rewriter.StepInBlock | src/engine.c:291-320 | one emulated instruction keeps the invariant and moves to the specified state and next address |
| Engine.Rewriter.CaptureJcc | src/emulate.c:1815-1854 | an unknown jump closes the block with both successors, saves the state once, and puts the successor reached backwards on top; the invariant holds |
| Engine.Rewriter.FinishReturn | src/engine.c:322-331 | a return closes the block; the invariant holds |
| Engine.Rewriter.OpenNext | src/engine.c:256-289 | finished blocks are dropped, the next open one starts in its restored state; without one everything is captured |
| Engine.Rewriter.Begin | src/engine.c:195-252 | the first block is that of the function in the state with its parameters loaded |
| Engine.Rewriter.EmulateAndCapture | src/engine.c:181-335 | on success the invariant holds for a complete set of blocks rooted at the function |
| Ledger.WorklistClosed | src/engine.c:256-333 | on success every block ends in a return or a jump to two blocks of the table at the right addresses with a common saved state; keys are unique and slices disjoint |
| Ledger.RestoredLater | src/emulate.c:325-378 | a state saved in a set of blocks and restored after any further emulation recovers registers, flags, call stack and every stack byte ever written |
| Ledger.BranchCloses | src/emulate.c:1826-1848 | closing a block by a jump keeps the invariant of all blocks |
| Ledger.ReturnCloses | src/engine.c:322-331 | closing a block by a return keeps it |
| Ledger.OpensNext | src/engine.c:256-275 | starting an open block from its saved state keeps it |
| Ledger.StepKeeps | src/engine.c:291-320 | capturing one more instruction keeps it |
| Specialise.TrailSim | src/engine.c:291-320 | along the instructions of a block the captured code keeps up with the original program |
| Specialise.ReturnSim | src/emulate.c:1666-1682 | at a return the caller sees the same stack pointer, preserved registers and memory, and the same result if there is one |
| Specialise.BlockSim | src/engine.c:256-333 | one captured block does what the original does and reaches the same successor, with the relation of that successor's start |
| Specialise.EntryRel | src/engine.c:195-224 | the entry state describes every machine that has the configured parameters |
| Specialise.Forward | src/engine.c:181-335 | if the original returns, so does the captured graph, with the same outcome |
| Specialise.Backward | src/engine.c:181-335 | if the captured graph returns, so does the original, with the same outcome |
| Specialise.Specialised | src/engine.c:181-335 | whole-run specialisation, in both directions, for every call with the configured parameters |
| ModRM.RoundTrip | src/generate.c:108-257 | parsing the bytes of any operand and digit gives them back and consumes exactly these bytes, in front of anything |
| ModRM.EncodeInjective | src/generate.c:108-257 | different operands or digits differ in bytes or REX bits |
| ModRM.CanonSame | src/decode.c:354-360 | forgetting the index field of an operand without index keeps its value and what is stored through it |
| Contexts.GContext.CalcModRMDigit | src/generate.c:108-257 | operand bytes, REX bits and the empty REX of SPL to DIL are filled in, or the generator stops, exactly as specified |
| Contexts.GContext.CalcModRM | src/generate.c:262-284 | the same with a register in the middle field |
| Contexts.GContext.GenPrefix | src/generate.c:289-341 | 0x66, 0xF2 or 0xF3 in front of REX, or the short or long VEX prefix with the REX bits inverted in it |
| Contexts.GContext.GenModRM | src/generate.c:371-387 | prefixes, opcode, operand bytes and immediate in order, with 0x66 for 16-bit operands |
| Contexts.GContext.GenDigitRM | src/generate.c:390-402 | the same with a sub-opcode |
| Contexts.GContext.GenVector | src/generate.c:1709-1757 | the vector additions, with the operand size implied; with VEX the leading opcode byte is left out |
| Contexts.GContext.GenerateArith | src/generate.c:845-1706 | encoding choice for ADD and AND at 8 to 64 bits, and for OR, SUB, XOR and CMP at 32 and 64 |
| Contexts.GContext.GenerateMov | src/generate.c:697-791 | encoding choice for MOV at 32 and 64 bits |
| Contexts.GContext.GenerateImul | src/generate.c:1148-1199 | encoding choice for IMUL |
| Contexts.GContext.GenerateInstr | src/generate.c:1827-1930 | the bytes of an instruction, or unsupported operands |
| Contexts.GenerateBlock | src/generate.c:1790-1987 | all instructions in order, or the first one without encoding |
| Contexts.DContext.DecodePrefixes | src/decode.c:463-513 | the REX and mandatory prefixes in any order, or a VEX prefix, and the offset of the opcode |
| Contexts.DContext.DecodeVexPrefix | src/decode.c:422-457 | both VEX forms, whose bits are kept like those of REX |
| Contexts.DContext.ParseModRM | src/decode.c:222-369 | the parsed operand and register, and the new offset |
| Contexts.DContext.ProcessOpc | src/decode.c:749-806 | the instruction with operand bytes that an opcode stands for, at the operand size its prefixes give |
| Contexts.DContext.ProcessVex | src/decode.c:849-870 | vector additions with a second source from the prefix |
| Contexts.DContext.DecodeInstr | src/decode.c:2507-2532 | the instruction at the offset |
| Contexts.DContext.DecodeBB | src/decode.c:2477-2548 | all instructions up to the first return, with addresses and lengths |
| Codec.NarrowKeeps | src/generate.c:523-571 | at every operand size narrowing an immediate is undone by sign extension |
| Codec.FullValue | src/decode.c:883-924 | sign extension to 32 or 64 bits keeps the value of an immediate |
| Codec.InstrRoundTrip | src/generate.c:1827-1930 | at 8 to 64 bits and for the vector additions, decoding the bytes of an instruction gives its normal form, its size and its length, in front of anything |
| Codec.AvxRoundTrip | src/decode.c:849-870 | a vector addition with VEX prefix comes back with vector length, second source, mandatory prefix and operands |
| Codec.NamesKept | src/generate.c:126-150 | a decoded byte operation names the same registers exactly unless one of AH to BH stands beside a register numbered eight or more |
| Codec.HighLost | src/generate.c:126-150 | an addition to AH that is decoded as one to SPL |
| Codec.ShortEnough | src/generate.c:1937 | every instruction takes less than 15 bytes, hints take none |
| Codec.NormMeans | src/generate.c:760-780 | the normal form does what the instruction does; clearing a register by exclusive or sets the flags in addition |
| BlockCodec.BlockDecodes | src/decode.c:2477-2548 | decoding the bytes of any code with a return gives its instructions up to the first one, with the recorded addresses and lengths |
| BlockCodec.BlockRoundTrip | src/generate.c:1790-1987 | decoding the bytes of a block that ends in RET gives its instructions with the recorded addresses and lengths |
| BlockCodec.ListingCovers | src/generate.c:1951-1964 | recorded addresses are consecutive and the lengths add up to the size of the block |
| Vex.VexRoundTrip | src/generate.c:307-340 | reading a VEX prefix undoes writing it, in the short and in the long form, with the code's own convention for W |
| Layout.ShortJumpFits | src/engine.c:501-535 | a jump chosen short by its distance in pass 1 has a final displacement of one byte, in both directions, for every order and all sizes |
| Layout.Shrinks | src/engine.c:473-511 | blocks only move down and closer together |
| Layout.ClosedHasPath | src/engine.c:449-474 | a set of blocks closed under successors that has the first block has every reachable block |
| Layout.EmitKeeps | src/engine.c:449-474 | emitting the block on the stack keeps emitted code in place and every open successor on the stack |
| Layout.PatchKeeps | src/engine.c:523-591 | patching the jumps of a block touches no block and no other jump |
| Layout.PatchedLinks | src/engine.c:523-591 | decoded from the bytes, control behind a block reaches both successors at their final addresses |
| Generation.Generator.constructor | src/buffers.c:29-58 | storage is rounded up to whole pages |
| Generation.Generator.Emit | src/generate.c:1790-1987 | pass 1 for a block: its bytes at the end of the used storage, nothing else changed |
| Generation.Generator.CopyDown | src/engine.c:492-500 | the overlapping forward copy moves the bytes and changes nothing else |
| Generation.CopyKeeps | src/engine.c:485-511 | moving a block clobbers no moved block and no block still to be moved |
| Generation.Generator.EmitAll | src/engine.c:446-474 | every reachable block is emitted exactly once |
| Generation.Generator.Compact | src/engine.c:476-511 | all blocks have their final places |
| Generation.Generator.Patch | src/engine.c:521-591 | all jumps are written |
| Generation.Generator.GenerateBinary | src/engine.c:424-605 | every reachable block lies in the buffer unchanged, linked to its successors, at or below its first place; the code is aligned and its size is what is used |
| EndToEnd.RunsCode | src/generate.c:1790-1987 | executing the bytes of captured code does what the code does, flags included where they survive |
| EndToEnd.BytesFollow | src/engine.c:424-605 | after any number of blocks the bytes are where the captured graph is |
| EndToEnd.BytesReturn | src/engine.c:424-605 | the bytes return exactly if the captured graph does |
| EndToEnd.Rewritten | src/engine.c:181-335 | the bytes of the rewritten function are the original function specialised, in both directions |
| EndToEnd.RewrittenAlways | src/engine.c:181-605 | the same for all calls at once: blocks of a complete emulation, laid out in memory, are the function specialised |
| Rewrite.RewriteFunction | src/engine.c:181-605 | from code and parameters to bytes: emulation, encoding and layout in sequence, and if no clearing decides a jump, every configured call that meets the conditions returns from the bytes exactly if it returns from the function, with the same outcome |
| Example.LargerCaptured | src/engine.c:181-335 | the blocks captured of a function with a jump of unknown direction are those of a complete emulation |
| Example.LargerAdmitted | src/engine.c:181-335 | every configured call of it meets all conditions of the theorems |
| Example.LargerOfSeven | src/engine.c:181-605 | its eighteen rewritten bytes return the larger of any argument and the fixed seven |
| Cfg.SameEnd | llvm/src/lldecoder.c:160-177 | two runs of plain instructions with the same last instruction: one is the end of the other |
| Cfg.SplitKeeps | llvm/src/llbasicblock.c:382-415 | splitting a block, finished or not, keeps the graph invariant |
| Cfg.AppendKeeps | llvm/src/lldecoder.c:152-155 | adding a block with a new end keeps it |
| Cfg.TruncateKeeps | llvm/src/lldecoder.c:160-176 | cutting a new block before a known one and linking it keeps it |
| Cfg.LinkKeeps | llvm/src/llbasicblock.c:335-348 | linking the end of a block keeps it, also when both links lead to one block |
| Cfg.SplitPreds | llvm/src/llbasicblock.c:396-411 | predecessor lists stay the multiset inverse of the links through a split |
| Cfg.GraphFaithful | llvm/src/lldecoder.c:136-209 | for all outcomes of branches, following the graph visits the instructions the program executes |
| CfgOnce.KeptOnce | llvm/src/lldecoder.c:160-176 | what is kept of a new run is in no known block exactly if no known block starts inside it |
| CfgOnce.HistoryCut | llvm/src/lldecoder.c:160-176 | cutting a block keeps that instructions are in one block each exactly as long as no address asked for is late: before all earlier ones of its run, of which there are two |
| CfgOnce.CrossingLate | llvm/src/lldecoder.c:102-104 | a program whose addresses are asked for in such an order, so that two blocks share an instruction |
| CfgDecoder.KnownEnd | llvm/src/lldecoder.c:160-176 | a block found from behind starts inside the new one, right behind what is kept of it |
| CfgDecoder.LLFunction.FindAddress | llvm/src/llbasicblock.c:314-321 | the first index of an address, or -1 |
| CfgDecoder.LLFunction.AddBranches | llvm/src/llbasicblock.c:262-349 | links and predecessor entries |
| CfgDecoder.LLFunction.AddBasicBlock | llvm/src/llfunction.c:468-494 | appends a block; the first one gets the entry as predecessor |
| CfgDecoder.LLFunction.SplitBlock | llvm/src/llbasicblock.c:382-415 | the split with its loops over all predecessor lists |
| CfgDecoder.LLFunction.Truncate | llvm/src/llbasicblock.c:361-366 | cuts the block and drops its links |
| CfgDecoder.LLFunction.DecodeDedup | llvm/src/lldecoder.c:136-209 | terminates, keeps the graph invariant with blocks unfinished in callers, returns a block at the address, and asks for addresses in the specified order |
| CfgDecoder.LLFunction.EndOf | llvm/src/lldecoder.c:189-204 | exactly the block whose last instruction is the end, however often it was split |
| CfgDecoder.DecodeFunction | llvm/src/lldecoder.c:223-243 | a complete graph that starts at the function; every instruction is in one block exactly if no address is asked for late |
| CfgDecoder.EntryFaithful | llvm/src/lldecoder.c:223-243 | from its first block the graph is faithful |
| LiftedFlags.OfSubExact | llvm/src/llflags.c:208-235 | the overflow formula of subtractions is exact at every width, as the intrinsic |
| LiftedFlags.OfAddExact | llvm/src/llflags.c:269-296 | the overflow formula of additions is exact at every width |
| LiftedFlags.CarryExact | llvm/src/llflags.c:310-315 | a sum carries exactly if it is below its first operand |
| LiftedFlags.OfImulExact | llvm/src/llflags.c:318-356 | the double-width comparison says exactly whether the signed product fits |
| LiftedFlags.OfImulWideExact | llvm/src/llflags.c:318-356 | so does the variant for a double-width result |
| FlagCache.AfSub | llvm/src/llflags.c:149-157 | the adjust flag is the borrow out of the low four bits |
| FlagCache.AfAdd | llvm/src/llflags.c:149-157 | the adjust flag is the carry out of the low four bits |
| FlagCache.ConditionsCompare | llvm/src/llflags.c:60-128 | after a comparison the conditions compare its operands, unsigned and signed, and their negations do the opposite |
| FlagCache.FlagRegister.SetPf | llvm/src/llflags.c:370-383 | parity of the low byte |
| FlagCache.FlagRegister.SetOfImul | llvm/src/llflags.c:318-356 | carry and overflow of a product, with and without intrinsics |
| FlagCache.FlagRegister.SetSub | llvm/src/llflags.c:398-412 | all flags of a difference, and a valid cache |
| FlagCache.FlagRegister.SetAdd | llvm/src/llflags.c:427-438 | all flags of a sum, and no cache |
| FlagCache.FlagRegister.SetBit | llvm/src/llflags.c:451-469 | flags of a bitwise operation, and no cache |
| FlagCache.FlagRegister.SetInc | llvm/src/llflags.c:482-494 | flags of a + 1 with the old carry, and no cache |
| FlagCache.FlagRegister.SetDec | llvm/src/llflags.c:508-520 | flags of a - 1 with the old carry, and no cache |
| FlagCache.FlagRegister.SetShift | llvm/src/llflags.c:523-558 | flags after shifts, carry and overflow undefined |
| FlagCache.FlagRegister.SetNeg | llvm/src/llinstruction-gp.c:141-164 | flags of 0 - a, and no cache |
| FlagCache.FlagRegister.SetImul | llvm/src/llinstruction-gp.c:238-310 | flags of a signed product, and no cache |
| FlagCache.FlagRegister.Invalidate | llvm/src/llflags.c:571-584 | undefined flags, and no cache |
| FlagCache.FlagRegister.Condition | llvm/src/llflags.c:60-128 | all 16 conditions: the answer from the cache is the answer from the flags |
| RegFile.WrittenReads | llvm/src/lloperand.c:224-253 | what is written through a name is read back; 32-bit writes clear the upper half, narrower ones keep all other bits |
| RegFile.RegisterFile.Get | llvm/src/llregfile.c:289-456 | a facet is the view of the 64-bit value and is cached |
| RegFile.RegisterFile.Set | llvm/src/llregfile.c:533-565 | stores a facet, clearing the others on request |
| RegFile.RegisterFile.Zero | llvm/src/llregfile.c:490-496 | zero in all facets |
| RegFile.RegisterFile.Rename | llvm/src/llregfile.c:511-519 | a copy with all facets |
| RegFile.RegisterFile.StoreGp | llvm/src/lloperand.c:224-265 | the new 64-bit value; all facets agree afterwards exactly if a write to a low legacy byte register stores the high byte's value |
| RegFile.RegisterFile.LoadGp | llvm/src/lloperand.c:90-105 | a read through a name gives its view of the 64-bit value |
| RegFile.LowByteConfused | llvm/src/lloperand.c:263-264 | a write to AL after which the facet of AH is wrong |
| Vectorize.KernelExpanded | src/vector.c:121-255 | lane k of the expanded kernel's result is the kernel's result on lane k, for an arbitrary addition |
| Vectorize.LaneStep | src/vector.c:121-177 | one expanded instruction keeps every lane |
| Vectorize.SecondSourceMatters | src/vector.c:144-165 | the pass is right on an accepted instruction exactly if the second source it ignores is expanded like the first |
| Vectorize.SecondSourceWrong | src/vector.c:144-165 | an instruction the pass accepts and gets wrong |
| Vectorize.Vectorizer.DoVec | src/vector.c:121-177 | the vector form of an instruction, an error, or a stop |
| Vectorize.Vectorizer.VecPass | src/vector.c:180-202 | expanded copies of all instructions of the block in new slots; it succeeds exactly if there is room and every instruction expands |
| Vectorize.Vectorizer.RunVectorization | src/vector.c:205-255 | tags for the request, expansion of the only block; it succeeds exactly without pointer argument, on an accepted block with room |

## Left out

- Specialised: does not hold without FaithfulBook and Safely, because the code departs from the processor where FaithfulBook says no, and relies on Safely itself; calls, pushes and pops are not in the fragment.
- StoreTracked: a stack address goes to a slot, and slots do not overlap for the whole run; places that overlap at different times are excluded.
- Rewritten: the conditions of Specialised, and that no clearing of a register decides a captured jump.
- SimStep: 64-bit operands only; 8-, 16- and 32-bit operations, CMOV, TEST, INC, DEC, NEG, shifts, IDIV, CQTO, LEAVE, PUSH, POP and CALL are not modelled.
- EmulateAndCapture: takes a bound on emulated instructions, because a known endless loop is emulated for ever; decoding is a map from addresses to instructions, and hooks at known targets and branches_known are not modelled.
- ProcessInstr: a store off the tracked stack does not write real memory while rewriting; what is read from it is a parameter.
- SameOutcome: the result is compared only where GivesResult holds, because without it the emulator has nothing in RAX or the caller does not read it; preserved registers have to be unknown to the emulator at the return; vector registers are not modelled.
- GenerateBinary: the first rewriting of a rewriter only (the order list starts empty); with 20 blocks the code writes its end mark behind the list, where the model reports an error; code of blocks is encoded before pass 1.
- InstrRoundTrip: only ADD, AND and TEST have 8- and 16-bit encodings in `src/generate.c`, and TEST is not modelled; segment overrides, RIP-relative operands and vector instructions other than additions are not modelled; of a 32-bit immediate only its 32 bits are, where `src/decode.c:885-891` leaves copies of the sign above them.
- Prefixes: a VEX prefix stands alone; behind other prefixes, where the code mixes their bits, nothing is decoded, and neither are segment overrides and jump hints.
- Decode: a product with an immediate is decoded with three operands; it is modelled where destination and first factor are the same register.
- DecodeFunction: code is complete (wherever control goes there is an instruction); decode errors and the naive variant are not modelled.
- SetShift: shifts by zero keep the flags on the processor; the lifter always sets them, and so does the model.
- Get: integer facets of general purpose registers; pointer and vector facets are not modelled.
- KernelExpanded: kernels with an argument in memory are not reached, because the code stops for them.
- Capture states of the parity flag, and JP and JNP.
- The parts of states that are compared only by size: contents of the emulated call stack.
- makeStatic, makeDynamic, calls into the vector API, and rewriting of called functions.
- LLVM itself, the lifting of instructions other than their flags and registers, and phi nodes.
- Error texts, printing, the opcode and name tables, memory mapping.
