# A verified model of ps2-unpacker

ps2-unpacker loads a packed PlayStation 2 executable, emulates it on an R5900 interpreter over 32 MB of tagged byte
memory until control enters memory the program itself has written (or it asks for ExecPS2), finds the block of written
memory around that entry point, and writes the block out as an executable. This project models that machine and proves
what it keeps, step by step and over whole runs.

## How the model is laid out

| module | models |
|---|---|
| `Words`, `Registers` | the host's integer types, shifts and bitwise operators over unbounded integers with the wrap-around written out; 128-bit registers and their lanes; instruction fields |
| `Memory` | memory.c: `Load` and `Store` say what an access of any width means, the class `TaggedMemory` performs it byte by byte in two arrays |
| `Alu`, `Mmi`, `RegisterCode` | the register-only handlers of Interpreter.c and all of MMI.c, entry by entry of the dispatch tables |
| `Interpreter` | fetch, loads, stores, branches, system calls, the opcode table, and the mutually recursive `ExecI` and `DoBranch`, as functions on machine states |
| `Emulator` | the same machine as an object whose methods change its fields and arrays in place, each proved equal to the functions of `Interpreter` |
| `Flat`, `Runs` | the recursion-free form of a step; invariants and the stop condition of whole runs |
| `Control`, `Transfers`, `Arithmetic` | what the single branches, jumps and system calls, plain loads and stores, and integer instructions do, by opcode, in terms of addresses, bytes and numbers |
| `Unaligned`, `Sim32`, `Accumulators`, `LeadingBits`, `FunnelShift`, `Lanes`, `Division` | laws of instruction sequences and of the 128-bit instructions |
| `Elf`, `Ranges`, `Unpacker` | the loader, the writer, the scans for the block to dump, and the whole program |

A step ends in `Ok`, in `Halted` (the emulator calls `exit`), or in `Undefined` (the C program does something the host
leaves undefined: it divides the smallest integer by -1, shifts by 64 or more, or looks up the tag of a branch target
beyond its arrays). `ExecI` and `Run` take the bytes that SQ stores from outside, because the code stores host memory
there. A run is observed for a given number of steps, since nothing makes the emulated program stop; every statement
about runs is for all of them.

## What the proofs found

- `-a` is documented to accept any alignment (README.md:69). The add, mask and subtract form rounds every address down
  exactly for the powers of two, and so it is with the low ends that the scans find (`Ranges.AlignmentMustBePow2`,
  `Ranges.RangesRoundedIff`; `Ranges.UnalignedDump` has a file that is not aligned).
- The scan for the upper end stops on the last written byte, and the dump ends before it, so that byte is lost unless
  it is zero (`Ranges.WholeBlockIffLastByteZero`, with a memory that loses it in `Ranges.LastByteLost`).
- A block without data does not keep the program from writing a file: rounding the low end down can bring in bytes
  below the block, which the packed program need not have written (`Ranges.RangeInOrderIff`; in `Ranges.StrayDump`, with
  the default alignment of 16, it wrote none of them).
- The file need not hold the address at which it starts: exactly when there is data at or below the aligned unit of the
  entry point and data from it on, it does (`Ranges.EntryInDumpIff`; in `Ranges.EntryOutside` the program begins with
  zeros).
- LWL with LWR is LWU: the word arrives zero-extended, which is what LW does only for words below 2^31
  (`Unaligned.LoadPairIsSignedLoadIff`; `Unaligned.LoadPairIsNotSignedLoad` has a program for which they differ).
- QFSRV is the shift its name promises for all register contents exactly when `sa` is 0, or `sa` is below 128 and not
  64, Rd is not Rs, and for shifts below 64 Rd is not Rt either (`FunnelShift.QfsrvShiftsIff`,
  `FunnelShift.QfsrvInstructionIff`); in a run `sa` is always 0 (`Runs.QfsrvCopies`).
- PMADDW and PMSUBW add to or subtract from the accumulator exactly when its low word is not negative or its high word
  is all ones (`Accumulators.PmaddwAddsIff`, `Accumulators.PmaddwMisreads`); PADDSx saturates only upward
  (`Lanes.SignedAddSaturatesIff`, `Lanes.SignedAddFails`).
- LWU, LWL, LWR, DIVU, the 64-bit sums and shifts, EndOfHeap and the mfc0 case keep the sign-extended form of registers
  exactly for the operands given by the `KeepsFormIff` lemmas of `Sim32`.

## Model

| member | source | states |
|---|---|---|
| Memory.TaggedMemory.constructor | memory.c:14-18 | initialised memory is all zero with no tag set |
| Memory.TaggedMemory.LoadSection | memory.c:20-23 | exactly the section's bytes change, no tag does |
| Memory.TaggedMemory.DumpSection | memory.c:25-28 | the section's bytes are returned |
| Memory.TaggedMemory.IsZero | memory.c:30-33 | whether the byte is zero |
| Memory.TaggedMemory.HasWrite | memory.c:95-98 | whether the byte is tagged written, by its bare index |
| Memory.TaggedMemory.Read8 | memory.c:35-56 | succeeds for the two windows only; one read tag is set |
| Memory.TaggedMemory.Write8 | memory.c:58-78 | succeeds for the two windows only; one byte and one write tag change |
| Memory.TaggedMemory.Read | memory.c:102-150 | byte-by-byte reading is one access to a contiguous slice, all or nothing |
| Memory.TaggedMemory.Write | memory.c:152-196 | byte-by-byte writing is one overwrite of a contiguous slice, all or nothing |
| Memory.WriteThenRead | memory.c:35-176 | a number written through one window and read at any overlap and width through any window gives the bytewise merge; all other bytes and write tags are framed |
| Memory.WindowRoundTrip | memory.c:37-47 | a number written through either window comes back from the other |
| Memory.Windows | memory.c:37-51 | which addresses are mapped, and to which bytes |
| Registers.RegisterFormat | R5900.h:163-167 | the fields of a word built from register-format fields are those |
| Registers.ImmediateFormat | R5900.h:165-172 | the fields of a word built with a signed 16-bit immediate are those |
| Flat.ExecIIsFlat | Interpreter.c:37-77 | recursive `execI` equals: chain of taken branches, one last instruction, one jump |
| Flat.DepthIsMaximal | Interpreter.c:66-69 | the chain is the one maximal chain of taken branches from pc |
| Flat.ArriveTwice | Interpreter.c:70-76 | a second pending return of `doBranch` changes nothing |
| Flat.TipFrame | Interpreter.c:37-77 | the chain sits at p, p+4, ...; it changes only read tags, link registers, cycle and the pending target |
| Flat.LastTargetIsLast | Interpreter.c:66-71 | the target finally jumped to is that of the last branch of the chain |
| Flat.DispatchFrame | Interpreter.c:260-300 | no handler touches cycle or the pending target; pc moves only for a likely branch not taken |
| Flat.StepSummary | Interpreter.c:37-77 | cycle rises by the chain's length plus one; final pc is the last target, p+4, or p+8 |
| Flat.StepIsBounded | Interpreter.c:37-54 | a step runs at most as many instructions as fit between pc and the end of its window; past it, the step halts |
| Control.ControlLaw | Interpreter.c:264-300 | which instructions leave the straight line, on which 64-bit contents, where to and with which link; an untaken one goes on or past its slot |
| Control.StepGoesTo | Interpreter.c:66-77 | a step with taken branches ends where the last of them goes: by a signed number of instructions, within the region, or to its register |
| Control.StepGoesOn | Interpreter.c:37-54 | a step without one goes on to the next instruction, or past the slot of a likely branch |
| Control.BranchToSelf | R5900.h:176 | a branch with offset -1 goes back to itself |
| Control.SystemCallLaw | Interpreter.c:603-642 | what each known system call does, and that all others end the emulator |
| Control.CoprocessorLaw | Interpreter.c:96-109 | the same for COP0 |
| Transfers.LoadLaw | Interpreter.c:307-366 | a plain load leaves its bytes as a little-endian number, extended by its opcode, and tags exactly them |
| Transfers.StoreLaw | Interpreter.c:469-488 | a plain store puts the low bytes of its register there, lowest first, and tags exactly them |
| Transfers.StoreThenLoad | Interpreter.c:307-488 | what a plain store stored, a plain load of its width brings back through either window, extended |
| Transfers.LoadIsTwoLoads | memory.c:102-129 | a wider unsigned load is two narrower ones |
| Transfers.QuadLoad | Interpreter.c:455-467 | LQ loads the two double words of the aligned 16 bytes |
| Transfers.QuadStore | Interpreter.c:572-578 | SQ changes and tags exactly the aligned 16 bytes |
| Arithmetic.WordSums | Interpreter.c:129-134 | ADD(U) and SUB(U) leave the sign-extended word congruent to sum or difference |
| Arithmetic.DoubleSums | Interpreter.c:131-136 | DADD(U) and DSUB(U) likewise modulo 2^64 |
| Arithmetic.ImmediateSums | Interpreter.c:115-118 | ADDI(U) and DADDI(U) with the signed field |
| Arithmetic.Logic | Interpreter.c:137-140 | AND, OR, XOR and NOR bit by bit |
| Arithmetic.ImmediateLogic | Interpreter.c:119-121 | ANDI, ORI and XORI bit by bit, the field zero-extended |
| Arithmetic.LoadUpper | Interpreter.c:215-218 | LUI puts the field above 16 zeros, sign-extended |
| Arithmetic.SetOnLess | Interpreter.c:141-142 | SLT and SLTU compare all 64 bits, signed and unsigned |
| Arithmetic.SetOnLessImmediate | Interpreter.c:122-123 | SLTI and SLTIU compare with the sign-extended field |
| Arithmetic.WordShifts | Interpreter.c:239-255 | the 32-bit shifts are products modulo 2^32 and quotients rounded down, sign-extended |
| Arithmetic.DoubleShifts | Interpreter.c:240-258 | the 64-bit shifts likewise |
| Arithmetic.ConditionalMoves | Interpreter.c:585-596 | MOVZ and MOVN test all 64 bits |
| Arithmetic.AccumulatorMoves | Interpreter.c:224-231 | what MTHI or MTLO puts in, MFHI or MFLO gives back, and nothing else moves |
| Runs.DispatchKeeps | InterTables.c:23-114 | every handler of every table keeps r0 zero, `sa` zero, unwritten bytes as loaded, and all tags |
| Runs.StepKeeps | Interpreter.c:37-77 | so does every step, with its nested delay slots |
| Runs.RunKeeps | ps2-unpacker.c:195-197 | so does every run: a byte not tagged written is still the loaded one |
| Runs.QfsrvCopies | MMI.c:1307-1315 | wherever a step of a run executes QFSRV, in delay slots too, it copies Rt |
| Runs.StepBounce | Interpreter.c:66-77 | exactly when a step sets `bounce_pc`, and to what |
| Runs.StopReason | ps2-unpacker.c:195-197 | a run stops, in its last step, only by branching into written memory or by ExecPS2 |
| Runs.NotYetEntered | Interpreter.c:70-76 | if the loop goes on after taken branches to a nonzero target, the byte there is untagged and still the loaded one |
| Unaligned.StoreTables | Interpreter.c:490-559 | the mask and shift tables of the partial stores are byte masks and byte shifts |
| Unaligned.LoadTables | Interpreter.c:368-442 | likewise those of the partial loads |
| Unaligned.StoreLeftEffect | Interpreter.c:490-510 | SWL (and SDL, 542-555) writes the upper bytes of the register up to the addressed byte and tags the unit |
| Unaligned.StoreRightEffect | Interpreter.c:512-533 | SWR (and SDR, 557-570) writes the lower bytes from the addressed byte on |
| Unaligned.StorePairIsStore | Interpreter.c:483-570 | SWL/SWR and SDL/SDR in either order are SW or SD at any address, mapped or not; tags grow by exactly the aligned units reached |
| Unaligned.LoadLeftEffect | Interpreter.c:368-389 | LWL (and LDL, 425-438) fills the upper end of the register from the unit |
| Unaligned.LoadRightEffect | Interpreter.c:391-412 | LWR (and LDR, 440-453) fills the lower end |
| Unaligned.LoadPairIsLoad | Interpreter.c:358-453 | LWL/LWR in either order are LWU, LDL/LDR are LD, at any address; the upper double word stays; whole units are tagged read |
| Unaligned.LoadPairIsSignedLoadIff | Interpreter.c:346-412 | LWL/LWR leave the registers that LW leaves exactly if the word is below 2^31 |
| Unaligned.LoadPairIsNotSignedLoad | Interpreter.c:346-412 | a program for which the pair and LW differ |
| Unaligned.StoredComesBack | Interpreter.c:371-570 | what a store pair stored, the matching load pair returns |
| Sim32.BitwiseSx | Interpreter.c:119-140 | 64-bit and, or, xor of sign-extended words are the sign-extended 32-bit results |
| Sim32.SimImmediate | Interpreter.c:115-123 | immediate arithmetic does on the low words what a 32-bit machine does and keeps registers sign-extended |
| Sim32.SimSpecial | Interpreter.c:129-255 | the same for register arithmetic, shifts, MULT(U), DIV, moves and conditional moves |
| Sim32.SimMultimedia | MMI.c:64-86 | the same for MADD and MADDU |
| Sim32.SimCompares | Interpreter.c:264-296 | every 64-bit branch condition decides as the 32-bit one |
| Sim32.SimRegimm | Interpreter.c:273-300 | the same for the REGIMM branches with their links |
| Sim32.SimLoad | Interpreter.c:307-356 | LB to LW load what the 32-bit machine loads |
| Sim32.SimStore | Interpreter.c:469-578 | all stores, SQ and the 64-bit ones too, store what it stores |
| Sim32.SimDispatch | InterTables.c:23-54 | one instruction of the emulator is one of the 32-bit machine |
| Sim32.SimStep | Interpreter.c:37-77 | so is one step with all nested delay slots |
| Sim32.SimRun | ps2-unpacker.c:195-197 | whole runs of a program within the 32-bit instructions are runs of the 32-bit machine |
| Sim32.SimProgram | ps2-unpacker.c:183-197 | the machine as it is booted is in that form, so this holds for every loaded program |
| Sim32.LwuKeepsFormIff | Interpreter.c:358-366 | LWU keeps registers sign-extended only for words below 2^31 |
| Sim32.LwlKeepsFormIff | Interpreter.c:371-389 | LWL does exactly if the byte at its address is below 128 |
| Sim32.LwrKeepsFormIff | Interpreter.c:394-412 | LWR does exactly if the top byte, of memory at an aligned address, else of the register, is below 128 |
| Sim32.DivuKeepsFormIff | Interpreter.c:184-189 | DIVU keeps the form exactly if the divisor is zero, the dividend is below 2^31, or the divisor is neither 1 nor above the dividend |
| Sim32.DoubleSumKeepsFormIff | Interpreter.c:131-136 | DADD(U) and DSUB(U) keep it exactly if the sum or difference of the words is a word |
| Sim32.DoubleImmediateKeepsFormIff | Interpreter.c:117-118 | DADDI(U) keeps it exactly if the sum of word and immediate is a word |
| Sim32.DoubleShiftKeepsFormIff | Interpreter.c:240-262 | DSRA always keeps it; DSRL exactly if the amount is 0 or above 32 or the word is not negative; DSLL exactly if the shifted word fits, or from 32 on if all of it is shifted out |
| Sim32.EndOfHeapKeepsFormIff | Interpreter.c:628-631 | EndOfHeap keeps it exactly if v0 was not negative |
| Sim32.Mfc0KeepsFormIff | Interpreter.c:98-100 | the mfc0 case keeps it exactly if s0 was not negative |
| Accumulators.Accumulation | MMI.c:64-180 | one MULT, MULTU, MADD or MADDU of either pair, or PMADDUW (1716-1732), updates each accumulator it feeds modulo 2^64 and no other |
| Accumulators.ProductRegisters | MMI.c:64-180 | what the eight scalar ones leave for any Rd: sign-extended halves of HI and LO, Rd as LO, and nothing else changed |
| Accumulators.UpperMoves | MMI.c:135-157 | what MTHI1 or MTLO1 puts in, MFHI1 or MFLO1 gives back, and nothing else moves |
| Accumulators.LaneSums | MMI.c:64-180 | any interleaving of these nine instructions leaves each pair at its initial value plus the sum of its own products modulo 2^64 |
| Accumulators.LaneRestarts | Interpreter.c:191-209 | after its last MULT a pair holds that product plus the sum of its later ones |
| Accumulators.PmadduwAddsToBoth | MMI.c:1716-1732 | PMADDUW adds to both accumulators and writes both full sums to Rd |
| Accumulators.PmaddwAddsIff | MMI.c:1334-1388 | exactly when PMADDW and PMSUBW add the product to the accumulator, or subtract it; Rd receives what the pair does |
| Accumulators.PmaddwMisreads | MMI.c:1334-1358 | registers for which PMADDW of zeros changes the accumulator |
| LeadingBits.PlzIsLargestShift | MMI.c:88-97 | the count is the largest n up to 31 by which the signed word can be multiplied by 2^n within 32 bits |
| LeadingBits.PlzOfComplement | MMI.c:88-97 | a word and its complement have the same count |
| LeadingBits.ShiftByPlz | Interpreter.c:253 | SLLV by the count keeps the sign, does not overflow, and normalises |
| LeadingBits.PlzcwLanes | MMI.c:99-109 | both low words are counted, the upper double word stays |
| LeadingBits.PlzcwThenSllv | MMI.c:88-109 | PLZCW followed by SLLV multiplies the signed word by 2^count |
| FunnelShift.QfsrvShifts | MMI.c:1307-1328 | with Rd apart from its sources QFSRV is the low 128 bits of Rs:Rt shifted right, for every defined shift |
| FunnelShift.QfsrvInstruction | MMI.c:1307-1328 | for each such `sa` and Rd the instruction writes the shift to Rd and nothing else |
| FunnelShift.QfsrvLosesBits | MMI.c:1317-1325 | for every other use of Rd there are contents for which a bit is lost |
| FunnelShift.QfsrvShiftsIff | MMI.c:1307-1328 | exactly for which `sa` and which aliasing of Rd QFSRV is the shift for all contents |
| FunnelShift.QfsrvInstructionIff | MMI.c:1307-1328 | the same for the instruction, over all register files with r0 zero |
| Lanes.PackUndoesInterleave | MMI.c:647-767 | PPACx of PEXTUx and PEXTLx gives Rt back, for bytes (839-897, 1280-1305), half words and words (1129-1142, 1194-1212), with every aliasing that leaves Rt and the first result to the second interleave |
| Lanes.PackUndoesInterleaveLowerFirst | MMI.c:647-767 | the same with PEXTLx before PEXTUx |
| Lanes.InterleaveInstruction | MMI.c:647-659 | lane by lane: PEXTLx and PEXTUx put Rt in the even lanes and Rs in the odd ones |
| Lanes.PackInstruction | MMI.c:661-675 | lane by lane: PPACx collects the even lanes of Rt below those of Rs |
| Lanes.PermutationsKeepHalves | MMI.c:1596-1630 | no sequence of PEXEH, PREVH, PEXEW, PROT3W, PEXCH, PEXCW loses or duplicates a half word |
| Lanes.Involution | MMI.c:1835-1883 | each of them but PROT3W is its own inverse |
| Lanes.RotationCube | MMI.c:1698-1710 | PROT3W three times is the identity |
| Lanes.PermutationsCanBeUndone | MMI.c:1684-1710 | every sequence of them can be undone |
| Lanes.PermutationProgram | MMI.c:1596-1710 | a program of these instructions on one register performs that sequence |
| Lanes.PixelRoundTrip | MMI.c:899-933 | PEXT5 then PPAC5 keeps the four packed pixels of a register |
| Lanes.SpreadRoundTripIff | MMI.c:899-933 | PPAC5 then PEXT5 gives back exactly the words that hold nothing but a spread pixel |
| Lanes.AccumulatorMovesRoundTrip | MMI.c:206-280 | PMFHL.LW collects what PMTHL spread |
| Lanes.AddSubtractIsMinimum | MMI.c:1088-1278 | PADDUx then PSUBUx leaves the lane-wise minimum of one operand and the complement of the other, for words, half words and bytes |
| Lanes.SubtractAddIsMaximum | MMI.c:1088-1278 | PSUBUx then PADDUx leaves the lane-wise maximum |
| Lanes.SignedAddSaturatesIff | MMI.c:601-784 | a lane of PADDSx on registers saturates correctly exactly when its sum is not below the range |
| Lanes.SignedAddFails | MMI.c:601-784 | for each lane size, registers for which PADDSx leaves zero instead of the least number |
| Division.DivResult | Interpreter.c:177-182 | DIV leaves quotient and remainder that rebuild the dividend, with a remainder smaller than the divisor and of the dividend's sign |
| Division.SignedDivResult | Interpreter.c:177-182 | the same for DIV and DIV1 (MMI.c:182-188), with all they leave alone, division by zero, and exactly when the host traps |
| Division.UnsignedDivResult | Interpreter.c:184-189 | DIVU and DIVU1 (MMI.c:190-196) leave the quotient in LO and the remainder in HI; by zero nothing changes |
| Division.DivisionReconstructs | Interpreter.c:177-225 | DIV, MFLO, MFHI, MULT, ADDU recover the dividend |
| Elf.HeaderFields | ps2-unpacker.c:30-47 | the loader's fields of a written file header |
| Elf.ProgramHeaderFields | ps2-unpacker.c:49-59 | the loader's fields of a written program header |
| Elf.LoadedImage | ps2-unpacker.c:155-181 | exactly which files load, by their bytes; each byte of memory is then that of the last segment that holds its address, header k lying at phoff + k * phentsize, else the old one |
| Elf.SegmentsRoundTrip | ps2-unpacker.c:159-174 | any number of segments written behind a file header are loaded, each byte from the last one that holds it, exactly if they all fit |
| Elf.EmitsExecutable | ps2-unpacker.c:229-277 | every byte of the written file: a MIPS executable with one segment |
| Elf.EmittedFileLoads | ps2-unpacker.c:159-174 | the loader reads the written file (231-277) back: exactly its data at lo, and its entry point |
| Ranges.ScanDownFinds | ps2-unpacker.c:204-205 | the scan returns exactly if there is an untagged byte below, and finds the start of the written block |
| Ranges.SkipUpFinds | ps2-unpacker.c:206-207 | the scan over zeros finds the next data byte, if there is one |
| Ranges.ScanUpFinds | ps2-unpacker.c:216-217 | the upper tag scan finds the last byte of the written block |
| Ranges.SkipDownFinds | ps2-unpacker.c:218-219 | the upper zero scan finds the last data byte below |
| Ranges.AlignDownRounds | ps2-unpacker.c:208-212 | for a power of two the low end is rounded down, even when the addition wraps |
| Ranges.AlignDownFails | ps2-unpacker.c:208-212 | for any other alignment there is a smaller address that is left as it is |
| Ranges.AlignmentMustBePow2 | ps2-unpacker.c:208-212 | rounding down for every address holds exactly for powers of two |
| Ranges.UnalignedDump | ps2-unpacker.c:203-220 | for any other alignment up to half of memory there is a memory whose file is written and not aligned |
| Ranges.RangesRoundedIff | ps2-unpacker.c:203-212 | the low end found is the first data byte's address rounded down, in every memory, exactly for powers of two |
| Ranges.RangeLaw | ps2-unpacker.c:203-220 | the range is aligned, ends with data, contains every data byte of the block, and starts less than one alignment below the first |
| Ranges.RangeInOrderIff | ps2-unpacker.c:203-220 | exactly when the ends are in order, and when a file can be written: the block has data, or rounding down reaches a nonzero byte below it |
| Ranges.StrayDump | ps2-unpacker.c:203-220 | a memory without data in the block for which a file of unwritten bytes is emitted |
| Ranges.DumpLoads | ps2-unpacker.c:201-277 | for any alignment the file is an executable that, loaded again, puts exactly its range of memory where it was |
| Ranges.DumpReloads | ps2-unpacker.c:201-277 | every dump, loaded again into zeroed memory, agrees with emulated memory on the block and starts at `bounce_pc`; if the block has data there is one |
| Ranges.WholeBlockIffLastByteZero | ps2-unpacker.c:215-220 | a dump loaded again agrees on the whole block, its last byte included, exactly if that byte is zero |
| Ranges.LastByteLost | ps2-unpacker.c:215-220 | a memory whose dump loses the last byte |
| Ranges.EntryInDumpIff | ps2-unpacker.c:203-220 | exactly when the dump holds the entry point |
| Ranges.EntryOutside | ps2-unpacker.c:203-277 | a memory whose file does not hold the address at which it starts |
| Emulator.Cpu.constructor | ps2-unpacker.c:177-182 | a cleared register file and the entry point |
| Emulator.Cpu.MultiplyAdd | MMI.c:64-133 | MADD, MADDU and their "1" forms |
| Emulator.Cpu.CountSignBits | MMI.c:88-97 | the counting loop of PLZCW |
| Emulator.Cpu.Plzcw | MMI.c:99-109 | PLZCW, lane after lane, with Rd possibly Rs |
| Emulator.Cpu.Qfsrv | MMI.c:1307-1328 | QFSRV assignment by assignment, with aliasing |
| Emulator.Cpu.Pmadduw | MMI.c:1716-1732 | PMADDUW lane after lane, with aliasing |
| Emulator.Cpu.Multimedia | InterTables.c:55-114 | the MMI tables |
| Emulator.Cpu.Multiply | Interpreter.c:191-209 | MULT and MULTU |
| Emulator.Cpu.Divide | Interpreter.c:177-182 | DIV |
| Emulator.Cpu.Load | Interpreter.c:307-467 | all loads |
| Emulator.Cpu.Store | Interpreter.c:469-578 | all stores |
| Emulator.Cpu.BranchIf | Interpreter.c:264-291 | the branch macros, likely or not |
| Emulator.Cpu.RegimmHandler | InterTables.c:48-53 | the REGIMM table, link before condition |
| Emulator.Cpu.SpecialHandler | InterTables.c:36-46 | the SPECIAL table |
| Emulator.Cpu.SystemCall | Interpreter.c:603-642 | the system calls |
| Emulator.Cpu.Coprocessor | Interpreter.c:96-109 | the three known COP0 instructions |
| Emulator.Cpu.DispatchOpcode | InterTables.c:23-33 | the opcode table |
| Emulator.Cpu.Execute | Interpreter.c:37-54 | `execI` in place equals the step function |
| Emulator.Cpu.DoBranch | Interpreter.c:66-77 | `doBranch` in place, around the nested step |
| Unpacker.LoadProgram | ps2-unpacker.c:164-174 | the segment loop |
| Unpacker.FindLow | ps2-unpacker.c:204-205 | the lower tag scan |
| Unpacker.SkipZerosUp | ps2-unpacker.c:206-207 | the lower zero scan |
| Unpacker.FindHigh | ps2-unpacker.c:216-217 | the upper tag scan |
| Unpacker.SkipZerosDown | ps2-unpacker.c:218-219 | the upper zero scan |
| Unpacker.WriteDump | ps2-unpacker.c:201-277 | scans, alignment, headers and data |
| Unpacker.RunAndDump | ps2-unpacker.c:195-280 | the emulation loop and the dump after it |
| Unpacker.Unpack | ps2-unpacker.c:139-283 | the whole program without options |
| Unpacker.UnpackEndToEnd | ps2-unpacker.c:139-283 | every output comes from a run that stopped in one of its two ways, and reloads to its range of that memory; for powers of two the block around the entry point was written by the program, and the output reloads to that block |

## Left out

- Both disassemblers, `dumpasm`, tracing, banners and messages: printing only. When a faulting address is reported,
  `dumpasm` reads memory around pc and can fault again, without end if pc itself is out of range; such a process dies
  of stack overflow instead of calling `exit`. The model has `Halted` for both.
- The options `-l`, `-i`, `-e`, `-r`, `-n` and `-t`, and reading and writing files: the input and the output are byte
  sequences.
- Fields no code reads again: the instruction word, `branch`, `branch2`, COP0 registers other than in the three known
  instructions, the arguments of RFU060 and RFU061, floating point, TLB, interrupts.
- The loader and the scans do not check bounds; where they would leave the file or the arrays the model gives
  `OutOfBounds` or `Undetermined` and says nothing about what the host does.
- The bytes that SQ stores: arbitrary, given from outside.
- Sim32.SimProgram: says nothing of a run after its first instruction outside the 32-bit machine: a 64-bit or 128-bit
  load, LWU, LWL, LWR, DIVU, 64-bit arithmetic or shift, EndOfHeap, mfc0, or a multimedia instruction other than MADD
  and MADDU. The `KeepsFormIff` lemmas say when these but the wide loads and the multimedia ones keep registers
  sign-extended; the second pair of accumulators and the upper double words are not part of a 32-bit machine.
- Emulator.Cpu.Assign: the immediate handlers, the SPECIAL handlers other than MULT, MULTU, DIV, JR, JALR, SYSCALL and
  BREAK, and the multimedia handlers other than those with a method of their own are assigned in one step from a
  function of the registers, the effect that the step function itself uses, instead of field by field or lane by lane;
  where a handler reads a register it is writing (PMADDH, PMSUBH, PMULTH, PHMADH, PHMSBH) the function follows the
  assignments in order.
- Unpacker.Unpack: the number of steps observed is bounded by the length of a parameter, since the loop need not end.
- PMFHL.SH, PMFHL.SLW, PSUBSx, PHMADH, PHMSBH, PMADDH, PMSUBH and PMULTH are modelled as coded; no law is stated for
  them beyond the invariants, as they do not compute what their names promise or do so only without aliasing.
- Plain lane-wise operations (PADDx, PCGTx, PMAXx, PAND and the like), the lane-wise multiplications, divisions and
  shifts, and PMFHL other than .LW: modelled, with no law of their own.
