# Verified model of the chiplet extension's executable specifications

This project models the reference models, bare-metal runtime and image tools of the chiplet extension
and proves what they promise. The centre is the RV32IM/Zicsr retirement checker `RV32ISS`: a second,
independently written machine (byte memory, a CSR record, integer immediates, truncating division) is
proved to accept exactly the traces that the checker accepts.

| Module | What it models |
|---|---|
| `Wrappers`, `Bits` | optional values; words as integers, Python's bitwise operators, bit fields, bytes |
| `Rv32m` | `rv32m_result` and what the M extension requires of it |
| `Isa`, `Machine` | the specification: decoder, arithmetic, hart, traces, epochs |
| `Checker` | `check_row` and `check` on values, branch for branch |
| `OperationValues`, `RowReports` | in numbers and bits: what the operations compute, what the checker reports and keeps |
| `RetirementChecker` | the class `RV32ISS`, updated in place, proved equal to `Checker` |
| `Refinement` | checker accepts if and only if the trace is a run of the hart |
| `RegisterColumns` | why the register columns of a row matter |
| `TraceTheorems` | determinism, changed, duplicated and dropped rows, interrupt handlers, alignment |
| `ReplacedRows`, `ChangedInstructions`, `MutationSuite` | the exact verdict on every mutation of the regression |
| `Witnesses` | accepted traces that show the exceptions of those results |
| `ByteMemory` | the word map of the checker as little-endian byte memory |
| `SoftArith` | the soft multiply/divide runtime |
| `Crc`, `CrcErrors` | the flit CRC: polynomial meaning, detected errors |
| `Timer` | 64-bit timer registers on a 32-bit bus, interleaved with an advancing clock |
| `Counters` | the mcycle/minstret replay and its closed form |
| `Text`, `Encoding`, `Assembler`, `Images` | text handling, encoders, assembler, hex writers and the loader |
| `Apb`, `Rvfi`, `Dma` | APB extraction, RVFI normalisation, the DMA golden model |

## What the main theorem says

`Refinement.CheckerRefinesIsa`: for every configuration and every list of rows, the checker finishes with
no mismatch and every row's `rs1_addr`/`rs2_addr` name the registers encoded in its instruction, if and
only if every epoch of the trace is a run of the hart from reset; and after an accepted trace (hence
after every prefix of one) registers, PC, memory and the CSRs other than `mip` and the counters agree.

The hart takes these columns as given, because the checker does: the instruction word, the `trap` and
`intr` flags, the interrupt levels, `mem_addr`, `mem_wdata`, the data of device loads and the value of a
sampled counter. Everything else is predicted: order, PC, next PC, operand and destination registers and
values, load and store masks, RAM load data, the CSR snapshot.

The register columns need their condition. The checker takes the operands from the columns, so a row
can be accepted whose columns name other registers; `RegisterColumns.ColumnIsTrusted` gives a family of
such rows and the exact condition under which each is a step of the hart. The core drives the columns from
the instruction (`base_soc/rtl/pd1_rv32/rv32_core.sv:277`), so its own traces meet it.

Below, an accepted trace is one that the hart accepts, which by this theorem is one that the checker accepts
and whose register columns name their registers. A member that needs no such columns says so.

Where the code differs from what a reader of the standards expects, the model follows the code:

- A store mask that selects a lane below the address offset makes Python shift by a negative count. The
  model's `raised` is that exception; a raised trace is not accepted.
- Misaligned loads and stores that do not trap are cut off at the end of their word, and a misaligned
  `lw` yields the whole aligned word.
- The trap and interrupt targets are taken from the row's own `mtvec`; a vector beyond 2^32 never matches.
- A write to `misa` is reported as a mismatch but still changes the checker's dictionary, so `misa` is
  constant only while no mismatch is recorded (`TraceTheorems.AcceptedStateRegular`).
- A trap row saves the PC as it is, so `mepc` is even but need not be a multiple of four; this is the one
  register for which skipping a set or clear with a zero operand differs from performing it
  (`TraceTheorems.SkippedWriteIsHarmless`).
- A falling order column is taken for a reset. Changing a predicted column is therefore not always
  reported: lowering the order of the last of three spinning rows to zero is accepted
  (`Witnesses.LoweredOrderAccepted`). `TraceTheorems.ChangedRowAccepted` gives the exact condition.
- Deleting the last row of an epoch goes unnoticed exactly when the reset after it is still visible
  (`TraceTheorems.DroppedRowAccepted`).
- The regression's mutations are not reported on every row they may be applied to.
  `MutationSuite.MutationVerdict` says, for every accepted trace, row and mutation, exactly when the mutant
  is accepted: a counter sample when no later row of the epoch reads the register before it is written
  again, device data when the load makes the same value of it, a mask on another kind of access, the
  destination of an interrupt row, and, without a manifest, an instruction that stands in for the original.

## Model

| member | source | states |
|---|---|---|
| Rv32m.SignedDivision | chiplet_extension/scripts/rv32_iss.py:40-55 | DIV and REM are the division rounded toward zero, with the two special cases; the pair satisfies dividend = q * divisor + r, the magnitude of r below that of the divisor, sign of r |
| Rv32m.TruncDivisionUnique | chiplet_extension/scripts/rv32_iss.py:49-54 | the three conditions on quotient and remainder determine both |
| Rv32m.UnsignedDivision | chiplet_extension/scripts/rv32_iss.py:47-55 | DIVU and REMU: a = q * b + r with r < b, all-ones and dividend for b = 0 |
| Rv32m.ProductHalves | chiplet_extension/scripts/rv32_iss.py:39-46 | MULH, MULHSU, MULHU and MUL are the two halves of the exact signed, mixed and unsigned 64-bit products |
| Checker.StatusOnTrap | chiplet_extension/scripts/rv32_iss.py:212-213 | the masks stack MIE into MPIE and clear MIE, leaving the other bits |
| Checker.StatusOnMret | chiplet_extension/scripts/rv32_iss.py:386-388 | the masks restore MIE from MPIE and set MPIE |
| Checker.StatusOnWrite | chiplet_extension/scripts/rv32_iss.py:412-412 | a write keeps bits 3 and 7 only and MPP stays machine mode |
| Checker.MieOnWrite | chiplet_extension/scripts/rv32_iss.py:413-413 | a write keeps bits 7 and 11 only |
| Checker.Legalized | chiplet_extension/scripts/rv32_iss.py:412-416 | every written value is one its CSR can hold |
| Checker.CheckRow | chiplet_extension/scripts/rv32_iss.py:146-439 | every row, reported or not, keeps x0 at zero, mstatus at 0x1800 plus a subset of 0x88, mie a subset of 0x880, mtvec mode 0 or 1 and the CSR dictionary's keys |
| Checker.Check | chiplet_extension/scripts/rv32_iss.py:441-446 | the same invariant after every trace |
| Checker.PutLaneBytes | chiplet_extension/scripts/rv32_iss.py:372-376 | clearing and setting one lane changes that byte and keeps the other three |
| OperationValues.RegisterOpValues | chiplet_extension/scripts/rv32_iss.py:331-345 | sums modulo 2^32, shifts as multiplication and floor division by powers of two, logic bit by bit |
| OperationValues.ImmediateOpValues | chiplet_extension/scripts/rv32_iss.py:318-330 | the same for the immediate operations, with the signed immediate or the shift amount |
| OperationValues.AluValues | chiplet_extension/scripts/rv32_iss.py:318-345 | the hart's operations have the same values |
| OperationValues.CombineValues | chiplet_extension/scripts/rv32_iss.py:403-408 | a set takes the union of the bits, a clear removes the operand's, in checker and hart |
| OperationValues.CsrNumbers | chiplet_extension/scripts/rv32_iss.py:391-402 | exactly thirteen CSR numbers can be read, and the four counters read as the sample |
| OperationValues.DictionaryKeys | chiplet_extension/scripts/rv32_iss.py:84-89 | the dictionary holds exactly those thirteen numbers |
| RowReports.LoadReported | chiplet_extension/scripts/rv32_iss.py:352-356 | a load's data is reported exactly outside 0x100 to 0x1FF and every inclusive external range, when it differs from the word in memory; a device's word is taken as it is |
| RowReports.StoreKept | chiplet_extension/scripts/rv32_iss.py:368-379 | a store leaves memory alone inside those addresses and outside them gives each selected lane its source byte |
| RowReports.WordKey | chiplet_extension/scripts/rv32_iss.py:98-102 | addresses in a range and below 0x8000 name their own word, others the word 0x8000 lower |
| RowReports.RowFollowed | chiplet_extension/scripts/rv32_iss.py:147-439 | after any row, reported or not: order, epoch and counts advance, the destination register holds the trace's value and the others stay, a trap or interrupt sets PC and mepc from the row |
| RowReports.CheckCounts | chiplet_extension/scripts/rv32_iss.py:441-446 | the counts returned are the numbers of rows, of traps that are not interrupts, and of interrupts |
| RowReports.CommonReported | chiplet_extension/scripts/rv32_iss.py:175-189 | the mismatches of every row, each exactly when its columns disagree |
| RowReports.ManifestReported | chiplet_extension/scripts/rv32_iss.py:177-182 | the manifest mismatches, exactly |
| RowReports.SnapshotReported | chiplet_extension/scripts/rv32_iss.py:132-144 | the snapshot mismatches, exactly |
| RowReports.InterruptReported | chiplet_extension/scripts/rv32_iss.py:191-208 | the mismatches of an interrupt row, with the vector offsets 44 and 28 |
| RowReports.TrapReported | chiplet_extension/scripts/rv32_iss.py:218-271 | the mismatches of a trap row, exactly |
| RowReports.RetiredReported | chiplet_extension/scripts/rv32_iss.py:424-433 | the mismatches of an executed row's outcome, exactly |
| RetirementChecker.RV32ISS.constructor | chiplet_extension/scripts/rv32_iss.py:67-92 | a new checker is in the initial state, with no mismatches |
| RetirementChecker.RV32ISS.Mismatch | chiplet_extension/scripts/rv32_iss.py:117-119 | a mismatch is appended while there are fewer than twenty, and dropped after |
| RetirementChecker.RV32ISS.ResetEpochNow | chiplet_extension/scripts/rv32_iss.py:121-130 | registers, memory, CSRs, order and PC return to reset; counts and mismatches stay |
| RetirementChecker.RV32ISS.ArriveAt | chiplet_extension/scripts/rv32_iss.py:147-157 | resets exactly at a new epoch or a falling order, and reports an order gap exactly when there is one |
| RetirementChecker.RV32ISS.CheckCsrSnapshot | chiplet_extension/scripts/rv32_iss.py:132-144 | reports exactly the snapshot columns that differ, three of them ignored on trap and interrupt rows |
| RetirementChecker.RV32ISS.CheckManifest | chiplet_extension/scripts/rv32_iss.py:177-182 | reports exactly a PC outside the manifest or an instruction that differs from it, and nothing on interrupt rows |
| RetirementChecker.RV32ISS.CheckCommon | chiplet_extension/scripts/rv32_iss.py:175-189 | reports exactly the faults of PC, manifest, snapshot and operand values |
| RetirementChecker.RV32ISS.CheckInterrupt | chiplet_extension/scripts/rv32_iss.py:191-217 | the whole new state after an interrupt row, and exactly its faults |
| RetirementChecker.RV32ISS.CheckTrap | chiplet_extension/scripts/rv32_iss.py:218-280 | the whole new state after a trap row, and exactly its faults |
| RetirementChecker.RV32ISS.CheckLoad | chiplet_extension/scripts/rv32_iss.py:346-363 | the expected load, and exactly its mask and source faults |
| RetirementChecker.RV32ISS.MergeLanes | chiplet_extension/scripts/rv32_iss.py:369-376 | the lane loop yields the merged word, or stops on the first lane below the offset |
| RetirementChecker.RV32ISS.CheckStore | chiplet_extension/scripts/rv32_iss.py:364-379 | memory after the store, unchanged for devices and exceptions, and exactly its mask fault |
| RetirementChecker.RV32ISS.ExpectRow | chiplet_extension/scripts/rv32_iss.py:299-422 | the branch of the opcode: what the row should show, with memory and CSRs already updated |
| RetirementChecker.RV32ISS.CheckRetired | chiplet_extension/scripts/rv32_iss.py:424-433 | reports exactly the faults of legality, next PC, destination index and destination value |
| RetirementChecker.RV32ISS.CheckExecuted | chiplet_extension/scripts/rv32_iss.py:282-439 | the whole new state after an executed row and exactly its faults, or the state in which the exception leaves the object |
| RetirementChecker.RV32ISS.CheckOneRow | chiplet_extension/scripts/rv32_iss.py:146-439 | the object after a row is the row function's state, with the capped mismatches appended |
| RetirementChecker.RV32ISS.CheckTrace | chiplet_extension/scripts/rv32_iss.py:441-446 | replaying a trace reports nothing exactly when the trace is a run of the hart, when columns name their registers |
| Refinement.AddImmIsImmI | chiplet_extension/scripts/rv32_iss.py:291-291 | the sign-extended field is the two's-complement immediate of the I format |
| Refinement.BranchImmIsImmB | chiplet_extension/scripts/rv32_iss.py:293-294 | shifting and or-ing the scattered fields, then extending, gives the signed B immediate |
| Refinement.JumpImmIsImmJ | chiplet_extension/scripts/rv32_iss.py:296-297 | the same for the J immediate |
| Refinement.ResultIsMultiply | chiplet_extension/scripts/rv32_iss.py:33-55 | all eight operations equal the M extension written with truncating division |
| Refinement.ComputeAgrees | chiplet_extension/scripts/rv32_iss.py:299-345 | for every word outside loads, stores and SYSTEM, the checker calls it legal exactly when it decodes, and computes what the hart executes |
| Refinement.LoadAgrees | chiplet_extension/scripts/rv32_iss.py:346-363 | an accepted load has the hart's mask, source and extended value |
| Refinement.StoreAgrees | chiplet_extension/scripts/rv32_iss.py:364-379 | an accepted store has the hart's mask and leaves the hart's bytes |
| Refinement.SystemAgrees | chiplet_extension/scripts/rv32_iss.py:382-420 | EBREAK, MRET, WFI and the CSR instructions: legality, value read, next PC and all CSRs agree |
| Refinement.InterruptAgrees | chiplet_extension/scripts/rv32_iss.py:191-217 | an interrupt row is quiet exactly when it is an interrupt step of the hart |
| Refinement.CauseAgrees | chiplet_extension/scripts/rv32_iss.py:224-266 | the cause and mtval expected of a trap row are those of the hart's cause analysis |
| Refinement.TrapAgrees | chiplet_extension/scripts/rv32_iss.py:218-280 | a trap row is quiet exactly when it is a trap step of the hart |
| Refinement.ExecutedAgrees | chiplet_extension/scripts/rv32_iss.py:282-439 | an executed row is quiet exactly when it is a step of the hart, and the states then agree |
| Refinement.RowRefines | chiplet_extension/scripts/rv32_iss.py:146-439 | for every row and agreeing states, no fault and properly named registers if and only if it is a step; agreement is kept |
| Refinement.ArriveAgrees | chiplet_extension/scripts/rv32_iss.py:147-157 | the checker resets exactly where the trace has an epoch boundary |
| Refinement.CheckerRefinesIsa | chiplet_extension/scripts/rv32_iss.py:146-446 | the checker accepts, with register columns naming the instruction's registers, if and only if every epoch is a run of the hart from reset; the final states agree |
| RegisterColumns.ColumnIsTrusted | chiplet_extension/scripts/rv32_iss.py:402-404 | a csrrwi row is accepted whatever its rs1 column names, and that number is what mscratch becomes; the hart takes it exactly when the columns are the instruction's |
| TraceTheorems.AcceptedIff | chiplet_extension/scripts/rv32_iss.py:441-446 | a trace is accepted exactly when each row is a step of the hart reached at it |
| TraceTheorems.InputsDetermineTrace | chiplet_extension/scripts/rv32_iss.py:146-439 | two accepted traces with the same given columns and resets agree on every predicted column, at every row |
| TraceTheorems.ChangedRowAccepted | chiplet_extension/scripts/rv32_iss.py:147-189 | replacing a row of an accepted trace by one with the same inputs and another prediction leaves it accepted if and only if the new row is a step where it stands and both rows end their epoch; it then fakes a reset or hides one |
| Witnesses.LoweredOrderAccepted | chiplet_extension/scripts/rv32_iss.py:149-155 | the input on which a changed prediction is accepted: three or more rows of jal x0, 0, the last one's order lowered to zero |
| TraceTheorems.DuplicateRejected | chiplet_extension/scripts/run_compiled_firmware.py:813-819 | duplicating any row gets it rejected |
| TraceTheorems.DroppedRowAccepted | chiplet_extension/scripts/run_compiled_firmware.py:820-825 | deleting a row leaves the trace accepted if and only if the row ends its epoch and the reset after it stays visible |
| TraceTheorems.CheckerCatchesMutations | chiplet_extension/scripts/run_compiled_firmware.py:781-826 | of the checker's own verdict: a changed prediction with properly named registers is accepted if and only if it moves a reset, a duplicate never, a dropped row if and only if it ends its epoch and the reset stays visible |
| ReplacedRows.StepIgnores | chiplet_extension/scripts/rv32_iss.py:184-189 | a row that does not read a register is a step of two harts that differ in it, and the difference lasts until the row writes it |
| ReplacedRows.StepSees | chiplet_extension/scripts/rv32_iss.py:184-189 | a row that reads the register is a step of only one of them |
| ReplacedRows.ReplacedRowAccepted | chiplet_extension/scripts/rv32_iss.py:146-439 | a replaced row that leaves another value in a register is accepted if and only if no later row of the epoch reads the register, up to and including the first that writes it |
| ChangedInstructions.OnlyCsrsDiffer | chiplet_extension/scripts/rv32_iss.py:282-439 | two instructions of one opcode that are both steps of the same row leave the same PC, registers and memory |
| ChangedInstructions.NextRowShows | chiplet_extension/scripts/rv32_iss.py:132-144 | the next row tells two harts apart by their CSRs unless it is a trap or interrupt that overwrites the ones that differ |
| ChangedInstructions.ChangedInstructionAccepted | chiplet_extension/scripts/rv32_iss.py:282-439 | replacing an instruction by another of its opcode is accepted if and only if the new row is a step and the CSRs it leaves are not told apart |
| MutationSuite.SampleVerdict | chiplet_extension/scripts/rv32_iss.py:396-402 | another counter sample is accepted if and only if no later row of the epoch reads the register, up to and including the first that writes it |
| MutationSuite.DeviceDataVerdict | chiplet_extension/scripts/rv32_iss.py:352-362 | other data from a device is accepted if and only if the load has no destination or the new data extends to the same value |
| MutationSuite.InstructionVerdict | chiplet_extension/scripts/rv32_iss.py:177-182 | the exact verdict on a changed instruction, with or without a manifest |
| MutationSuite.UnseenTraceAccepted | chiplet_extension/scripts/run_compiled_firmware.py:784-806 | masks on another kind of access, the data column of a row that is not a load and an interrupt row's destination can be mutated and the trace is still accepted |
| MutationSuite.MutationVerdict | chiplet_extension/scripts/run_compiled_firmware.py:784-812 | for every accepted trace, row and mutation of the regression: the mutant is accepted if and only if the mutation is one of those the checker cannot see |
| MutationSuite.MutationTouches | chiplet_extension/scripts/run_compiled_firmware.py:798-807 | each mutation changes one column only: bit 2, 0 or 12 of it, or its value |
| Witnesses.SampleMatters | chiplet_extension/scripts/run_compiled_firmware.py:799-799 | a sample that no row reads can be anything, one that the next row reads cannot |
| Witnesses.DeviceByteMatters | chiplet_extension/scripts/run_compiled_firmware.py:805-805 | flipping device data is reported exactly when the loaded byte changes |
| MutationSuite.InstructionReported | chiplet_extension/scripts/rv32_iss.py:177-182 | with a manifest, a changed instruction is always reported |
| MutationSuite.EpochReported | chiplet_extension/scripts/rv32_iss.py:149-155 | a row that claims a new epoch in mid-sequence is always reported |
| TraceTheorems.HandlerRowKeepsReturn | chiplet_extension/scripts/rv32_iss.py:282-420 | an executed row that is no MRET and writes neither mstatus nor mepc keeps the saved PC and MPIE |
| TraceTheorems.HandlerReturns | chiplet_extension/scripts/rv32_iss.py:191-217 | from an interrupt through a handler body of any length, MRET resumes at the interrupted PC and restores the earlier MIE |
| TraceTheorems.RunStaysAligned | chiplet_extension/scripts/rv32_iss.py:299-439 | PC and mepc are even and the vector base word-aligned throughout every run of the hart |
| TraceTheorems.AcceptedStateRegular | chiplet_extension/scripts/rv32_iss.py:146-446 | after every accepted trace the checker's misa is the configured constant and its expected PC and mepc are even, whatever the register columns name |
| TraceTheorems.SkippedWriteIsHarmless | chiplet_extension/scripts/rv32_iss.py:405-418 | skipping a zero-operand set or clear equals performing it, if and only if the register is not mepc or mepc is a multiple of four |
| ByteMemory.CheckerStore | chiplet_extension/scripts/rv32_iss.py:368-379 | an aligned store through the lane loop changes exactly its bytes, little-endian |
| ByteMemory.CheckerLoad | chiplet_extension/scripts/rv32_iss.py:354-362 | an aligned load is the extended little-endian value of its bytes |
| ByteMemory.ExtendMeaning | chiplet_extension/scripts/rv32_iss.py:16-22 | extension keeps the value, or its two's-complement value |
| ByteMemory.StoreThenLoad | chiplet_extension/scripts/rv32_iss.py:346-379 | loading what an aligned store wrote gives its low bytes |
| ByteMemory.RamAlias | chiplet_extension/scripts/rv32_iss.py:98-102 | with no ranges configured, x and x + 0x8000 name the same RAM word |
| SoftArith.Mulsi3 | chiplet_extension/firmware_c/rv32_runtime.c:19-28 | the wrapping shift-add loop returns what MUL returns |
| SoftArith.UnsignedDivmod | chiplet_extension/firmware_c/rv32_runtime.c:30-48 | restoring division with the lost carry returns what DIVU and REMU return, zero divisor included |
| SoftArith.DivStep | chiplet_extension/firmware_c/rv32_runtime.c:38-45 | one step keeps: dividend bits so far = q * divisor + rem with rem < divisor, although rem needs 33 bits |
| SoftArith.Udivsi3 | chiplet_extension/firmware_c/rv32_runtime.c:50-54 | equals DIVU |
| SoftArith.Umodsi3 | chiplet_extension/firmware_c/rv32_runtime.c:56-61 | equals REMU |
| SoftArith.Divsi3 | chiplet_extension/firmware_c/rv32_runtime.c:63-72 | equals DIV for all operands, division by zero and INT_MIN / -1 included |
| SoftArith.Modsi3 | chiplet_extension/firmware_c/rv32_runtime.c:74-83 | equals REM for all operands |
| Crc.FlitBitsValue | chiplet_extension/models/flit_crc_ref.c:13-15 | the 256 bits, read as one number, are the payload with word 0 least significant |
| Crc.Crc8Words | chiplet_extension/models/flit_crc_ref.c:9-25 | the nested loops return the remainder of 2^8 times that number by the generator over GF(2) |
| Crc.CrcIsRemainder | chiplet_extension/models/flit_crc_ref.c:13-22 | for bit strings of any length the register ends as M(x) * x^8 modulo x^8 + x^2 + x + 1 over GF(2) |
| Crc.RemainderUnique | chiplet_extension/models/flit_crc_ref.c:13-22 | there is only one such remainder below x^8 |
| CrcErrors.CrcLinear | chiplet_extension/models/flit_crc_ref.c:13-22 | the CRC of flipped bits is the exclusive or of the CRCs |
| CrcErrors.Undetected | chiplet_extension/models/flit_crc_ref.c:13-22 | flips go unnoticed exactly when their own CRC is zero |
| CrcErrors.OddFlipsDetected | chiplet_extension/models/flit_crc_ref.c:13-22 | the CRC has the payload's parity, so an odd number of flips is always noticed |
| CrcErrors.BurstDetected | chiplet_extension/models/flit_crc_ref.c:13-22 | any burst of at most eight bits is noticed |
| CrcErrors.TwoFlips | chiplet_extension/models/flit_crc_ref.c:13-22 | two flipped bits are missed if and only if their distance is a multiple of 127 |
| CrcErrors.ReceiverChecks | chiplet_extension/models/flit_crc_ref.c:13-22 | eight more bits bring the register to zero if and only if they are the CRC |
| Timer.TimerBus.TimerRead | chiplet_extension/firmware_c/firmware.h:130-133 | each access takes one bus slot and reads the quotient or remainder by 2^32 of what the clock shows in it |
| Timer.TimerBus.ReadMtime | chiplet_extension/firmware_c/firmware.h:135-144 | returns the exact mtime at the accepted low read, under any nondecreasing clock; ends at the first stable attempt, within two if they span less than 2^32 ticks |
| Timer.StableReadIsExact | chiplet_extension/firmware_c/firmware.h:138-143 | equal high words make the joined value exact |
| Timer.TwoAttemptsSuffice | chiplet_extension/firmware_c/firmware.h:138-142 | two consecutive attempts within 2^32 ticks cannot both fail |
| Timer.TimerBus.SetMtimecmp | chiplet_extension/firmware_c/firmware.h:146-151 | the comparands after its three writes are the update sequence; each is at least the lower of old and new, the last is the argument |
| Timer.NoSpuriousMatch | chiplet_extension/firmware_c/firmware.h:146-151 | while mtime is below old and new comparand, the timer is pending at no step of that sequence |
| Timer.LowHalfFirstCanFire | chiplet_extension/firmware_c/firmware.h:148-150 | the all-ones write is needed: without it some mtime below both comparands raises the timer if and only if the update raises the high word and lowers the low word |
| Counters.WithHalf | chiplet_extension/scripts/gen_timer_wfi_coverage.py:81-83 | the shifted masks replace one half and keep the other |
| Counters.AccessNumbers | chiplet_extension/scripts/gen_timer_wfi_coverage.py:61-89 | mcycle is 0xB00 and 0xB80, minstret 0xB02 and 0xB82, the high halves 0xB80 and 0xB82, of the decoded CSR number |
| Counters.DeltasAreJudged | chiplet_extension/scripts/gen_timer_wfi_coverage.py:68-102 | of two plain reads of a counter with no access between, the first unreported: the second is reported exactly when it is not the first plus the cycles elapsed, or plus the rows that are not interrupts, modulo 2^32 |
| Counters.ValidateCounterTrace | chiplet_extension/scripts/gen_timer_wfi_coverage.py:52-103 | the errors returned are those of the replay, judge every such pair, and for increasing cycles are those of the closed form |
| Counters.ErrorsClosedForm | chiplet_extension/scripts/gen_timer_wfi_coverage.py:68-102 | mcycle is the last anchor plus elapsed cycles, one fewer after a write; minstret the anchor plus rows that are not interrupts; both modulo 2^64 |
| Counters.NoErrorsIff | chiplet_extension/scripts/gen_timer_wfi_coverage.py:71-98 | no errors if and only if every read into a nonzero register shows the closed-form half |
| Counters.HalvesIndependent | chiplet_extension/scripts/gen_timer_wfi_coverage.py:75-86 | writing one half keeps the other, and counting carries from the low half into the high one |
| Counters.UpdateIsAccess | chiplet_extension/scripts/gen_timer_wfi_coverage.py:39-49 | the update of a half is what the hart's CSR instruction writes, and happens exactly when it writes |
| Counters.FirstAccess | chiplet_extension/scripts/gen_timer_wfi_coverage.py:72-74 | a first access implies a counter that shows what was read, the other half zero, so it is never an error |
| Encoding.PackFields | chiplet_extension/scripts/rv32_iss.py:282-286 | the checker's field extraction gives back the six fields of a packed word |
| Encoding.PackSubfields | chiplet_extension/scripts/rv32_iss.py:291-297 | and the subfields of the immediate formats |
| Assembler.AddiDecodes | chiplet_extension/scripts/assemble_rv32_firmware.py:34-35 | encodes exactly the signed 12-bit range, and decodes to the same operands |
| Assembler.LwDecodes | chiplet_extension/scripts/assemble_rv32_firmware.py:38-39 | the same for lw |
| Assembler.SwDecodes | chiplet_extension/scripts/assemble_rv32_firmware.py:42-44 | the same for sw, its immediate split in two |
| Assembler.BeqDecodes | chiplet_extension/scripts/assemble_rv32_firmware.py:47-51 | encodes exactly the even signed 13-bit offsets, and decodes to the same offset |
| Text.StripParts | chiplet_extension/scripts/assemble_rv32_firmware.py:58-67 | stripping removes only white space, on the left and on the right |
| Text.FirstAfter | chiplet_extension/scripts/assemble_rv32_firmware.py:58-62 | cutting at the first separator undoes joining with it |
| Assembler.RegisterIff | chiplet_extension/scripts/assemble_rv32_firmware.py:15-19 | a token is recognised if and only if it is the name of a register x0 to x31 |
| Assembler.MemOperandIff | chiplet_extension/scripts/assemble_rv32_firmware.py:12-12 | a memory operand is recognised if and only if it is an offset without parentheses and a register in parentheses |
| Assembler.ParseSource | chiplet_extension/scripts/assemble_rv32_firmware.py:54-70 | from raw lines: succeeds exactly when labels are nonempty and distinct; the map names every label at the address of the next statement |
| Text.SplitJoined | chiplet_extension/scripts/assemble_rv32_firmware.py:74-74 | fields separated by blanks, tabs and commas in any number are given back |
| Assembler.FieldsJoined | chiplet_extension/scripts/assemble_rv32_firmware.py:74-75 | so the fields of a line are its operation, lower-cased, and its operands |
| Assembler.LabelledLine | chiplet_extension/scripts/assemble_rv32_firmware.py:58-69 | a line with label, padding and comment anywhere parses to that label and statement |
| Assembler.PlainLine | chiplet_extension/scripts/assemble_rv32_firmware.py:58-69 | and one without a label to its statement |
| Assembler.StatementAt | chiplet_extension/scripts/assemble_rv32_firmware.py:57-70 | the statement of a line follows those of the lines before it |
| Assembler.LineDecodes | chiplet_extension/scripts/assemble_rv32_firmware.py:73-98 | every line that assembles decodes to its operation, registers and immediate |
| Assembler.AssemblesIff | chiplet_extension/scripts/assemble_rv32_firmware.py:73-98 | a line assembles if and only if it has a known form, its registers are x0 to x31, its immediate is a signed 12-bit literal, and its label is defined at an even signed 13-bit distance |
| Assembler.LineErrors | chiplet_extension/scripts/assemble_rv32_firmware.py:79-98 | unsupported instructions, unknown labels and invalid memory operands are reported exactly |
| Assembler.BeqText | chiplet_extension/scripts/assemble_rv32_firmware.py:87-91 | a beq line in any layout assembles exactly when the label is defined and in reach, and then branches to it |
| Assembler.Assemble | chiplet_extension/scripts/assemble_rv32_firmware.py:101-105 | succeeds if and only if labels are good and every statement has a known form with operands in range at four times its index; each word then means its statement |
| Assembler.AssembledDecodes | chiplet_extension/scripts/assemble_rv32_firmware.py:101-105 | word i of every source that assembles decodes to line i |
| Assembler.BranchReachesLabel | chiplet_extension/scripts/assemble_rv32_firmware.py:87-91 | a taken beq at 4i reaches its label's address, forward or backward |
| Images.HexRoundTrip | chiplet_extension/scripts/rv32_iss.py:111-113 | parsing a printed integer, negative ones included, gives it back |
| Images.HexWidth | chiplet_extension/scripts/build_compiled_firmware.py:93-94 | a value that fits is printed with exactly the width's digits |
| Images.PrintedForms | chiplet_extension/scripts/rv32_iss.py:111-113 | a printed number is also read with a sign, with the prefix 0x, and in capitals |
| Images.LoadedIsImage | chiplet_extension/scripts/rv32_iss.py:104-115 | the bytes of the loaded map are those of the memory a hart starts with |
| Text.SplitUnlines | chiplet_extension/scripts/rv32_iss.py:110-110 | splitting the written text at white space gives its lines back |
| Images.LoadDataImage | chiplet_extension/scripts/rv32_iss.py:104-115 | the loader's map is the fold of its tokens, or none on a token that is no hexadecimal integer |
| Images.WordHex | chiplet_extension/scripts/build_compiled_firmware.py:80-86 | one line per word of the zero-padded bytes; loading the file restores every byte at its address, zeros in the padding, nothing elsewhere |
| Images.SparseWordHex | chiplet_extension/scripts/build_compiled_firmware.py:89-95 | an address line, then the word lines; for any base, loading the file restores every byte from the base rounded down to a word, and nothing elsewhere |
| Images.RelocatedRomHex | chiplet_extension/scripts/build_compiled_firmware.py:98-111 | is refused exactly outside the aligned positive JAL range; otherwise loading the ROM gives the trampoline at 0, the text at its base, no overlap, nothing elsewhere |
| Images.TrampolineReachesBase | chiplet_extension/scripts/build_compiled_firmware.py:106-108 | for every allowed base the trampoline word decodes as jal x0 with exactly that offset |
| Dma.Build | chiplet_extension/scripts/dma_golden_model.py:144-189 | the loops and counters produce the specified transactions and destination image |
| Dma.TransactionsFollowWords | chiplet_extension/scripts/dma_golden_model.py:154-183 | as many transactions as words of the even-length descriptors; block = index / 2 and packet = index / 4 of the global index |
| Dma.TransactionFields | chiplet_extension/scripts/dma_golden_model.py:154-183 | every field of every transaction: descriptor, tag, addresses, plaintext, and the half of the enciphered pair it belongs to |
| Dma.ImageIsLastWrite | chiplet_extension/scripts/dma_golden_model.py:166-166 | the image holds at each destination the last word written there, and nothing else |
| Dma.ImageOverlay | chiplet_extension/scripts/dma_golden_model.py:166-166 | the image of two lists is the second image laid over the first |
| Dma.DisjointCommute | chiplet_extension/scripts/dma_golden_model.py:154-166 | lists with disjoint destinations commute |
| Dma.SplitEquivalent | chiplet_extension/scripts/dma_golden_model.py:154-183 | cutting a transfer into contiguous even-length descriptors changes no image, block or packet |
| Dma.QueuePlanIsOneTransfer | chiplet_extension/scripts/gen_reference_vectors.py:71-81 | the queue-pressure plan moves what one transfer of the whole length moves |
| Dma.QueueTags | chiplet_extension/scripts/gen_reference_vectors.py:73-80 | the plan's transactions carry tags counted up from 0x5100 |
| Apb.ApbTransactions | chiplet_extension/scripts/run_compiled_firmware.py:604-623 | the loop returns the transactions of the completed windows |
| Apb.OpenSetupIff | chiplet_extension/scripts/run_compiled_firmware.py:612-614 | the kept setup row is the one that begins the transfer under way: nothing closed since, no earlier setup open |
| Apb.WindowMeans | chiplet_extension/scripts/run_compiled_firmware.py:607-622 | a window in the signals of its rows: setup, first ready access, no reset between |
| Apb.TransactionColumns | chiplet_extension/scripts/run_compiled_firmware.py:612-622 | which row gives each column, and the wait as the number of unready access rows |
| Apb.WindowsDisjoint | chiplet_extension/scripts/run_compiled_firmware.py:606-622 | windows come in order and never overlap |
| Apb.ExtractionCorrect | chiplet_extension/scripts/run_compiled_firmware.py:604-623 | the windows emitted are exactly those from a setup row to the first ready access with no reset between, each once, with the unready accesses counted |
| Rvfi.Normalize | chiplet_extension/scripts/normalize_standard_rvfi.py:18-33 | output i is the i-th kept row with order i, flagged exactly when the row before it is an interrupt, halt 0, mode 3 and ixl 1 |
| Rvfi.KeptExactly | chiplet_extension/scripts/normalize_standard_rvfi.py:22-24 | kept rows are exactly those that are not interrupts, in order |
| Rvfi.BetweenKept | chiplet_extension/scripts/normalize_standard_rvfi.py:22-32 | between consecutive kept rows there are only interrupt rows |
| Rvfi.PcContinues | chiplet_extension/scripts/rv32_iss.py:437-439 | in an accepted trace each row starts where the row before it in its epoch went |
| Rvfi.NormalizedPcChain | chiplet_extension/scripts/normalize_standard_rvfi.py:18-33 | within an epoch a normalised row starts at its predecessor's next PC unless flagged; if flagged, the interrupt was taken there and the row starts at the last interrupt's target |

## Left out

- Reading CSV files, paths and argument parsing: parsed rows, lines of text and bytes are the starting point. Columns are values of their width, 32-bit words and 5-bit register numbers.
- Checker.ExpectedLoad: memory images hold 32-bit words; the checker would also accept longer hexadecimal tokens and keep the excess bits.
- Refinement.CheckerRefinesIsa: does not say that a reported trap was required, that an effective address or store datum is right, or that a counter has the right value, because the checker takes those columns as given.
- TraceTheorems.CheckerCatchesMutations: says of a changed row whose register columns no longer name its registers only that no hart takes it; the checker itself takes such columns from the trace.
- Images.LoadDataImage: ASCII text; Python also accepts the decimal digits and white space of other scripts.
- Assembler.LineDecodes: int(token, 0), which reads Python's integer literals, is an arbitrary function of the token; letters are ASCII.
- Timer.TimerBus.ReadMtime: mtime does not wrap past 2^64 during a read.
- AES: the block cipher and the source words of the DMA model are arbitrary functions.
- The remaining cases of the descriptor plans, such as the pair of descriptors, which are taken as given lists.
- The RTL, the report, dashboard and chart generators, coverage tables, subprocess runners, fixed firmware scenarios and simulator plumbing.
