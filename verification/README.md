# QtRvSim model

A Dafny model of the core of QtRvSim, a RISC-V simulator: the single-cycle and the five-stage
pipelined CPU, the CSR trap machine, the assembler's expression parser, immediate encoding and
pseudo-instructions, the high-multiply fallbacks, the bus index, sub-word peripheral access and the
branch predictor. `dafny verify dfyconfig.toml` checks all of it.

The two cores are step functions on states (`Stages.dfy`) and objects that update their registers in
place and are proved to do what those functions say (`Cores.dfy`). The main results are about whole
runs. An abstraction applies the pending MEM/WB register write and names the oldest instruction that
has not passed the memory stage; under it the pipelined core is a stuttering simulation of the
single-cycle one, with CSR instructions, exceptions, trap returns, atomics and flushes included.

What a step of the single-cycle core does is in turn stated without its tables and bit operations: for
every opcode the integers that end up in registers, memory and program counter, for every trap what is
recorded and where it goes, for every CSR write which bits change. Together with the simulation these
hold of the pipelined core as well.

## Where the code does less than it promises

Each of these is kept as the code has it, with the exact condition under which the promise holds.

- Forwarding from EX/MEM hands on the ALU result, but a jump writes back its link. The forwarding core
  therefore follows the single-cycle core on all programs exactly for predictors that satisfy
  `PredictorSafe` (`ForwardingSoundIff`); the disabled predictor does.
- A CSR immediate sits in the field of a register number and is forwarded into. `ForwardingExact`
  gives the per-cycle condition, `ImmediateDiverges` builds a diverging program for every nonzero
  immediate, and `SoundWithIff` shows zero to be the only immediate that programs may use.
- A second prefix operator replaces the first in the parse tree (`ParsedRightIff`,
  `SecondPrefixReplacesFirst`).
- The signed and mixed high-multiply fallbacks overflow in their middle sum (`MulhExactIff`,
  `MulhsuExactIff`), for instance at the inputs of `MulhFallbackWrong` and `MulhsuFallbackWrong`.
- The bus accepts a range that strictly encloses the first range it meets (`InsertSoundIff`,
  `EnclosingAccepted`), after which the lookup loses the new range's start (`EnclosingStartLost`).
- A history register of eight bits is not masked (`IndexInTableIff`).
- LR/SC compares the ends of address ranges, which goes wrong when an access has bytes on both sides of
  2^64. Success means that the bytes are reserved exactly outside `Misjudged` (`GrantedExactIff`), which
  no naturally aligned access meets (`AlignedJudged`). Inside it a store-conditional succeeds with other
  bytes reserved (`DisjointStoreSucceeds`) or with none (`UnreservedStoreSucceeds`), or fails with all of
  its own reserved (`ReservedStoreFails`).
- Sub-word access masks offsets with a 32-bit constant, so offsets beyond 2^32 wrap (`WrittenWraps`);
  reads and writes are plain exactly for spans that end at or below 2^32 (`ReadPlainIff`,
  `WrittenPlainIff`).
- On RV64 li loads the sign-extended value except for the 2048 values from 0x7ffff800 on (`LiExact`,
  `LiWrong`), and la, call and tail reach distances from -2^31 - 2048 to 2^31 - 2049 (`LaExact`,
  `CallExact`).
- The cause of a trap from S or U into M is written to scause, so M finds its cause in mcause exactly for
  traps from M (`CauseInPlaceIff`, `UserCallMisplaced`).
- On RV64 a write to sstatus zeroes UXL and SXL of mstatus (`SstatusWriteClearsXlenFields`).

## Files

- `Words`, `Alu`, `BitFields`, `MachineDefs`, `InstructionSet`, `CsrFunctions`, `Stages`: values, tables and stages.
- `Numbers`, `SignedNumbers`: 64-bit words as integers and as binary digits.
- `AluMeaning`, `InstructionMeaning`, `MemoryMeaning`, `TrapMeaning`, `CsrBits`: every instruction, trap, return and
  CSR write in integers and bits.
- `Refinement`, `Progress`, `ForwardingLimits`, `Traps`, `TrapLimits`, `Spans`, `Reservation`, `ReservationLimits`: the
  cores over whole runs, and where they fall short.
- `StatusStack`, `ControlRegisters`, `RegisterFiles`, `Cores`: CSR properties and the objects.
- `Expressions`, `Precedence`, `ParserProof`: the expression parser and the tree it builds.
- `Grammar`, `ExpressionValues`: the reference grammar, values in integers, and the parser against both.
- `SplitFields`, `Immediates`, `PseudoInstructions`, `PatchedImmediates`: encoding.
- `HighMultiply`, `MemoryBus`, `SubwordAccess`, `BranchPrediction`: the remaining parts.

## Model

| member | source | states |
|---|---|---|
| Refinement.PipelinedRefinesSingle | src/machine/core.cpp:743-862 | from reset, for every program, every number of cycles and every next-PC predictor (stalling unit) or every safe one (forwarding unit), the pipelined registers with the pending write applied, memory, CSRs, privilege, reservation and commit PC equal the single-cycle core's after as many steps as instructions passed the memory stage |
| Refinement.StepRefines | src/machine/core.cpp:782-831 | the invariant is inductive, and one cycle either leaves the architectural state alone or takes exactly one single-cycle step |
| Refinement.RunRefines | src/machine/core.cpp:782-831 | the same simulation over runs from any state that satisfies the invariant |
| Refinement.StructureStep | src/machine/core.cpp:782-831 | in every configuration, no hazard unit included: shapes, path and legality mask are kept, and a cycle changes the architectural state by what the instruction in EX/MEM does and nothing else |
| Refinement.StructureRun | src/machine/core.cpp:782-831 | that structure holds after every number of cycles |
| Refinement.DrainingStep | src/machine/core.cpp:807-817 | an exception, a misprediction or a CSR write retires the instruction in EX/MEM and leaves the pipeline empty |
| Refinement.QuietStep | src/machine/core.cpp:818-830 | when nothing redirects, the cycle ends in one of four ways: exception in EX, exception in ID, stall, normal advance |
| Refinement.QuietPath | src/machine/core.cpp:818-830 | a cycle that does not redirect keeps every stage on the path predicted by the stage ahead of it |
| Refinement.StallOperands | src/machine/core.cpp:889-910 | with the stalling unit an instruction leaves ID only when nothing in flight writes its operands, so what it read is what the older instructions leave |
| Refinement.ForwardingExact | src/machine/core.cpp:873-913 | the forwarded operands are the values the older instructions will have written, if and only if neither the link of a jump predicted to its target nor a CSR immediate is overwritten |
| Refinement.ForwardingResult | src/machine/core.cpp:878-907 | forwarding gives EX/MEM precedence over MEM/WB and that over the register file |
| Refinement.RetiredResult | src/machine/core.cpp:689-693 | what an instruction that neither reads memory nor redirects writes back: a jump its link, any other the ALU result |
| Refinement.SilentCsrAlu | src/machine/core.cpp:431-431 | a CSR instruction that does not write has the CSR value it read as its ALU result |
| Refinement.AluAdds | src/machine/execute/alu.cpp:33-74 | at either width the ALU adds modulo 2^XLEN |
| Refinement.PredictionIrrelevant | src/machine/core.cpp:743-761 | a step of the single-cycle core does not depend on its predictor |
| Refinement.PrivilegeMask | src/machine/core.cpp:131-148 | changing the level leaves the legality mask a function of configuration and level |
| Progress.EveryStateReached | src/machine/core.cpp:743-831 | the pipelined core reaches every state of the single-cycle core, in at most four cycles an instruction |
| Progress.PassesSoon | src/machine/core.cpp:782-831 | in every configuration an instruction passes the memory stage within four cycles |
| Progress.BubbleAdvances | src/machine/core.cpp:782-831 | while nothing passes, the next instruction comes strictly closer to the memory stage |
| Progress.Throughput | src/machine/core.cpp:782-831 | every run passes at least one instruction per four cycles |
| Progress.ForwardingStallsOnce | src/machine/core.cpp:893-897 | a stall under forwarding is never followed by another |
| Progress.StallsTwice | src/machine/core.cpp:878-911 | without forwarding no third consecutive cycle stalls |
| Progress.CycleAccounting | src/machine/core.cpp:51-56 | cycles <= passed + stalls + 3 * (flushes + 1), and no more instructions pass than cycles elapse |
| ForwardingLimits.ForwardingSoundIff | src/machine/core.cpp:893-907 | the forwarding core is in step with the single-cycle core on all programs without clobbered immediates, from every drained state and for all cycle counts, if and only if the predictor never sends a jump where its link, read right behind, tells the two apart |
| ForwardingLimits.UnsafeLinkDiverges | src/machine/core.cpp:900-900 | every unsafe prediction of a jump, in any cycle and any control state without a pending interrupt, has a program, built here, on which the cores disagree within five cycles |
| ForwardingLimits.LinkForwarded | src/machine/core.cpp:899-902 | the reader of the link is decoded with the jump's target in place of the link |
| ForwardingLimits.DisabledPredictorSafe | src/machine/predictor.cpp:726-726 | with the predictor disabled forwarding is safe |
| ForwardingLimits.ImmediateDiverges | src/machine/core.cpp:881-884 | for every nonzero CSR immediate, in any cycle and any state without a pending interrupt, a program and a drained pipeline are built on which the forwarding core stores a register's value instead and the cores disagree within six cycles |
| ForwardingLimits.NumberDiverges | src/machine/core.cpp:881-884 | the same for any program in which an instruction writes register r with another value than r and the CSR immediate r follows |
| ForwardingLimits.SoundWithIff | src/machine/core.cpp:873-913 | with a predictor that sends only branches and jumps elsewhere, the forwarding core is in step on all programs whose CSR immediates are in a given set, from every drained state and for all cycle counts, if and only if the predictor is safe and the set holds nothing but zero |
| ForwardingLimits.NumberClobbered | src/machine/core.cpp:416-422 | the CSR instruction waits for EX to empty and then takes the result in MEM/WB for its immediate |
| Traps.PathOverRuns | src/machine/core.cpp:782-862 | in every reachable state of every configuration each younger valid stage has the address the older one predicted, nothing follows an exception, and fetching is stopped exactly while an exception is in flight |
| Traps.PcSource | src/machine/core.cpp:804-830 | the PC stays, is the next address of the instruction that was flushed around, or is the prediction of a valid fetched instruction; never a bubble's |
| Traps.OnlyPathPasses | src/machine/core.cpp:788-792 | whatever reaches the memory stage is the single-cycle core's next instruction, fetched and decoded at the level in force at commit |
| Traps.PreciseException | src/machine/core.cpp:807-813 | when the pipelined core delivers an exception, registers and memory are those of the older instructions, the cause is the one of the excepting instruction's step, its address, the address of its access and its cause are recorded as TrapMeaning.DeliveryMeaning says, that level's handler is the next address, and nothing younger is in flight or left a trace |
| Traps.FetchStops | src/machine/core.cpp:818-823 | while an exception is in flight nothing is fetched and the PC stays |
| Traps.ExceptionResolves | src/machine/core.cpp:794-823 | an exception in flight is delivered or discarded within two cycles |
| Traps.TrapNeverLowers | src/machine/core.cpp:187-236 | trap entry never lowers the privilege level |
| Traps.ReturnNeverRaises | src/machine/core.cpp:643-659 | an executed MRET or SRET never raises the level, in whatever configuration it reached the memory stage |
| Traps.StepPrivilege | src/machine/core.cpp:643-659 | one instruction, interrupts included: only a delivered trap raises the level and only an executed return lowers it, when program memory itself reports no interrupt |
| Traps.PrivilegeOverRuns | src/machine/core.cpp:131-148 | the same over whole pipelined runs in every configuration, no hazard unit and unsafe predictors included, with the legality mask always the one of the current level |
| Traps.InterruptSFromBelow | src/machine/csr/controlstate.cpp:245-270 | supervisor interrupts are requested from U and S only; TrapMeaning.RequestIff says exactly when |
| InstructionMeaning.BranchMeaning | src/machine/core.cpp:611-616 | a step of each conditional branch goes to its target exactly when the registers, as signed or unsigned numbers of the machine's width, compare as its name says, else to the next instruction, and changes nothing else |
| InstructionMeaning.BranchSignals | src/machine/instruction.cpp:439-449 | what the branch table rows ask of the ALU |
| AluMeaning.BasicIs | src/machine/execute/alu.cpp:33-74 | every basic operation at 64 and 32 bits as an integer: sum and difference, shifts as products and quotients by 2^k with k modulo the width, signed and unsigned comparison, digit-wise logic |
| AluMeaning.MultiplierIs | src/machine/execute/alu.cpp:76-142 | every multiplication and division at 64 and 32 bits as an integer: low and high products, quotients that round toward zero, remainders with the sign of the dividend, the results for a zero divisor and for the overflowing quotient |
| InstructionMeaning.OperationMeaning | src/machine/core.cpp:743-761 | a step of any register-register or register-immediate instruction, W forms included, leaves that integer of its operands in rd, goes on to the next instruction, counts it, and changes nothing else |
| InstructionMeaning.UpperMeaning | src/machine/instruction.cpp:600-608 | lui leaves the immediate and auipc its sum with the instruction's address in rd, and nothing else changes |
| InstructionMeaning.JumpMeaning | src/machine/instruction.cpp:620-624 | jal and jalr leave the address behind them in rd and go to the sum of the immediate and the instruction's address or the register |
| InstructionMeaning.CsrMeaning | src/machine/core.cpp:416-432 | a CSR instruction leaves the old value in rd and writes the operand, or the old value with the operand's digits set or cleared; set and clear with operand zero write nothing |
| InstructionMeaning.CauseMeaning | src/machine/core.cpp:414-445 | the cause an instruction is decoded with, from configuration, level, fetch and opcode |
| InstructionMeaning.IllegalIff | src/machine/core.cpp:131-148 | the flag check refuses an instruction if and only if it is unknown, its row needs RV64, multiplication or atomics that the configuration lacks, or it is mret below M, or sret or sfence.vma in U |
| InstructionMeaning.CountedMeaning | src/machine/core.cpp:637-637 | retiring adds one to minstret modulo 2^XLEN and touches no other register |
| MemoryMeaning.LoadMeaning | src/machine/core.cpp:589-591 | a step of each load leaves in rd the little-endian number at the sum of register and immediate, signed or unsigned as its name says, and changes nothing else |
| MemoryMeaning.StoreMeaning | src/machine/core.cpp:589-590 | a step of each store leaves the low bytes of the register there as a little-endian number; no other byte, register or CSR but the count changes |
| MemoryMeaning.StoreThenLoad | src/machine/memory/frontend_memory.cpp:39-88 | a load finds the low bytes of what a store of its size left there, as an unsigned or a signed number |
| MemoryMeaning.AtomicMeaning | src/machine/core.cpp:250-340 | a step of each atomic leaves the signed number found in rd and in memory the swap, sum modulo the width, digit-wise logic, or signed or unsigned minimum or maximum with the register |
| MemoryMeaning.LoadReservedMeaning | src/machine/core.cpp:299-303 | a load-reserved leaves the signed number found in rd and reserves its bytes |
| MemoryMeaning.FenceMeaning | src/machine/core.cpp:347-355 | wfi and fence only go on to the next instruction; sfence.vma drops the reservation as well |
| MemoryMeaning.AddressIs | src/machine/core.cpp:573-580 | the address of an access is register plus immediate, for atomics the register, modulo 2^XLEN |
| TrapMeaning.RequestIff | src/machine/csr/controlstate.cpp:245-270 | a machine interrupt is requested if and only if some bit is set in mie and mip and the level is below M or MIE is set; a supervisor one if and only if no machine one is, some bit is set in sie and sip, and the level is U, or S with SIE set; else none |
| TrapMeaning.CauseOverRuns | src/machine/core.cpp:370-381 | in every cycle of every run in every configuration, what is about to pass the memory stage has the cause that program, level and these bits give its address |
| TrapMeaning.DeliveryMeaning | src/machine/core.cpp:164-249 | a delivered trap goes to S if it is a supervisor interrupt, or an exception from S or U whose medeleg bit is set, else to M; epc and tval of that level hold the instruction's address and the access's address or zero; mcause for a trap from M into M, else scause, holds the number of the cause, for interrupts the lowest enabled and pending one with the top bit; the handler of the level is entered with the status pushed, unless there is none or the cause is stepped over |
| TrapMeaning.TrapStep | src/machine/core.cpp:743-761 | the same for a whole step: registers and memory stay |
| TrapMeaning.AccessCause | src/machine/core.cpp:592-601 | a load that faults is a load page fault, any other access a store page fault, with the address of the access |
| TrapMeaning.ReturnMeaning | src/machine/core.cpp:643-659 | mret and sret continue at mepc or sepc and at the level on the stack, pop the stack, and change nothing else but the count |
| TrapMeaning.TrapRoundTrip | src/machine/core.cpp:164-249 | a trap at any step of a run and the return at any later one that finds the recorded address and the pushed status: the run goes on at the instruction that trapped, at its level and with its interrupt enable |
| TrapLimits.CauseInPlaceIff | src/machine/core.cpp:228-230 | whatever the cause registers held, the level that handles a trap finds its cause in its own cause register if and only if the trap is delivered to S or comes from M |
| TrapLimits.UserCallMisplaced | src/machine/csr/controlstate.cpp:191-221 | an ecall in U with all CSRs zero leaves its address in mepc, but 8 in scause and 0 in mcause |
| TrapMeaning.RunKeepsAlias | src/machine/csr/controlstate.cpp:107-181 | the sstatus copy stays aliased in every run of the core |
| CsrBits.WriteBits | src/machine/csr/controlstate.h:286-344 | bit by bit, a write changes the bits that the register's row admits, clears those beyond XLEN, and touches no other register |
| CsrBits.MstatusWriteBits | src/machine/csr/controlstate.cpp:107-128 | the bits of mstatus and of its sstatus copy after a write to mstatus |
| CsrBits.SstatusWriteBits | src/machine/csr/controlstate.cpp:161-181 | the bits of both after a write to sstatus: SIE, SPIE, SPP, SUM and MXR are taken, on RV64 UXL and SXL are zeroed, all other bits of mstatus stay |
| CsrBits.SatpWriteBits | src/machine/csr/controlstate.cpp:130-149 | satp takes 32 bits on RV32; on RV64 all bits, but for the mode unless it is 0, 8 or 9 |
| CsrBits.SignalBits | src/machine/csr/controlstate.cpp:223-243 | an interrupt line below 32 sets or clears its bit of mip and no other, and sip shows the bits of mip that mideleg has |
| Reservation.StoreConditionalSafe | src/machine/core.cpp:299-328 | in every run from reset a store-conditional writes its bytes and puts 0 in rd if the history grants it, and otherwise leaves memory alone and puts 1 in rd; granted is what the latest load-reserved, with no store-conditional, trap return, SFENCE.VMA or delivered trap since, reserved byte for byte, both accesses being within 2^64 or both running past it, or an access past 2^64 whose ends lie between that load-reserved's, or with none live an access that ends at address zero |
| Reservation.PipelinedStoreConditionalSafe | src/machine/core.cpp:299-328 | the same for every run of the pipelined core, in the cycle in which the store-conditional passes the memory stage |
| Reservation.GrantedIff | src/machine/core.cpp:304-306 | the reservation in force contains the range of the access if and only if the history of the run grants its bytes |
| Reservation.GrantedWithin | src/machine/core.cpp:299-328 | an access within 2^64 is granted if and only if a live load-reserved, itself within 2^64, reserved all its bytes |
| Reservation.GrantedExactIff | src/machine/core.cpp:299-328 | in every run, granted and all bytes reserved are the same if and only if the access is not one of those, told by start and size of access and live reservation, that the comparison of ends misjudges |
| Reservation.AlignedJudged | src/machine/core.cpp:299-328 | for naturally aligned accesses, success means exactly that all bytes are reserved |
| Spans.ContainsIff | src/machine/memory/address_range.h:53-55 | comparing ends holds if and only if all bytes are included and both accesses are within 2^64 or both run past it, or an access past 2^64 is taken in |
| Spans.ContainsExactIff | src/machine/memory/address_range.h:53-55 | comparing ends agrees with inclusion of bytes if and only if no access past 2^64 is taken in and no reservation past it overlooks its own bytes |
| Spans.EmptyContains | src/machine/memory/address_range.h:53-64 | the empty reservation contains a range if and only if the access ends at address zero |
| ReservationLimits.PairRun | src/machine/core.cpp:299-328 | a load-reserved and a store-conditional of any widths at any two addresses, executed with nothing reserved before: memory and rd as the comparison of their ends says |
| ReservationLimits.DisjointStoreSucceeds | src/machine/memory/address_range.h:53-55 | after lr.w at 0x1000, sc.w at 2^64-2 shares no byte with it, yet writes memory and reports success |
| ReservationLimits.ReservedStoreFails | src/machine/memory/address_range.h:53-55 | after lr.d at 2^64-4, sc.w at 0 has all its bytes reserved, yet writes nothing and reports failure |
| ReservationLimits.UnreservedStoreSucceeds | src/machine/memory/address_range.h:53-64 | on RV64 sc.w at 2^64-3 and sc.d at 2^64-7 write memory and report success although nothing is reserved |
| Reservation.ReservationStep | src/machine/core.cpp:347-355 | what each instruction does to the reservation, exceptions included |
| Reservation.HandlerDrops | src/machine/core.cpp:171-185 | a delivered trap drops the reservation; an illegal instruction and a stopping hardware breakpoint do not |
| Reservation.ReservationHistory | src/machine/core.cpp:299-328 | the reservation in a run is the range of the latest load-reserved with nothing dropping it since, and empty if there is none |
| Reservation.ConditionalStore | src/machine/core.cpp:304-313 | a store-conditional writes exactly its bytes and 0 into rd if the reservation contains its range, else nothing and 1 into rd |
| Spans.AlignedStays | src/machine/memory/address_range.h:53-64 | no naturally aligned access has bytes on both sides of 2^64 |
| StatusStack.AliasOverRuns | src/machine/csr/controlstate.cpp:107-181 | after reset and any sequence of CSR writes, field writes, trap entries, returns, causes, interrupt signals and counter increments, SIE, SPIE, SPP, SUM and MXR of sstatus equal those of mstatus (the whole register on RV32) and cycle equals mcycle |
| StatusStack.WriteKeepsAlias | src/machine/csr/controlstate.cpp:354-359 | any handler-dispatched write keeps the copies aliased |
| StatusStack.ApplyKeepsAlias | src/machine/csr/controlstate.cpp:191-341 | every operation on the CSR file keeps the copies aliased |
| StatusStack.ResetAliased | src/machine/csr/controlstate.cpp:27-45 | reset establishes it |
| StatusStack.EnterMachine | src/machine/csr/controlstate.cpp:276-280 | entry to M pushes MIE and the interrupted level and touches nothing else of the stack |
| StatusStack.LeaveMachine | src/machine/csr/controlstate.cpp:296-314 | MRET pops them and clears MPRV when leaving M |
| StatusStack.EnterSupervisor | src/machine/csr/controlstate.cpp:281-286 | entry to S, done through sstatus, pushes SIE and the level in mstatus |
| StatusStack.LeaveSupervisor | src/machine/csr/controlstate.cpp:315-336 | SRET pops them |
| StatusStack.MachineRoundTrip | src/machine/csr/controlstate.cpp:272-341 | an M trap and its return, from any level, restore level and MIE and leave SIE, SPIE and SPP untouched |
| StatusStack.NestedRoundTrip | src/machine/csr/controlstate.cpp:272-341 | an S trap, optionally an M trap inside it, MRET and SRET restore the levels in order, MIE and SIE |
| StatusStack.SstatusWriteClearsXlenFields | src/machine/csr/controlstate.cpp:169-176 | on RV64 a write to sstatus zeroes UXL and SXL of mstatus |
| ControlRegisters.ControlState.constructor | src/machine/csr/controlstate.cpp:15-45 | reset contents, aliased |
| ControlRegisters.ControlState.WriteInternal | src/machine/csr/controlstate.cpp:354-359 | in-place write through the handler of the register equals the specified file, aliasing kept |
| ControlRegisters.ControlState.MstatusWrite | src/machine/csr/controlstate.cpp:107-128 | masks the write and refreshes the sstatus copy |
| ControlRegisters.ControlState.SstatusWrite | src/machine/csr/controlstate.cpp:161-181 | writes the shared bits into mstatus and shows them |
| ControlRegisters.ControlState.SatpWrite | src/machine/csr/controlstate.cpp:130-149 | drops unsupported translation modes on RV64 |
| ControlRegisters.ControlState.McycleWrite | src/machine/csr/controlstate.cpp:151-159 | writes mcycle and cycle together |
| ControlRegisters.ControlState.WriteField | src/machine/csr/controlstate.h:135-139 | read, update and write back through the handler |
| ControlRegisters.ControlState.UpdateExceptionCause | src/machine/csr/controlstate.cpp:191-221 | records the cause, for interrupts the lowest pending one with the interrupt bit |
| ControlRegisters.ControlState.SetInterruptSignal | src/machine/csr/controlstate.cpp:223-243 | sets or clears the pending bit and shows the delegated ones |
| ControlRegisters.ControlState.ExceptionInitiate | src/machine/csr/controlstate.cpp:272-288 | the in-place field writes equal the specified stack push |
| ControlRegisters.ControlState.ExceptionReturn | src/machine/csr/controlstate.cpp:290-341 | the in-place field writes equal the specified stack pop, with the restored level |
| RegisterFiles.RegisterFile.WriteGp | src/machine/registers.cpp:55-62 | afterwards the register reads as the value unless it is x0, and every other as before |
| RegisterFiles.RegisterFile.ReadGp | src/machine/registers.cpp:38-46 | x0 reads as zero |
| RegisterFiles.RegisterFile.Reset | src/machine/registers.cpp:74-81 | the loop clears all registers, then sets the stack pointer and the PC |
| Cores.Core.constructor | src/machine/core.cpp:58-64 | reset: machine level, its legality mask, nothing reserved |
| Cores.Core.SetCurrentPrivilege | src/machine/core.cpp:131-148 | level and mask change together |
| Cores.Core.MemorySpecial | src/machine/core.cpp:283-360 | LR, SC, AMO and SFENCE.VMA in place equal the access whose effect AtomicMeaning, LoadReservedMeaning, ConditionalStore and FenceMeaning state, faults included |
| Cores.Core.AccessData | src/machine/core.cpp:573-603 | regular and special accesses and page faults in place equal the access whose effect LoadMeaning, StoreMeaning and AccessCause state |
| Cores.Core.Commit | src/machine/core.cpp:636-660 | retirement count, CSR write and trap return |
| Cores.Core.MemoryStage | src/machine/core.cpp:573-702 | memory, CSRs, level, reservation and the MEM/WB register in place equal the outcome that the Meaning rows are about |
| Cores.Core.WritebackStage | src/machine/core.cpp:704-715 | one register write |
| Cores.Core.RecordTrap | src/machine/core.cpp:205-230 | the in-place writes of trap address, value and cause equal the file that DeliveryMeaning describes |
| Cores.Core.EnterHandler | src/machine/core.cpp:232-236 | stack push, level change and PC in place equal the entry that DeliveryMeaning describes |
| Cores.Core.HandleException | src/machine/core.cpp:164-249 | delegation, recording and delivery in place equal the function that DeliveryMeaning is about |
| Cores.CoreSingle.DoStep | src/machine/core.cpp:743-761 | the object's step equals the step function whose effect the Meaning and TrapStep rows state opcode by opcode |
| Cores.CorePipelined.DoStep | src/machine/core.cpp:782-831 | the object's cycle, with all its in-place updates, equals the specified cycle that the refinement is proved about |
| Cores.CorePipelined.constructor | src/machine/pipeline.h:42-55 | empty interstage registers |
| Cores.CorePipelined.RunStages | src/machine/core.cpp:788-792 | five stages, oldest first, each into its interstage register |
| Cores.CorePipelined.FlushBehindExceptions | src/machine/core.cpp:794-799 | stages younger than an exception are emptied |
| Cores.CorePipelined.HandleDataHazards | src/machine/core.cpp:873-913 | stall decision and forwarded operands |
| Cores.CorePipelined.FlushAndContinueFromAddress | src/machine/core.cpp:833-838 | all three younger stages emptied, PC set |
| Cores.CorePipelined.HandleStall | src/machine/core.cpp:840-854 | IF/ID restored, ID/EX emptied, stall counted |
| Grammar.ParsesGrammar | src/assembler/fixmatheval.cpp:199-349 | for every expression of the layered grammar, in which the types alone give precedence and left association, the parser takes its text and builds its syntax, but for prefix operators in front of others |
| Grammar.ParsedRightIff | src/assembler/fixmatheval.cpp:325-336 | it builds exactly its syntax if and only if no operand has two prefix operators in a row |
| Grammar.EveryChain | src/assembler/fixmatheval.cpp:199-349 | every text of operands joined by operators is the text of an expression of the grammar |
| Grammar.AppendSplits | src/assembler/fixmatheval.cpp:325-333 | a chain joined by an operator that binds less than everything to its right, and no more than anything to its left, parses into the two parts |
| ExpressionValues.ParseThenEval | src/assembler/fixmatheval.cpp:356-363 | parsing the text of any expression of the grammar and evaluating the tree gives the value defined level by level on integers modulo 2^64, of the expression itself if no operand has two prefix operators, and of the expression without the dropped ones otherwise |
| ExpressionValues.RelocatedWords | src/assembler/fixmatheval.cpp:250-274 | %hi, %lo, %pcrel_hi and %pcrel_lo as quotients and remainders of the address and of its distance |
| ExpressionValues.QuotientWords | src/assembler/fixmatheval.cpp:299-301 | division is of the signed numbers and rounds toward zero |
| ExpressionValues.SecondPrefixReplacesFirst | src/assembler/fixmatheval.cpp:328-335 | "-~5" evaluates to -6 instead of 6 |
| Expressions.Parse | src/assembler/fixmatheval.cpp:199-349 | the token loop that changes base priority, unary flag and tree computes the run that the grammar results are about, errors included |
| ParserProof.ParserCorrectIff | src/assembler/fixmatheval.cpp:199-349 | for every chain of operands, the tree with its priorities is the left-associative precedence tree if and only if no operand has two prefix operators in a row |
| ParserProof.ParsesEffective | src/assembler/fixmatheval.cpp:325-336 | on every chain the parser succeeds with the precedence tree of the chain in which each operand keeps only its last prefix operator |
| ParserProof.SpineIncreases | src/assembler/fixmatheval.cpp:325-341 | after any tokens, well-formed or not, priorities strictly increase down the right spine |
| ParserProof.ParseChain | src/assembler/fixmatheval.cpp:199-349 | in any context of looser operators the tokens of an expression put its precedence tree at the open place |
| Precedence.JoinedSnoc | src/assembler/fixmatheval.cpp:328-333 | inserting an operator and operand into the spine is appending them to the expression |
| ParserProof.HiLoRebuild | src/assembler/fixmatheval.cpp:250-261 | %hi and %lo rebuild the low 32 bits |
| ParserProof.PcrelRebuild | src/assembler/fixmatheval.cpp:262-274 | %pcrel_hi and %pcrel_lo of the next instruction rebuild the distance |
| SplitFields.Decode | src/machine/bitfield.h:41-49 | the loop computes the specified concatenation of fields |
| SplitFields.Encode | src/machine/bitfield.h:50-58 | the loop computes the specified distribution over fields |
| SplitFields.DecodeEncode | src/machine/bitfield.h:32-59 | for any list of disjoint fields and shift fitting 32 bits, reading back what was written gives exactly the representable bits of the value |
| SplitFields.EncodeDecode | src/machine/bitfield.h:32-59 | writing back what was read gives the word restricted to the fields |
| Immediates.ImmediateDecodes | src/machine/instruction.cpp:705-724 | the accessor reads what the descriptor of its format describes, sign-extended |
| Immediates.ImmediateRecovers | src/machine/instruction.cpp:61-88 | for the I, S, B and J formats every in-range, suitably aligned value is recovered, whatever the rest of the word |
| Immediates.DescriptorValid | src/machine/instruction.cpp:61-88 | the descriptors' fields are disjoint and fit |
| PseudoInstructions.InstructionWord.Update | src/machine/instruction.cpp:1409-1435 | in-place patch of a composed immediate |
| PseudoInstructions.PatchKeepsRest | src/machine/instruction.cpp:1410-1411 | a patch changes nothing but its field |
| PseudoInstructions.HalvesRebuild | src/machine/instruction.cpp:1437-1446 | the two patched immediates, decoded and extended, add up to the value modulo 2^32 |
| PseudoInstructions.LiLoads | src/machine/instruction.cpp:1078-1090 | executing the two instructions of li leaves the value in rd modulo 2^32, for every value |
| PseudoInstructions.LiExact | src/machine/instruction.cpp:1078-1090 | on RV32 rd is the value's low 32 bits; on RV64 it is those bits sign-extended if and only if they are not between 0x7ffff800 and 0x7fffffff, for which it is those bits below 32 ones; it is the value itself if and only if that is between -2^31 - 2048 and 2^31 - 2049 |
| PseudoInstructions.LiWrong | src/machine/instruction.cpp:1437-1446 | on RV64 from reset, li of 0x7ffff800 leaves 0xffffffff7ffff800 |
| PseudoInstructions.LaExact | src/machine/instruction.cpp:1063-1076 | on RV64 la leaves the address itself if and only if its distance is between -2^31 - 2048 and 2^31 - 2049 |
| PseudoInstructions.CallExact | src/machine/instruction.cpp:1092-1124 | on RV64 call and tail end at the target itself if and only if its distance is in that range |
| PatchedImmediates.AccessorReads | src/machine/instruction.cpp:705-724 | the immediates that li, la, call and tail execute with are what the accessor of the U and I formats reads from the word |
| PatchedImmediates.PatchEncodes | src/machine/instruction.cpp:1409-1435 | patching a word encodes the half into the fields of the format's descriptor and changes no other bit |
| PseudoInstructions.LaLoads | src/machine/instruction.cpp:1063-1076 | the same for la, for every value and instruction address |
| PseudoInstructions.CallJumps | src/machine/instruction.cpp:1092-1124 | call and tail end at the target modulo 2^32, and call links the address behind it |
| HighMultiply.MulhuExact | src/common/polyfills/mulh64.h:23-49 | the unsigned form equals the exact product divided by 2^64, for all inputs, and no product or sum on the way overflows |
| HighMultiply.MulhExactIff | src/common/polyfills/mulh64.h:61-72 | the signed form equals the floor of the exact product over 2^64 if and only if the middle sum fits 63 bits |
| HighMultiply.MulhsuExactIff | src/common/polyfills/mulh64.h:84-95 | the same for the mixed form |
| HighMultiply.ExactForUpper | src/common/polyfills/mulh64.h:61-95 | both are exact for every b unless the upper word of a is 0x7fffffff |
| HighMultiply.MulhFallbackWrong | src/common/polyfills/mulh64.h:70-70 | the largest signed number squared comes out wrong |
| HighMultiply.MulhsuFallbackWrong | src/common/polyfills/mulh64.h:93-93 | the largest signed number times 0x1ffffffff comes out wrong |
| HighMultiply.WideExact | src/common/polyfills/mulh64.h:99-112 | the 128-bit forms are exact for all operands |
| MemoryBus.MemoryDataBus.FindRange | src/machine/memory/memory_bus.cpp:86-97 | in a sound index, the range that contains the address, or none if none does |
| MemoryBus.MemoryDataBus.InsertDeviceToRange | src/machine/memory/memory_bus.cpp:99-126 | both maps change exactly when the endpoint check passes |
| MemoryBus.MemoryDataBus.LowerBound | src/machine/memory/memory_bus.cpp:90-91 | the smallest key not below the address |
| MemoryBus.LookupExact | src/machine/memory/memory_bus.cpp:86-97 | the lookup returns exactly the unique range a search through all ranges would find |
| MemoryBus.AcceptsIff | src/machine/memory/memory_bus.cpp:104-108 | a request is accepted if and only if it meets no range or strictly encloses the first one it meets |
| MemoryBus.InsertSoundIff | src/machine/memory/memory_bus.cpp:180-186 | an accepted request leaves the ranges disjoint if and only if it did not enclose the first range it met |
| MemoryBus.EnclosingStartLost | src/machine/memory/memory_bus.cpp:86-97 | a request that encloses the first range it meets is accepted, and the lookup then finds nothing at its start |
| MemoryBus.EnclosingAccepted | src/machine/memory/memory_bus.cpp:104-108 | with address 5 taken, a request for 0 to 10 is accepted, the ranges overlap, and a lookup of 0 finds nothing |
| MemoryBus.RunSound | src/machine/memory/memory_bus.cpp:99-126 | through any sequence of non-empty requests that enclose no existing range, ranges stay disjoint and each request is granted exactly when it meets none |
| SubwordAccess.ReadBy | src/machine/memory/memory_utils.h:207-274 | every byte read is the device's byte at that offset modulo 2^32, for each width, offset and size |
| SubwordAccess.ReadPlainIff | src/machine/memory/memory_utils.h:218-218 | the bytes read are the device's bytes at the addressed offsets, whatever it holds, if and only if the span ends at or below 2^32 |
| SubwordAccess.WriteBy | src/machine/memory/memory_utils.h:292-374 | the read-modify-write loop refines byte-by-byte writing of the device, and reports no change only if no word changed |
| SubwordAccess.WrittenPlain | src/machine/memory/memory_utils.h:292-374 | for spans that end at or below 2^32 exactly the addressed bytes change |
| SubwordAccess.WrittenPlainIff | src/machine/memory/memory_utils.h:292-374 | a write changes exactly the addressed bytes, whatever the device holds, if and only if it is empty or its span ends at or below 2^32 |
| SubwordAccess.WrittenWraps | src/machine/memory/memory_utils.h:310-310 | the failing input: a write of one byte at offset 2^32 lands on byte 0 and changes nothing else |
| BranchPrediction.BranchPredictor.constructor | src/machine/predictor.cpp:545-587 | clamped widths, initial states and empty tables |
| BranchPrediction.BranchPredictor.PredictNext | src/machine/predictor.cpp:722-757 | the prediction is the recorded target if and only if the latest record at the place of pc is for pc itself and is a jump or the direction says taken; else pc + 4 |
| BranchPrediction.BranchPredictor.PredictTaken | src/machine/predictor.cpp:320-431 | the direction is what the row's own outcomes make of its initial state, or static |
| BranchPrediction.BranchPredictor.RecordTarget | src/machine/predictor.cpp:166-188 | the record becomes the latest at its place; every place of the buffer stays the latest record there |
| BranchPrediction.BranchPredictor.Learn | src/machine/predictor.cpp:433-475 | one row and the global counters move together, so the sums of the per-row statistics stay equal to them |
| BranchPrediction.BranchPredictor.Update | src/machine/predictor.cpp:760-789 | targets, row, history and statistics after an outcome, counted as correct exactly when the direction predicted it; the invariant is kept |
| BranchPrediction.BranchPredictor.Flush | src/machine/predictor.cpp:798-803 | history, targets and states forgotten, statistics kept |
| BranchPrediction.LastAtIs | src/machine/predictor.cpp:148-188 | the latest record at a place is the one there after which no other went there |
| BranchPrediction.HistoryBits | src/machine/predictor.cpp:87-118 | bit by bit: the outcome enters the history register at bit 0, its bits move up by one, and those it has no room for are dropped |
| BranchPrediction.TableIndexBits | src/machine/predictor.cpp:283-288 | bit by bit: the history table is indexed by the low bits of the word address below the history |
| BranchPrediction.BufferIndexBits | src/machine/predictor.cpp:148-150 | bit by bit: the target buffer is indexed by the low bits of the word address |
| BranchPrediction.LastTwoDecide | src/machine/predictor.cpp:433-539 | for every dynamic predictor and history the last two equal outcomes of a row are its next prediction |
| BranchPrediction.LastOneDecides | src/machine/predictor.cpp:392-411 | with one bit the last outcome decides |
| BranchPrediction.TwoBitsCount | src/machine/predictor.cpp:413-475 | for every history the two-bit predictor predicts taken exactly when a counter of the outcomes, saturating at 0 and 3, is at least 2 |
| BranchPrediction.HysteresisRepeats | src/machine/predictor.cpp:477-539 | for every history the predictor with hysteresis changes its prediction exactly when the same contrary outcome comes twice in a row |
| BranchPrediction.IndexInTableIff | src/machine/predictor.cpp:87-118 | for every configuration of up to eight bits each and fewer than sixteen together, every reachable history-table index is in range if and only if the history has fewer than eight bits |
| BranchPrediction.BufferIndexInRange | src/machine/predictor.cpp:148-150 | every target-buffer index is in range |
| BranchPrediction.SumOfUpdate | src/machine/predictor.cpp:264-279 | counting in one row counts in the sum of the rows |

## Left out

- Text: scanning characters into instruction words, mnemonics or expression tokens, and the machine-code decode tables; instructions and tokens are values, and the flag table is given per instruction.
- Expressions.Parse: the linked tree is a value rebuilt along its right spine, so pointer sharing and the leak of a displaced node are not captured; priorities are unbounded, so nesting past 21 million parentheses is not; division by zero has no value.
- Illegal CSR accesses: a read or write of a missing or insufficiently privileged CSR stops the simulator; here reads and writes are total, and a write to a read-only CSR does nothing.
- Unaligned jumps: storing an unaligned program counter stops the simulator; here any address can be stored.
- Illegal instructions: they stop the simulator; here they have no effect but the advance of the program counter.
- Registers above XLEN: words are compared modulo 2^XLEN, so the upper halves of RV32 registers are not captured, which the 64-bit atomics that the tables admit on RV32 could show.
- Memory hierarchy: caches, TLBs, page walks and peripherals are one byte memory with faults decided by address, access, level and CSRs; the program image does not change during a run.
- Asynchronous interrupts: a fetch takes the interrupt that the CSRs and the level request, so interrupts made pending by CSR writes are in all runs; peripherals that raise one during a run are not, and mcycle is not counted in the cores, since timing differs between them by design.
- Operating-system emulation and custom exception handlers, signals, visualization fields, logging and ownership.
- Spans: the bytes of an access are numbers modulo 2^64, while memory is indexed by 64-bit words; what an access does to memory is stated in MemoryMeaning.
- Cores.CorePipelined.DoStep: cycle and stall counters are unbounded.
- BranchPrediction.BranchPredictor.Update: counters are unbounded; accuracy percentages and the total of jumps and mispredictions are not modelled.
- BranchPrediction.BranchPredictor.constructor: demands fewer than sixteen table index bits, since at sixteen the code's clearing loops do not end.
- SubwordAccess.WriteBy: a reported change is not claimed to be visible at the end, since a span beyond 2^32 can overwrite its own bytes.
- MemoryBus: removal of devices, ownership and change notification.
- Cache, TLB and page-table code, the GUI, the command line and the program loader.
