/** The two cores as objects that update registers, CSRs, memory and interstage registers in place. */
module Cores {
  import opened Words
  import opened MachineDefs
  import opened CsrFunctions
  import opened StatusStack
  import opened InstructionSet
  import opened Stages
  import opened RegisterFiles
  import opened ControlRegisters

  /** What both cores share: the architectural state and the stages that change it. */
  class Core {
    const env: Env
    const regs: RegisterFile
    const csr: ControlState
    var memory: Memory
    var privilege: Privilege
    var checkMask: FlagMask
    var reserved: AddressRange

    ghost predicate Valid()
      reads csr.registerData
    {
      regs.Valid() && csr.Valid() && csr.xlen == env.xlen && regs.gp != csr.registerData
    }

    ghost function ControlPart(): Control
      requires Valid()
      reads this, csr.registerData
    {
      Control(csr.Contents(), privilege, checkMask, reserved)
    }

    ghost function Arch(): ArchState
      requires Valid()
      reads this, regs, regs.gp, csr.registerData
    {
      ArchState(regs.pc, regs.Contents(), memory, ControlPart())
    }

    /** Reset: machine level, nothing reserved. */
    constructor (env: Env, memory: Memory)
      ensures Valid() && fresh(regs) && fresh(regs.gp) && fresh(csr) && fresh(csr.registerData)
      ensures this.env == env && this.memory == memory && regs.pc == PC_INIT
      ensures ControlPart()
              == Control(ResetFile(env.xlen), Machine, FlagMask(MaskAt(UnsupportedFlags(env), Machine)), EMPTY_RANGE)
    {
      this.env := env;
      this.memory := memory;
      regs := new RegisterFile();
      csr := new ControlState(env.xlen);
      privilege := Machine;
      checkMask := FlagMask(MaskAt(UnsupportedFlags(env), Machine));
      reserved := EMPTY_RANGE;
    }

    method SetCurrentPrivilege(p: Privilege)
      requires Valid()
      modifies `privilege, `checkMask
      ensures ControlPart() == Stages.SetCurrentPrivilege(old(ControlPart()), p)
    {
      privilege := p;
      checkMask := FlagMask(MaskAt(checkMask.bits, p));
    }

    /** Load-reserved, store-conditional, atomic read-modify-write and fences. */
    method MemorySpecial(s: Signals, aluVal: Word, rt: Word, fault: bool) returns (value: Word, faulted: bool)
      modifies `memory, `reserved
      ensures Access(memory, reserved, value, faulted)
              == SpecialAccess(old(memory), old(reserved), s, aluVal, rt, fault)
    {
      hide WriteBytes, Read32, Read64, AmoOperation32, AmoOperation64, SignExtend32, RangeAt;
      value, faulted := aluVal, false;
      match s.memctl
      case LoadReserved(wide) =>
        if s.memread {
          reserved := RangeAt(aluVal, wide);
          if fault {
            return ZERO, true;
          }
          value := Word(if wide then Read64(memory, aluVal.bits) else SignExtend32(Read32(memory, aluVal.bits)));
        }
      case StoreConditional(wide) =>
        if s.memwrite {
          if reserved.Contains(RangeAt(aluVal, wide)) {
            if fault {
              return ZERO, true;
            }
            memory := WriteBytes(memory, aluVal.bits, if wide then 8 else 4, rt.bits);
            value := ZERO;
          } else {
            value := Word(1);
          }
          reserved := EMPTY_RANGE;
        }
      case AmoModify(op, wide) =>
        if s.memread && s.memwrite {
          if fault {
            return ZERO, true;
          }
          if wide {
            var fetched := Read64(memory, aluVal.bits);
            memory := WriteBytes(memory, aluVal.bits, 8, AmoOperation64(op, fetched, rt.bits));
            value := Word(fetched);
          } else {
            var fetched := Read32(memory, aluVal.bits);
            memory := WriteBytes(memory, aluVal.bits, 4, AmoOperation32(op, fetched, rt.bits));
            value := Word(SignExtend32(fetched));
          }
        }
      case SfenceVma => reserved := EMPTY_RANGE;
      case _ =>
    }

    method AccessData(dt: ExecuteInterstage) returns (value: Word, faulted: bool)
      requires Valid()
      modifies `memory, `reserved
      ensures Access(memory, reserved, value, faulted) == DataAccess(env, old(memory), old(ControlPart()), dt)
    {
      hide SpecialAccess, WriteCtl, ReadCtl;
      value, faulted := dt.aluVal, false;
      if dt.excause == NoException {
        var op := if dt.signals.memwrite || dt.signals.amo then WriteOp else ReadOp;
        var fault := env.dataFault(dt.aluVal, op, privilege, csr.registerData[..]);
        if dt.signals.memctl.IsSpecial() {
          value, faulted := MemorySpecial(dt.signals, dt.aluVal, dt.valRt, fault);
        } else if dt.signals.memctl.IsRegular() {
          if fault && (dt.signals.memwrite || dt.signals.memread) {
            return ZERO, true;
          }
          if dt.signals.memwrite {
            memory := WriteCtl(memory, dt.signals.memctl, dt.aluVal.bits, dt.valRt.bits);
          }
          if dt.signals.memread {
            value := Word(ReadCtl(memory, dt.signals.memctl, dt.aluVal.bits));
          }
        }
      }
    }

    /** CSR write and trap return of a committing instruction. */
    method Commit(dt: ExecuteInterstage)
      requires Valid()
      modifies `privilege, `checkMask, `reserved, csr.registerData
      ensures Valid() && ControlPart() == ControlAfter(env, old(ControlPart()), old(reserved), dt)
    {
      hide CsrFunctions.WriteInternal, CsrFunctions.ExceptionReturn, Aliased, MaskAt;
      if Commits(dt) {
        csr.IncrementInternal(MINSTRET, 1);
        if dt.signals.csrWrite && Writable(dt.inst.csr) {
          csr.WriteInternal(dt.inst.csr, dt.aluVal);
        }
        if dt.signals.xret {
          var restored := csr.ExceptionReturn(privilege, dt.signals.xretPrivilege);
          SetCurrentPrivilege(restored);
          reserved := EMPTY_RANGE;
        }
      }
    }

    method MemoryStage(dt: ExecuteInterstage) returns (w: MemoryInterstage)
      requires Valid()
      modifies `memory, `privilege, `checkMask, `reserved, csr.registerData
      ensures Valid()
      ensures MemoryOutcome(memory, ControlPart(), w) == Stages.MemoryStage(env, old(memory), old(ControlPart()), dt)
    {
      hide DataAccess, ControlAfter, ComputedNextInstAddr, WritebackValue, Truncate, Aliased;
      ghost var c := ControlPart();
      var value, faulted := AccessData(dt);
      ReservedReplaced(env, c, reserved, dt);
      Commit(dt);
      var next := ComputedNextInstAddr(dt);
      if Commits(dt) && dt.signals.xret {
        next := Truncate(env.xlen, csr.registerData[if dt.signals.xretPrivilege == Machine then MEPC else SEPC]);
      }
      w := MemoryInterstage(
        dt.inst, dt.instAddr, dt.nextInstAddr, dt.predictedNextInstAddr, next, dt.aluVal,
        WritebackValue(env, dt, value),
        FaultCause(dt, faulted), dt.numRd, dt.signals.regwrite && dt.excause == NoException && !faulted, dt.isValid,
        Commits(dt) && (dt.signals.csrWrite || dt.signals.xret));
    }

    method WritebackStage(dt: MemoryInterstage)
      requires Valid()
      modifies regs.gp
      ensures Valid() && Arch() == old(Arch()).(regs := Writeback(old(Arch().regs), dt))
    {
      hide Aliased;
      if dt.regwrite {
        regs.WriteGp(dt.numRd, dt.towriteVal);
      }
    }

    method RecordTrap(dt: MemoryInterstage, toS: bool)
      requires Valid()
      modifies csr.registerData
      ensures Valid() && csr.Contents() == Stages.RecordTrap(env, old(ControlPart()), dt, toS)
    {
      hide CsrFunctions.WriteInternal, CsrFunctions.UpdateExceptionCause, Aliased;
      csr.WriteInternal(if toS then SEPC else MEPC, dt.instAddr);
      csr.WriteInternal(if toS then STVAL else MTVAL, if RecordsAddress(dt.excause) then dt.memAddr else ZERO);
      csr.UpdateExceptionCause(dt.excause, if toS then Supervisor else privilege);
    }

    method EnterHandler(target: Privilege)
      requires Valid()
      modifies `privilege, `checkMask, regs`pc, csr.registerData
      ensures Valid() && (ControlPart(), regs.pc) == Stages.EnterHandler(env, old(ControlPart()), target)
    {
      hide CsrFunctions.ExceptionInitiate, Aliased, MaskAt;
      csr.ExceptionInitiate(privilege, target);
      SetCurrentPrivilege(target);
      regs.WritePc(csr.registerData[if target == Supervisor then STVEC else MTVEC]);
    }

    /** Delivers an exception; the caller has stored the address to continue from in the program counter. */
    method HandleException(dt: MemoryInterstage)
      requires Valid() && regs.pc == dt.computedNextInstAddr
      modifies `privilege, `checkMask, `reserved, regs`pc, csr.registerData
      ensures Valid()
      ensures (ControlPart(), regs.pc) == Stages.HandleException(env, old(ControlPart()), dt)
    {
      hide Stages.RecordTrap, Stages.EnterHandler, Aliased, BitSet;
      if dt.excause == InsnIllegal {
        return;
      }
      if dt.excause == HwBreak {
        regs.WritePc(dt.instAddr);
        if env.stopOn(HwBreak) {
          return;
        }
      }
      var toS := if dt.excause.IsInterrupt() then dt.excause == InterruptS
                 else (privilege == Supervisor || privilege == Unprivileged)
                      && BitSet(csr.registerData[MEDELEG].bits, dt.excause.Code());
      RecordTrap(dt, toS);
      reserved := EMPTY_RANGE;
      if csr.registerData[if toS then STVEC else MTVEC] != ZERO && !env.stepOver(dt.excause) {
        EnterHandler(if toS then Supervisor else Machine);
      }
    }
  }

  lemma ReservedReplaced(env: Env, c: Control, r: AddressRange, dt: ExecuteInterstage)
    ensures ControlAfter(env, c.(reserved := r), r, dt) == ControlAfter(env, c, r, dt)
  {
    hide WriteInternal, ExceptionReturn;
  }

  lemma HazardsKeepCause(hu: HazardUnit, w: MemoryInterstage, e: ExecuteInterstage, d: DecodeInterstage)
    ensures DataHazards(hu, w, e, d).1.excause == d.excause
  {
    hide HazardWith;
  }

  class CoreSingle {
    const core: Core

    constructor (core: Core)
      ensures this.core == core
    {
      this.core := core;
    }

    /** One instruction, all stages in one go. */
    method DoStep(predicted: Word)
      requires core.Valid()
      modifies core, core.regs, core.regs.gp, core.csr.registerData
      ensures core.Valid() && core.Arch() == SingleStep(core.env, old(core.Arch()), predicted)
    {
      hide Stages.MemoryStage, Stages.HandleException, Decode, Execute, FetchAt, Aliased, Writeback;
      ghost var s := core.Arch();
      var csrs: CsrFile := core.csr.registerData[..];
      var control := Control(csrs, core.privilege, core.checkMask, core.reserved);
      var fetched := FetchAt(core.env, control, core.regs.pc, predicted);
      var decoded := Decode(core.env, core.regs.gp[..], control, fetched);
      var executed := Execute(core.env, decoded);
      var w := core.MemoryStage(executed);
      core.WritebackStage(w);
      core.regs.WritePc(w.computedNextInstAddr);
      if w.excause != NoException {
        core.HandleException(w);
      }
    }
  }

  class CorePipelined {
    const core: Core
    var stopIf: bool
    var ifId: FetchInterstage
    var idEx: DecodeInterstage
    var exMem: ExecuteInterstage
    var memWb: MemoryInterstage
    var stallCount: nat
    var cycleCount: nat

    ghost function State(): PipeState
      requires core.Valid()
      reads this, core, core.regs, core.regs.gp, core.csr.registerData
    {
      var a := core.Arch();
      PipeState(a.pc, a.regs, a.memory, a.control, stopIf, ifId, idEx, exMem, memWb, stallCount, cycleCount)
    }

    constructor (core: Core)
      requires core.Valid()
      ensures this.core == core && State() == PipeReset(core.Arch())
    {
      this.core := core;
      stopIf := false;
      ifId, idEx, exMem, memWb := FLUSHED_FETCH, FLUSHED_DECODE, FLUSHED_EXECUTE, FLUSHED_MEMORY;
      stallCount, cycleCount := 0, 0;
    }

    /** All five stages, oldest first, each into its interstage register. */
    method RunStages()
      requires core.Valid()
      modifies this, core, core.regs.gp, core.csr.registerData
      ensures core.Valid()
      ensures
        var p := old(State());
        var regs, out := Writeback(p.regs, p.memWb), Stages.MemoryStage(core.env, p.memory, p.control, p.exMem);
        State() == PipeState(p.pc, regs, out.memory, out.control, p.stopIf,
                             Fetch(core.env, out.control, p.pc, p.cycleCount + 1, p.stopIf),
                             Decode(core.env, regs, out.control, p.ifId), Execute(core.env, p.idEx), out.interstage,
                             p.stallCount, p.cycleCount + 1)
    {
      hide Stages.MemoryStage, Decode, Execute, Fetch, Aliased, Writeback;
      cycleCount := cycleCount + 1;
      core.WritebackStage(memWb);
      memWb := core.MemoryStage(exMem);
      exMem := Execute(core.env, idEx);
      var csrs: CsrFile := core.csr.registerData[..];
      var control := Control(csrs, core.privilege, core.checkMask, core.reserved);
      idEx := Decode(core.env, core.regs.gp[..], control, ifId);
      ifId := Fetch(core.env, control, core.regs.pc, cycleCount, stopIf);
    }

    /** Empties what is younger than an exception. */
    method FlushBehindExceptions() returns (inProgress: bool)
      requires core.Valid()
      modifies `ifId, `idEx, `exMem
      ensures
        var p := old(State());
        var e := if p.memWb.excause != NoException then FLUSHED_EXECUTE else p.exMem;
        var d := if p.memWb.excause != NoException || e.excause != NoException then FLUSHED_DECODE else p.idEx;
        && inProgress == (p.memWb.excause != NoException || e.excause != NoException || d.excause != NoException)
        && State() == p.(exMem := e, idEx := d, ifId := if inProgress then FLUSHED_FETCH else p.ifId)
    {
      inProgress := memWb.excause != NoException;
      if inProgress {
        exMem := FLUSHED_EXECUTE;
      }
      inProgress := inProgress || exMem.excause != NoException;
      if inProgress {
        idEx := FLUSHED_DECODE;
      }
      inProgress := inProgress || idEx.excause != NoException;
      if inProgress {
        ifId := FLUSHED_FETCH;
      }
    }

    method HandleDataHazards() returns (stall: bool)
      modifies `idEx
      ensures (stall, idEx) == DataHazards(core.env.hazardUnit, memWb, exMem, old(idEx))
    {
      stall := false;
      var hu := core.env.hazardUnit;
      if hu == HuNone {
        return;
      }
      if HazardWith(memWb.regwrite, memWb.numRd, idEx) {
        if hu == HuStallForward {
          if idEx.signals.aluReqRs && memWb.numRd == idEx.numRs {
            idEx := idEx.(valRs := memWb.towriteVal);
          }
          if idEx.signals.aluReqRt && memWb.numRd == idEx.numRt {
            idEx := idEx.(valRt := memWb.towriteVal);
          }
        } else {
          stall := true;
        }
      }
      if HazardWith(exMem.signals.regwrite, exMem.numRd, idEx) {
        if hu == HuStallForward {
          if exMem.signals.memread {
            stall := true;
          } else {
            if idEx.signals.aluReqRs && exMem.numRd == idEx.numRs {
              idEx := idEx.(valRs := exMem.aluVal);
            }
            if idEx.signals.aluReqRt && exMem.numRd == idEx.numRt {
              idEx := idEx.(valRt := exMem.aluVal);
            }
          }
        } else {
          stall := true;
        }
      }
    }

    method FlushAndContinueFromAddress(next: Word)
      requires core.Valid()
      modifies `ifId, `idEx, `exMem, core.regs`pc
      ensures core.Valid() && State() == FlushAndContinue(old(State()), next)
    {
      hide Aliased;
      core.regs.WritePc(next);
      ifId, idEx, exMem := FLUSHED_FETCH, FLUSHED_DECODE, FLUSHED_EXECUTE;
    }

    method HandleStall(saved: FetchInterstage)
      requires core.Valid()
      modifies `ifId, `idEx, `stallCount
      ensures core.Valid() && State() == Stages.HandleStall(old(State()), saved)
    {
      hide Aliased;
      ifId, idEx := saved, FLUSHED_DECODE;
      stallCount := stallCount + 1;
    }

    /** All stages, and the flushes that exceptions ask for. */
    method AdvanceStages() returns (inProgress: bool)
      requires core.Valid()
      modifies this, core, core.regs.gp, core.csr.registerData
      ensures core.Valid() && State() == Advance(core.env, old(State()))
      ensures inProgress
              == (memWb.excause != NoException || exMem.excause != NoException || idEx.excause != NoException)
    {
      hide Stages.MemoryStage, Decode, Execute, Fetch, Aliased, Writeback;
      RunStages();
      inProgress := FlushBehindExceptions();
      stopIf := false;
    }

    /** Exceptions, redirections, stalls and the next program counter. */
    method ResolvePc(saved: FetchInterstage, inProgress: bool)
      requires core.Valid()
      requires inProgress
               == (memWb.excause != NoException || exMem.excause != NoException || idEx.excause != NoException)
      requires !stopIf
      modifies this, core, core.regs, core.csr.registerData
      ensures core.Valid() && State() == Resolve(core.env, old(State()), saved)
    {
      hide Stages.HandleException, Aliased, DataHazards;
      HazardsKeepCause(core.env.hazardUnit, memWb, exMem, idEx);
      var stall := HandleDataHazards();
      if memWb.excause != NoException {
        core.regs.WritePc(memWb.computedNextInstAddr);
        core.HandleException(memWb);
      } else if memWb.computedNextInstAddr != memWb.predictedNextInstAddr || memWb.csrWritten {
        FlushAndContinueFromAddress(memWb.computedNextInstAddr);
      } else if inProgress {
        stopIf := true;
      } else if stall || StallRequested(idEx, exMem) {
        HandleStall(saved);
      } else {
        core.regs.WritePc(ifId.predictedNextInstAddr);
      }
    }

    /** One cycle. */
    method DoStep()
      requires core.Valid()
      modifies this, core, core.regs, core.regs.gp, core.csr.registerData
      ensures core.Valid() && State() == PipeStep(core.env, old(State()))
    {
      hide Advance, Resolve, Aliased;
      var saved := ifId;
      AdvanceClears(core.env, State());
      var inProgress := AdvanceStages();
      ResolvePc(saved, inProgress);
    }
  }

  lemma AdvanceClears(env: Env, p: PipeState)
    ensures !Advance(env, p).stopIf
  {
    hide Stages.MemoryStage, Decode, Execute, Fetch, Writeback;
  }
}
