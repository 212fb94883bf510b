/**
 * The CSR file as an object: every method leaves what its specification function says and keeps the two
 * status copies aliased.
 */
module ControlRegisters {
  import opened Words
  import opened BitFields
  import opened MachineDefs
  import opened CsrFunctions
  import opened StatusStack

  class ControlState {
    const xlen: Xlen
    const registerData: array<Word>

    ghost predicate Valid()
      reads registerData
    {
      registerData.Length == COUNT && Aliased(xlen, registerData[..])
    }

    ghost function Contents(): CsrFile
      requires Valid()
      reads registerData
    {
      registerData[..]
    }

    constructor (xlen: Xlen)
      ensures Valid() && fresh(registerData) && this.xlen == xlen && Contents() == ResetFile(xlen)
    {
      this.xlen := xlen;
      registerData := new Word[COUNT](_ => ZERO);
      new;
      if xlen == Xlen32 {
        registerData[MISA] := Word(0x4000_0000);
      } else {
        registerData[MISA] := Word(0x8000_0000_0000_0000);
        registerData[MSTATUS] := Word(MSTATUS_UXL.Update(0, 2));
        registerData[MSTATUS] := Word(MSTATUS_SXL.Update(MSTATUS_UXL.Update(0, 2), 2));
      }
      assert registerData[..] == ResetFile(xlen);
      ResetAliased(xlen);
    }

    method DefaultWrite(id: CsrId, val: Word)
      requires registerData.Length == COUNT
      modifies registerData
      ensures registerData[..]
              == old(registerData[..])[id := CsrFunctions.DefaultWrite(xlen, WriteMask(id), old(registerData[id]), val)]
    {
      registerData[id] := CsrFunctions.DefaultWrite(xlen, WriteMask(id), registerData[id], val);
    }

    method MstatusWrite(val: Word)
      requires registerData.Length == COUNT
      modifies registerData
      ensures registerData[..] == CsrFunctions.MstatusWrite(xlen, old(registerData[..]), val)
    {
      DefaultWrite(MSTATUS, val);
      registerData[SSTATUS] := Word(Shown(xlen, registerData[MSTATUS].bits));
    }

    method SstatusWrite(val: Word)
      requires registerData.Length == COUNT
      modifies registerData
      ensures registerData[..] == CsrFunctions.SstatusWrite(xlen, old(registerData[..]), val)
    {
      var mstatusVal := Merged(xlen, registerData[MSTATUS].bits, val.bits);
      registerData[MSTATUS] := Word(mstatusVal);
      registerData[SSTATUS] := Word(Shown(xlen, mstatusVal));
    }

    method SatpWrite(val: Word)
      requires registerData.Length == COUNT
      modifies registerData
      ensures registerData[..] == CsrFunctions.SatpWrite(xlen, old(registerData[..]), val)
    {
      var value := val;
      if xlen == Xlen32 {
        value := Truncate(Xlen32, val);
      } else if !ValidSatpMode(val.bits) {
        value := Word(Select(0x0fff_ffff_ffff_ffff, val.bits));
      }
      registerData[SATP] := value;
    }

    method McycleWrite(val: Word)
      requires registerData.Length == COUNT
      modifies registerData
      ensures registerData[..] == old(registerData[..])[MCYCLE := val][CYCLE := val]
    {
      registerData[MCYCLE] := val;
      registerData[CYCLE] := val;
    }

    /** Dispatch to the write handler of the register. */
    method WriteInternal(id: CsrId, val: Word)
      requires Valid() && Writable(id)
      modifies registerData
      ensures Valid() && Contents() == CsrFunctions.WriteInternal(xlen, old(Contents()), id, val)
    {
      hide Aliased, Merged, Shown, WriteMask;
      WriteKeepsAlias(xlen, registerData[..], id, val);
      if id == MSTATUS {
        MstatusWrite(val);
      } else if id == SSTATUS {
        SstatusWrite(val);
      } else if id == SATP {
        SatpWrite(val);
      } else if id == MCYCLE {
        McycleWrite(val);
      } else {
        DefaultWrite(id, val);
      }
    }

    method IncrementInternal(id: CsrId, amount: bv64)
      requires Valid() && Writable(id)
      modifies registerData
      ensures Valid()
      ensures Contents() == CsrFunctions.WriteInternal(xlen, old(Contents()), id, Offset(old(Contents())[id], amount))
    {
      hide Aliased, CsrFunctions.WriteInternal;
      WriteInternal(id, Offset(registerData[id], amount));
    }

    method WriteField(field: StatusField, val: bv64)
      requires Valid()
      modifies registerData
      ensures Valid() && Contents() == CsrFunctions.WriteField(xlen, old(Contents()), field, val)
    {
      hide Aliased, CsrFunctions.WriteInternal;
      WriteInternal(field.reg, Word(field.Update(registerData[field.reg].bits, val)));
    }

    method ReadField(field: StatusField) returns (v: bv64)
      requires Valid()
      ensures v == CsrFunctions.ReadField(Contents(), field)
    {
      v := field.bits.Decode64(registerData[field.reg].bits);
    }

    method UpdateExceptionCause(cause: ExceptionCause, to: Privilege)
      requires Valid()
      modifies registerData
      ensures Valid() && Contents() == CsrFunctions.UpdateExceptionCause(xlen, old(Contents()), cause, to)
    {
      hide InterruptCause;
      var value := Word(cause.Code());
      if cause.IsInterrupt() {
        var mie, mip := registerData[MIE], registerData[MIP];
        if to == Supervisor {
          mie, mip := registerData[SIE], registerData[SIP];
        }
        value := InterruptCause(xlen, mie, mip);
      }
      registerData[if to == Machine then MCAUSE else SCAUSE] := value;
    }

    method SetInterruptSignal(irq: nat, active: bool)
      requires Valid()
      modifies registerData
      ensures Valid() && Contents() == CsrFunctions.SetInterruptSignal(old(Contents()), irq, active)
    {
      hide Select, Masked;
      if irq >= 32 {
        return;
      }
      var mask := ShiftedLeft(1, irq as bv6);
      var mip := Masked(mask, registerData[MIP].bits, if active then mask else 0);
      registerData[MIP] := Word(mip);
      registerData[SIP] := Word(Select(registerData[MIDELEG].bits, mip));
    }

    method ExceptionInitiate(act: Privilege, to: Privilege)
      requires Valid()
      modifies registerData
      ensures Valid() && Contents() == CsrFunctions.ExceptionInitiate(xlen, old(Contents()), act, to)
    {
      hide Aliased, CsrFunctions.WriteField, CsrFunctions.ReadField;
      if to == Machine {
        var mie := ReadField(MSTATUS_MIE);
        WriteField(MSTATUS_MPIE, mie);
        WriteField(MSTATUS_MIE, 0);
        WriteField(MSTATUS_MPP, PrivilegeBits(act));
      } else {
        var sie := ReadField(SSTATUS_SIE);
        WriteField(SSTATUS_SPIE, sie);
        WriteField(SSTATUS_SIE, 0);
        WriteField(SSTATUS_SPP, if act == Supervisor then 1 else 0);
      }
    }

    method ExceptionReturn(act: Privilege, xret: Privilege) returns (restored: Privilege)
      requires Valid()
      modifies registerData
      ensures Valid() && (Contents(), restored) == CsrFunctions.ExceptionReturn(xlen, old(Contents()), act, xret)
    {
      hide Aliased, CsrFunctions.WriteField, CsrFunctions.ReadField, PrivilegeOfBits, Select;
      if xret == Machine {
        var mpie := ReadField(MSTATUS_MPIE);
        WriteField(MSTATUS_MIE, mpie);
        WriteField(MSTATUS_MPIE, 1);
        var mpp := ReadField(MSTATUS_MPP);
        restored := PrivilegeOfBits(Select(3, mpp));
        WriteField(MSTATUS_MPP, 0);
      } else if xret == Supervisor {
        var spie := ReadField(MSTATUS_SPIE);
        WriteField(MSTATUS_SIE, spie);
        WriteField(MSTATUS_SPIE, 1);
        var spp := ReadField(MSTATUS_SPP);
        restored := if Select(1, spp) == 1 then Supervisor else Unprivileged;
        WriteField(MSTATUS_SPP, 0);
      } else {
        restored := Unprivileged;
      }
      if act == Machine && restored != Machine {
        WriteField(MSTATUS_MPRV, 0);
      }
    }
  }
}
