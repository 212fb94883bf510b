/** The general purpose registers and the program counter as the cores update them. */
module RegisterFiles {
  import opened Words
  import opened InstructionSet
  import opened Stages

  const PC_INIT := Word(0x200)
  const SP_INIT := Word(0xbfff_ff00)

  class RegisterFile {
    const gp: array<Word>
    var pc: Word

    ghost predicate Valid() {
      gp.Length == 32
    }

    ghost function Contents(): Registers
      requires Valid()
      reads gp
    {
      gp[..]
    }

    constructor ()
      ensures Valid() && fresh(gp) && pc == PC_INIT
      ensures forall r: RegisterId :: Stages.ReadGp(Contents(), r) == if r == 2 then SP_INIT else ZERO
    {
      gp := new Word[32];
      new;
      Reset();
    }

    /** Register zero reads as zero. */
    method ReadGp(r: RegisterId) returns (v: Word)
      requires Valid()
      ensures v == Stages.ReadGp(Contents(), r) && (r == 0 ==> v == ZERO)
    {
      if r == 0 {
        return ZERO;
      }
      return gp[r];
    }

    method WriteGp(r: RegisterId, v: Word)
      requires Valid()
      modifies gp
      ensures Contents() == Stages.WriteGp(old(Contents()), r, v)
      ensures forall q: RegisterId ::
                Stages.ReadGp(Contents(), q) == if q == r != 0 then v else Stages.ReadGp(old(Contents()), q)
    {
      if r == 0 {
        return;
      }
      gp[r] := v;
    }

    method WritePc(address: Word)
      modifies `pc
      ensures pc == address
    {
      pc := address;
    }

    method Reset()
      requires Valid()
      modifies this, gp
      ensures pc == PC_INIT
      ensures forall r: RegisterId :: Stages.ReadGp(Contents(), r) == if r == 2 then SP_INIT else ZERO
    {
      WritePc(PC_INIT);
      var i := 1;
      while i < 32
        invariant 1 <= i <= 32 && pc == PC_INIT
        invariant forall r :: 1 <= r < i ==> gp[r] == ZERO
      {
        WriteGp(i, ZERO);
        assert forall r :: 1 <= r < i ==> Contents()[r] == ZERO;
        i := i + 1;
      }
      assert forall r :: 1 <= r < 32 ==> Contents()[r] == ZERO;
      WriteGp(2, SP_INIT);
    }
  }
}
