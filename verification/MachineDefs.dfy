/** Enumerations shared by the core, the CSR file and the memory interface. */
module MachineDefs {
  datatype ExceptionCause =
    | NoException
    | InsnFault | InsnIllegal | Break
    | LoadMisaligned | LoadFault | StoreMisaligned | StoreFault
    | EcallU | EcallS | Reserved10 | EcallM
    | InsnPageFault | LoadPageFault | Reserved14 | StorePageFault
    | HwBreak | EcallAny | InterruptM | InterruptS
  {
    function Code(): bv64 {
      match this
      case NoException => 0
      case InsnFault => 1
      case InsnIllegal => 2
      case Break => 3
      case LoadMisaligned => 4
      case LoadFault => 5
      case StoreMisaligned => 6
      case StoreFault => 7
      case EcallU => 8
      case EcallS => 9
      case Reserved10 => 10
      case EcallM => 11
      case InsnPageFault => 12
      case LoadPageFault => 13
      case Reserved14 => 14
      case StorePageFault => 15
      case HwBreak => 16
      case EcallAny => 17
      case InterruptM => 18
      case InterruptS => 19
    }

    predicate IsInterrupt() {
      this == InterruptM || this == InterruptS
    }
  }

  datatype AccessOp = FetchOp | ReadOp | WriteOp

  datatype AmoOp = AmoSwap | AmoAdd | AmoXor | AmoAnd | AmoOr | AmoMin | AmoMax | AmoMinU | AmoMaxU

  /** The regular accesses, the special ones and the memory no-operation. */
  datatype AccessControl =
    | AccessNone
    | AccessI8 | AccessU8 | AccessI16 | AccessU16 | AccessI32 | AccessU32 | AccessI64 | AccessU64
    | LoadReserved(wide: bool)
    | StoreConditional(wide: bool)
    | AmoModify(amo: AmoOp, wide: bool)
    | SfenceVma
    | CacheOp
  {
    predicate IsSpecial() {
      LoadReserved? || StoreConditional? || AmoModify? || SfenceVma? || CacheOp?
    }

    predicate IsRegular() {
      !AccessNone? && !IsSpecial()
    }
  }
}
