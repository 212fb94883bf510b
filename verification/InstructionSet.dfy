/** Decoded instructions and the flag table the pipeline stages read. */
module InstructionSet {
  import opened Words
  import opened Alu
  import opened MachineDefs
  import opened CsrFunctions

  type RegisterId = r: nat | r < 32 witness 0

  datatype LoadKind = LB | LH | LW | LD | LBU | LHU | LWU
  datatype StoreKind = SB | SH | SW | SD
  datatype BranchKind = BEQ | BNE | BLT | BGE | BLTU | BGEU
  datatype CsrKind = CSRRW | CSRRS | CSRRC

  /** Rows of the instruction tables; `word` marks the RV64 variants that work on 32 bits. */
  datatype Opcode =
    | OpImm(alu: AluOp, modified: bool, word: bool)
    | Op(alu: AluOp, modified: bool, word: bool)
    | OpMul(mul: MulOp, word: bool)
    | Lui | Auipc
    | Load(load: LoadKind)
    | Store(store: StoreKind)
    | Lr(wide: bool) | Sc(wide: bool) | Amo(amo: AmoOp, wide: bool)
    | Branch(branch: BranchKind) | Jal | Jalr
    | Csr(csrKind: CsrKind, immediate: bool)
    | Mret | Sret | Wfi | Sfence | Fence | Ecall | Ebreak
    | Unknown

  datatype Instruction =
    Instruction(opcode: Opcode, rd: RegisterId, rs: RegisterId, rt: RegisterId, immediate: Word, csr: CsrId)

  /** addi x0, x0, 0 */
  const NOP := Instruction(OpImm(ADD, false, false), 0, 0, 0, ZERO, 0)

  type Flags = bv32
  const IMF_SUPPORTED: Flags := 0x0000_0001
  const IMF_MEMWRITE: Flags := 0x0000_0002
  const IMF_MEMREAD: Flags := 0x0000_0004
  const IMF_ALUSRC: Flags := 0x0000_0008
  const IMF_REGWRITE: Flags := 0x0000_0010
  const IMF_MEM: Flags := 0x0000_0020
  const IMF_ALU_REQ_RS: Flags := 0x0000_0040
  const IMF_ALU_REQ_RT: Flags := 0x0000_0080
  const IMF_BRANCH: Flags := 0x0000_0100
  const IMF_JUMP: Flags := 0x0000_0200
  const IMF_BJ_NOT: Flags := 0x0000_0400
  const IMF_BRANCH_JALR: Flags := 0x0000_0800
  const IMF_EXCEPTION: Flags := 0x0000_1000
  const IMF_ALU_MOD: Flags := 0x0000_2000
  const IMF_PC_TO_ALU: Flags := 0x0000_4000
  const IMF_FORCE_W_OP: Flags := 0x0000_8000
  const IMF_ECALL: Flags := 0x0001_0000
  const IMF_EBREAK: Flags := 0x0002_0000
  const IMF_XRET: Flags := 0x0004_0000
  const IMF_MUL: Flags := 0x0008_0000
  const IMF_CSR: Flags := 0x0010_0000
  const IMF_CSR_TO_ALU: Flags := 0x0020_0000
  const IMF_ALU_RS_ID: Flags := 0x0040_0000
  const IMF_AMO: Flags := 0x0080_0000
  const IMF_RV64: Flags := 0x0100_0000
  const IMF_PRIV_S: Flags := 0x0200_0000
  const IMF_PRIV_H: Flags := 0x0400_0000
  const IMF_PRIV_M: Flags := 0x0800_0000

  const FLAGS_ALU_I: Flags := IMF_SUPPORTED | IMF_ALUSRC | IMF_REGWRITE | IMF_ALU_REQ_RS
  const FLAGS_ALU_I_LOAD: Flags := FLAGS_ALU_I | IMF_MEMREAD | IMF_MEM
  const FLAGS_ALU_I_STORE: Flags :=
    IMF_SUPPORTED | IMF_ALUSRC | IMF_MEMWRITE | IMF_MEM | IMF_ALU_REQ_RS | IMF_ALU_REQ_RT
  const FLAGS_ALU_T_R_D: Flags := IMF_SUPPORTED | IMF_REGWRITE
  const FLAGS_ALU_T_R_STD: Flags := FLAGS_ALU_T_R_D | IMF_ALU_REQ_RS | IMF_ALU_REQ_RT
  const FLAGS_AMO_LOAD: Flags := FLAGS_ALU_I_LOAD | IMF_AMO
  const FLAGS_AMO_STORE: Flags := FLAGS_ALU_I_STORE | FLAGS_ALU_T_R_D | IMF_AMO | IMF_MEMREAD
  const FLAGS_AMO_MODIFY: Flags := FLAGS_ALU_I_LOAD | FLAGS_AMO_STORE | IMF_AMO
  const FLAGS_BRANCH: Flags := IMF_SUPPORTED | IMF_BRANCH | IMF_ALU_REQ_RS | IMF_ALU_REQ_RT

  function If(b: bool, flags: Flags): Flags {
    if b then flags else 0
  }

  function FlagsOf(op: Opcode): Flags {
    match op
    case OpImm(_, modified, word) => FLAGS_ALU_I | If(modified, IMF_ALU_MOD) | If(word, IMF_FORCE_W_OP | IMF_RV64)
    case Op(_, modified, word) => FLAGS_ALU_T_R_STD | If(modified, IMF_ALU_MOD) | If(word, IMF_FORCE_W_OP | IMF_RV64)
    case OpMul(_, word) => FLAGS_ALU_T_R_STD | IMF_MUL | If(word, IMF_FORCE_W_OP | IMF_RV64)
    case Lui => IMF_SUPPORTED | IMF_ALUSRC | IMF_REGWRITE
    case Auipc => IMF_SUPPORTED | IMF_ALUSRC | IMF_REGWRITE | IMF_PC_TO_ALU
    case Load(kind) => FLAGS_ALU_I_LOAD | If(kind == LD || kind == LWU, IMF_RV64)
    case Store(kind) => FLAGS_ALU_I_STORE | If(kind == SD, IMF_RV64)
    case Lr(_) => FLAGS_AMO_LOAD
    case Sc(_) => FLAGS_AMO_STORE
    case Amo(amo, wide) => FLAGS_AMO_MODIFY | If(wide && amo != AmoAdd && amo != AmoSwap, IMF_RV64)
    case Branch(BEQ) => FLAGS_BRANCH | IMF_ALU_MOD
    case Branch(BNE) => FLAGS_BRANCH | IMF_ALU_MOD | IMF_BJ_NOT
    case Branch(BLT) => FLAGS_BRANCH | IMF_BJ_NOT
    case Branch(BGE) => FLAGS_BRANCH
    case Branch(BLTU) => FLAGS_BRANCH | IMF_BJ_NOT
    case Branch(BGEU) => FLAGS_BRANCH
    case Jal => IMF_SUPPORTED | IMF_REGWRITE | IMF_JUMP | IMF_PC_TO_ALU | IMF_ALUSRC
    case Jalr => IMF_SUPPORTED | IMF_REGWRITE | IMF_BRANCH_JALR | IMF_ALUSRC | IMF_ALU_REQ_RS
    case Csr(kind, immediate) =>
      IMF_SUPPORTED | IMF_CSR | IMF_REGWRITE | IMF_ALU_REQ_RS | If(immediate, IMF_ALU_RS_ID)
      | If(kind != CSRRW, IMF_CSR_TO_ALU) | If(kind == CSRRC, IMF_ALU_MOD)
    case Mret => IMF_SUPPORTED | IMF_XRET | IMF_PRIV_M
    case Sret => IMF_SUPPORTED | IMF_XRET | IMF_PRIV_S
    case Wfi => IMF_SUPPORTED
    case Sfence => IMF_SUPPORTED | IMF_PRIV_S
    case Fence => IMF_SUPPORTED | IMF_MEM
    case Ecall => IMF_SUPPORTED | IMF_EXCEPTION | IMF_ECALL
    case Ebreak => IMF_SUPPORTED | IMF_EXCEPTION | IMF_EBREAK
    case Unknown => 0
  }

  function AluOf(op: Opcode): Component {
    match op
    case OpImm(alu, _, _) => BasicAlu(alu)
    case Op(alu, _, _) => BasicAlu(alu)
    case OpMul(mul, _) => Multiplier(mul)
    case Lr(_) => Pass
    case Sc(_) => Pass
    case Amo(_, _) => Pass
    case Branch(kind) => BasicAlu(match kind
                                  case BEQ => ADD
                                  case BNE => ADD
                                  case BLT => SLT
                                  case BGE => SLT
                                  case BLTU => SLTU
                                  case BGEU => SLTU)
    case Csr(CSRRS, _) => BasicAlu(OR)
    case Csr(CSRRC, _) => BasicAlu(AND)
    case _ => BasicAlu(ADD)
  }

  function AccessOf(op: Opcode): AccessControl {
    match op
    case Load(LB) => AccessI8
    case Load(LH) => AccessI16
    case Load(LW) => AccessI32
    case Load(LD) => AccessI64
    case Load(LBU) => AccessU8
    case Load(LHU) => AccessU16
    case Load(LWU) => AccessU32
    case Store(SB) => AccessU8
    case Store(SH) => AccessU16
    case Store(SW) => AccessU32
    case Store(SD) => AccessU64
    case Lr(wide) => LoadReserved(wide)
    case Sc(wide) => StoreConditional(wide)
    case Amo(amo, wide) => AmoModify(amo, wide)
    case Sfence => SfenceVma
    case Fence => CacheOp
    case _ => AccessNone
  }
}
