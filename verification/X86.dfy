/** Decoded guest instructions. */
module X86 {
  import opened Words
  import opened Machine

  datatype OpKind =
    | Invalid | MovImm | MovRegReg | MovRegMem | MovMemReg
    | BinOpRegReg | BinOpRegImm | BinOpMemImm | BinOpMemReg
    | CmpRegImm | CmpRegReg | TestRegReg | Jmp | Jcc
    | Push | Pop | Lea | Call | Ret | Leave | Nop | Hlt | Syscall
    | ImulRegMem | ShiftRegImm

  datatype BinOp = BAdd | BSub | BAnd | BOr | BXor

  type Scale = x: int | x == 1 || x == 2 || x == 4 || x == 8 witness 1

  datatype Operand = Operand(isMem: bool, ripRel: bool, hasSib: bool, absSib: bool,
                             reg: Reg, scale: Scale, index: Reg, base: Reg,
                             disp: Int32, imm: Int64, width: Width)

  datatype Instruction = Instruction(kind: OpKind, binop: BinOp, dst: Operand, src: Operand,
                                     cc: Byte, target: Word, size: nat, pc: Word,
                                     zext: bool, sext: bool)

  /** The members' default values. */
  const NO_OPERAND: Operand := Operand(false, false, false, false, 0, 1, 0, 0, 0, 0, 8)

  const NO_INSTRUCTION: Instruction :=
    Instruction(Invalid, BAdd, NO_OPERAND, NO_OPERAND, 0, 0, 0, 0, false, false)
}
