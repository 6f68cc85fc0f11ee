/** Lowering decoded instructions to IR records, one for one. */
module Translator {
  import opened Words
  import opened StatusFlags
  import opened Machine
  import opened Ir
  import opened X86

  /** `map_binop`, and the number the IR record carries for it. */
  function MapBinOp(op: BinOp): (code: int)
    ensures 0 <= code < 5
  {
    match op
    case BAdd => 0
    case BSub => 1
    case BAnd => 2
    case BOr => 3
    case BXor => 4
  }

  /** The loop that counts the doublings from 1 up to the scale. */
  function ScaleBits(scale: Scale): (bits: int)
    ensures 0 <= bits < 4
  {
    if scale == 1 then 0 else if scale == 2 then 1 else if scale == 4 then 2 else 3
  }

  /** `aux | bit`, for a single bit. */
  function SetBit(aux: Byte, bit: int): (r: int)
    requires bit == 1 || bit == 0x10 || bit == 0x40 || bit == 0x80
    ensures 0 <= r < 256
  {
    if bit == 1 then (if aux % 2 == 1 then aux else aux + 1)
    else if bit == 0x10 then (if (aux / 0x10) % 2 == 1 then aux else aux + 0x10)
    else if bit == 0x40 then (if (aux / 0x40) % 2 == 1 then aux else aux + 0x40)
    else if aux >= 0x80 then aux else aux + 0x80
  }

  /** `6 | (scale_bits << 4)` */
  function SibAux(op: Operand): (aux: Byte) {
    6 + 16 * ScaleBits(op.scale)
  }

  const MEM_IMM_STORE: Byte := 0x10

  /** `encode_mem_addr`; `immStore` is the flag that the immediate is the value
      to store, `flags` the other flag bits (an operation number). */
  function EncodeMemAddr(i: Instr, op: Operand, flags: int, immStore: bool): Instr
    requires 0 <= flags < 5
  {
    var i1 := i.(dst := op.base, disp := Wrap32(op.disp));
    var aux0: Byte := if immStore then SetBit(flags, MEM_IMM_STORE) else flags;
    var aux1: Byte := if op.ripRel then SetBit(aux0, 1) else aux0;
    var aux2: Byte :=
      if op.hasSib then (if immStore then SetBit(SibAux(op), MEM_IMM_STORE) else SibAux(op)) else aux1;
    var i2 :=
      if !op.hasSib then i1
      else if immStore then i1.(src := op.index)
      else i1.(imm := op.index);
    i2.(aux := if op.absSib then SetBit(aux2, 0x40) else aux2)
  }

  function Make(op: Opcode): Instr {
    Instr(op, 8, 0, 0, 0, 0, 0)
  }

  /** The address fields of a load-like record: base in src. */
  function WithSource(i: Instr, op: Operand, aux: Byte): Instr {
    var i1 := i.(src := op.base, disp := Wrap32(op.disp));
    var i2 := if op.hasSib then i1.(imm := op.index, aux := SibAux(op)) else i1.(aux := aux);
    if op.absSib then i2.(aux := SetBit(i2.aux, 0x40)) else i2
  }

  function EmitLoad(insn: Instruction): Instr {
    var i := WithSource(Make(OpLoadMem).(dst := insn.dst.reg), insn.src, if insn.src.ripRel then 1 else 0);
    if insn.zext then
      i.(aux := if insn.src.hasSib then i.aux - i.aux % 16 + 6 else 4, width := 1)
    else if insn.sext then i.(aux := 5, width := 4)
    else i.(width := insn.dst.width)
  }

  function EmitLea(insn: Instruction): Instr {
    var i := Make(OpLea).(dst := insn.dst.reg);
    if insn.src.ripRel then
      i.(imm := Signed(insn.pc + insn.size + insn.src.disp, 8), aux := 3)
    else
      WithSource(i, insn.src, 0)
  }

  function EmitImul(insn: Instruction): Instr {
    var i := Make(OpImulReg).(dst := insn.dst.reg, width := insn.dst.width);
    if insn.src.isMem then
      var i1 := WithSource(i, insn.src, if insn.src.ripRel then 1 else 0);
      i1.(aux := SetBit(i1.aux, 0x80))
    else i.(src := insn.src.reg)
  }

  function EmitCompare(insn: Instruction): Instr {
    var i := Make(OpCmpReg).(width := insn.dst.width);
    if insn.src.isMem then
      i.(dst := insn.dst.reg, src := insn.src.base, disp := Wrap32(insn.src.disp), aux := 7)
    else if insn.dst.isMem then
      i.(dst := insn.dst.base, disp := Wrap32(insn.dst.disp), src := insn.src.reg, aux := 8)
    else
      i.(dst := insn.dst.reg, src := insn.src.reg)
  }

  /** A record whose first operand is a register or base + disp (aux 7). */
  function WithFirst(i: Instr, op: Operand): Instr {
    if op.isMem then i.(dst := op.base, disp := Wrap32(op.disp), aux := 7) else i.(dst := op.reg)
  }

  /** `emit_x86`: every instruction becomes exactly one record. */
  function Emit(insn: Instruction): Instr {
    var dst, src := insn.dst, insn.src;
    match insn.kind
    case Nop => Make(OpNop)
    case MovImm =>
      if dst.isMem then
        EncodeMemAddr(Make(OpStoreMem).(imm := dst.imm), dst, 0, true).(width := dst.width)
      else
        Make(OpLoadImm).(dst := dst.reg, imm := dst.imm, width := dst.width)
    case MovRegReg =>
      Make(OpMovReg).(dst := dst.reg, src := src.reg, width := dst.width, aux := if insn.sext then 5 else 0)
    case MovRegMem => EmitLoad(insn)
    case MovMemReg =>
      if !dst.isMem then Make(OpMovReg).(dst := dst.reg, src := src.reg, width := dst.width)
      else EncodeMemAddr(Make(OpStoreMem).(src := src.reg), dst, 0, false).(width := dst.width)
    case BinOpRegReg =>
      Make(OpBinOpReg).(dst := dst.reg, src := src.reg, aux := MapBinOp(insn.binop), width := dst.width)
    case BinOpRegImm =>
      Make(OpBinOpImm).(dst := dst.reg, imm := src.imm, aux := MapBinOp(insn.binop), width := dst.width)
    case BinOpMemImm =>
      EncodeMemAddr(Make(OpBinOpMemImm).(imm := src.imm, src := MapBinOp(insn.binop)), dst, 0, false)
        .(width := dst.width)
    case BinOpMemReg =>
      if dst.isMem then
        EncodeMemAddr(Make(OpBinOpMem).(src := src.reg), dst, MapBinOp(insn.binop), false).(width := dst.width)
      else
        Make(OpBinOpReg).(dst := dst.reg, src := src.reg, aux := MapBinOp(insn.binop), width := dst.width)
    case CmpRegImm => WithFirst(Make(OpCmpImm).(imm := src.imm, width := dst.width), dst)
    case CmpRegReg => EmitCompare(insn)
    case TestRegReg => WithFirst(Make(OpTestReg).(src := src.reg, width := dst.width), dst)
    case Jmp => Make(OpJmp).(imm := Signed(insn.target, 8))
    case Jcc => Make(OpJcc).(aux := insn.cc, imm := Signed(insn.target, 8))
    case Push => Make(OpPush).(src := src.reg)
    case Pop => Make(OpPop).(dst := dst.reg)
    case Lea => EmitLea(insn)
    case Call => Make(OpCall).(imm := Signed(insn.target, 8))
    case Ret => Make(OpRet)
    case Leave => Make(OpLeave)
    case Hlt => Make(OpHlt)
    case Syscall => Make(OpSyscall)
    case ImulRegMem => EmitImul(insn)
    case ShiftRegImm =>
      Make(OpShiftRegImm).(dst := dst.reg, imm := src.imm % 64, width := dst.width,
                           aux := if insn.binop == BAdd then 0 else if insn.binop == BSub then 1 else 2)
    case Invalid => Make(OpHlt)
  }

  // ---------------------------------------------------------------- well-formed records

  /** Setting one bit of an aux byte leaves its other parts alone. */
  lemma {:induction false} SetBit1(aux: Byte)
    ensures var r := SetBit(aux, 1);
            && r / 16 == aux / 16 && r % 16 == (if aux % 2 == 1 then aux % 16 else aux % 16 + 1)
            && r / 64 == aux / 64
  {
  }

  lemma {:induction false} SetBit10(aux: Byte)
    ensures var r := SetBit(aux, 0x10);
            && r % 16 == aux % 16 && r / 64 == aux / 64
            && (r / 16) % 4 == (if (aux / 16) % 2 == 0 then (aux / 16) % 4 + 1 else (aux / 16) % 4)
  {
  }

  lemma {:induction false} SetBit40(aux: Byte)
    ensures var r := SetBit(aux, 0x40);
            && r % 16 == aux % 16 && (r / 64) % 2 == 1 && (r >= 128 <==> aux >= 128)
            && (r / 16) % 4 == (aux / 16) % 4
  {
  }

  lemma {:induction false} SetBit80(aux: Byte)
    ensures var r := SetBit(aux, 0x80);
            && r % 16 == aux % 16 && (r / 64) % 2 == (aux / 64) % 2 && r >= 128
            && (r / 16) % 4 == (aux / 16) % 4
  {
  }

  lemma {:induction false} SibAuxParts(op: Operand)
    ensures var r := SibAux(op); r % 16 == 6 && (r / 16) % 4 == r / 16 == ScaleBits(op.scale) && r < 64
  {
  }

  /** The scale the record carries: the flag for an immediate doubles 1 and 4. */
  function EncodedScale(op: Operand, immStore: bool): int {
    if immStore && (op.scale == 1 || op.scale == 4) then 2 * op.scale else op.scale
  }

  /** What `encode_mem_addr` leaves in the record: its plain fields, ... */
  lemma {:induction false} EncodeFields(i: Instr, op: Operand, flags: int, immStore: bool)
    requires 0 <= flags < 5
    ensures var r := EncodeMemAddr(i, op, flags, immStore);
            && r.op == i.op && r.dst == op.base && r.disp == Wrap32(op.disp) && r.width == i.width
            && r.src == (if op.hasSib && immStore then op.index else i.src)
            && r.imm == (if op.hasSib && !immStore then op.index else i.imm)
  {
    hide SetBit, SibAux;
  }

  /** ... its aux byte for a scaled-index operand, ... */
  lemma {:induction false} EncodeSib(i: Instr, op: Operand, flags: int, immStore: bool)
    requires 0 <= flags < 5 && op.hasSib
    ensures var r := EncodeMemAddr(i, op, flags, immStore);
            && r.Sib()
            && ScaleOf(r.aux) == EncodedScale(op, immStore)
            && (r.ImmBit() <==> immStore || op.scale == 2 || op.scale == 8)
            && ((r.aux / 64) % 2 == 1 <==> op.absSib)
  {
    hide SetBit, SibAux;
    var aux := if immStore then SetBit(SibAux(op), MEM_IMM_STORE) else SibAux(op);
    SibAuxParts(op);
    SetBit10(SibAux(op));
    SetBit40(aux);
  }

  /** ... and for any other operand. */
  lemma {:induction false} EncodeFlat(i: Instr, op: Operand, flags: int, immStore: bool)
    requires 0 <= flags < 5 && !op.hasSib
    ensures var r := EncodeMemAddr(i, op, flags, immStore);
            && !r.Sib() && (r.ImmBit() <==> immStore)
            && (!op.ripRel && !op.absSib ==> r.aux == (if immStore then flags + 16 else flags))
  {
    hide SetBit;
    var aux0: Byte := if immStore then SetBit(flags, MEM_IMM_STORE) else flags;
    var aux: Byte := if op.ripRel then SetBit(aux0, 1) else aux0;
    FlagWithImm(flags);
    SetBit1(aux0);
    SetBit40(aux);
  }

  lemma {:induction false} EncodeParts(i: Instr, op: Operand, flags: int, immStore: bool)
    requires 0 <= flags < 5
    ensures var r := EncodeMemAddr(i, op, flags, immStore);
            && r.op == i.op && r.dst == op.base && r.disp == Wrap32(op.disp) && r.width == i.width
            && (r.Sib() <==> op.hasSib)
            && (op.hasSib ==>
                  && ScaleOf(r.aux) == EncodedScale(op, immStore)
                  && (r.ImmBit() <==> immStore || op.scale == 2 || op.scale == 8)
                  && ((r.aux / 64) % 2 == 1 <==> op.absSib)
                  && (if immStore then r.src == op.index && r.imm == i.imm else r.src == i.src && r.imm == op.index))
            && (!op.hasSib ==> r.src == i.src && r.imm == i.imm && (r.ImmBit() <==> immStore))
            && (!op.hasSib && !op.ripRel && !op.absSib ==> r.aux == (if immStore then flags + 16 else flags))
  {
    hide EncodeMemAddr;
    EncodeFields(i, op, flags, immStore);
    if op.hasSib {
      EncodeSib(i, op, flags, immStore);
    } else {
      EncodeFlat(i, op, flags, immStore);
    }
  }

  lemma {:induction false} FlagWithImm(flags: int)
    requires 0 <= flags < 5
    ensures SetBit(flags, MEM_IMM_STORE) == flags + 16
  {
  }

  /** The same for a record whose base is in src. */
  lemma {:induction false} SourceParts(i: Instr, op: Operand, aux: Byte)
    requires aux < 2
    ensures var r := WithSource(i, op, aux);
            && r.op == i.op && r.dst == i.dst && r.src == op.base && r.disp == Wrap32(op.disp) && r.width == i.width
            && (r.Sib() <==> op.hasSib) && r.aux < 128
            && (op.hasSib ==>
                  && ScaleOf(r.aux) == op.scale && r.imm == op.index
                  && (r.ImmBit() <==> op.scale == 2 || op.scale == 8)
                  && ((r.aux / 64) % 2 == 1 <==> op.absSib))
            && (!op.hasSib ==> !r.ImmBit() && r.imm == i.imm && (!op.absSib ==> r.aux == aux))
  {
  }

  /** No emitted record names a register outside the register file, whatever the
      instruction. */
  lemma {:induction false} EmitValid(insn: Instruction)
    ensures Emit(insn).Valid()
  {
    hide EncodeMemAddr, WithSource, SetBit, MapBinOp;
    var dst, src := insn.dst, insn.src;
    match insn.kind {
      case MovImm =>
        EncodeParts(Make(OpStoreMem).(imm := dst.imm), dst, 0, true);
      case MovRegMem =>
        SourceParts(Make(OpLoadMem).(dst := dst.reg), src, if src.ripRel then 1 else 0);
      case MovMemReg =>
        EncodeParts(Make(OpStoreMem).(src := src.reg), dst, 0, false);
      case BinOpMemImm =>
        EncodeParts(Make(OpBinOpMemImm).(imm := src.imm, src := MapBinOp(insn.binop)), dst, 0, false);
      case BinOpMemReg =>
        EncodeParts(Make(OpBinOpMem).(src := src.reg), dst, MapBinOp(insn.binop), false);
      case Lea =>
        SourceParts(Make(OpLea).(dst := dst.reg), src, 0);
      case ImulRegMem =>
        var i := Make(OpImulReg).(dst := dst.reg, width := dst.width);
        SourceParts(i, src, if src.ripRel then 1 else 0);
        SetBit80(WithSource(i, src, if src.ripRel then 1 else 0).aux);
      case _ =>
    }
  }
}
