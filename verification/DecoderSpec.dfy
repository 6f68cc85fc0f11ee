/** What one instruction decodes to.
 *
 * `Decode(s, pc)` describes the decoder on the bytes s that remain.  Opcodes of
 * the same shape share one row of a table; `Decoder` follows the source's
 * branches one by one and is proved to agree.
 *
 * A fetch past the end of the bytes gives 0 and consumes nothing; a decode is
 * clean when that did not happen.
 */
module DecoderSpec {
  import opened Words
  import opened Memory
  import opened Machine
  import opened X86

  /** How many bytes have been consumed, and whether every fetch was in range. */
  datatype Cursor = Cursor(k: nat, clean: bool)

  datatype Fetched = Fetched(v: Word, cur: Cursor)
  datatype Parsed = Parsed(op: Operand, cur: Cursor)

  /** A failed decode consumes `used` bytes and moves the PC by `skip`. */
  datatype Decoded = Fail(used: nat, skip: nat) | Done(insn: Instruction, clean: bool)

  function Fetch(s: seq<Byte>, cur: Cursor, w: Width): Fetched {
    if cur.k + w <= |s| then Fetched(LoadBytes(s[cur.k..cur.k + w]), Cursor(cur.k + w, cur.clean))
    else Fetched(0, Cursor(cur.k, false))
  }

  // ---------------------------------------------------------------- ModR/M and SIB

  function RexW(rex: Byte): bool { (rex / 8) % 2 == 1 }
  function RexR(rex: Byte): bool { (rex / 4) % 2 == 1 }
  function RexX(rex: Byte): bool { (rex / 2) % 2 == 1 }
  function RexB(rex: Byte): bool { rex % 2 == 1 }

  /** `decode_reg`: three bits extended by REX.B for an r/m field, else by REX.R. */
  function DecodeReg(code: Byte, rex: Byte, rmField: bool): Reg {
    code % 8 + (if (if rmField then RexB(rex) else RexR(rex)) then 8 else 0)
  }

  function ScaleFrom(bits: int): Scale {
    if bits == 0 then 1 else if bits == 1 then 2 else if bits == 2 then 4 else 8
  }

  /** `parse_sib` */
  function ParseSib(op: Operand, rex: Byte, mod: Byte, s: seq<Byte>, cur: Cursor): (p: Parsed)
    ensures p.op.width == op.width
  {
    if cur.k + 1 > |s| then Parsed(op, Cursor(cur.k, false))
    else
      var sib := s[cur.k];
      var cur1 := Cursor(cur.k + 1, cur.clean);
      var rexX := if RexX(rex) then 4 else 0;
      var op1 := op.(scale := ScaleFrom(sib / 64), index := DecodeReg((sib / 8) % 8, rexX, true),
                     base := DecodeReg(sib % 8, rex, true));
      if sib % 8 == 5 && mod == 0 then
        var f := Fetch(s, cur1, 4);
        Parsed(op1.(disp := Signed(f.v, 4), absSib := true), f.cur)
      else Parsed(op1, cur1)
  }

  function ParseDisp(op: Operand, mod: Byte, s: seq<Byte>, cur: Cursor): (p: Parsed)
    ensures p.op.width == op.width
  {
    var f := Fetch(s, cur, if mod == 1 then 1 else 4);
    Parsed(op.(disp := if mod == 1 then Signed(f.v, 1) else Signed(f.v, 4)), f.cur)
  }

  /** `parse_modrm` on an operand already marked as memory. */
  function ParseModrm(op: Operand, rex: Byte, modrm: Byte, s: seq<Byte>, cur: Cursor): (p: Parsed)
    ensures p.op.width == op.width
  {
    var mod, rm := modrm / 64, modrm % 8;
    var op1 := op.(base := DecodeReg(rm, rex, true));
    if mod == 3 then Parsed(op1.(isMem := false, reg := op1.base), cur)
    else if rm == 4 then
      var p := ParseSib(op1.(disp := 0, hasSib := true), rex, mod, s, cur);
      // a missing SIB byte ends the parse
      if cur.k + 1 > |s| || mod == 0 then p else ParseDisp(p.op, mod, s, p.cur)
    else if rm == 5 && mod == 0 then
      var f := Fetch(s, cur, 4);
      Parsed(op1.(ripRel := true, disp := Signed(f.v, 4)), f.cur)
    else if mod == 0 then Parsed(op1.(disp := 0), cur)
    else ParseDisp(op1, mod, s, cur)
  }

  function MemOperand(w: Width): Operand {
    NO_OPERAND.(isMem := true, width := w)
  }

  // ---------------------------------------------------------------- instructions

  /** The decoder's state after the opcode byte. */
  datatype Context = Context(s: seq<Byte>, pc: Word, rex: Byte, inRex: bool)

  function Finish(insn: Instruction, cur: Cursor): Decoded {
    Done(insn.(size := cur.k), cur.clean)
  }

  /** Bytes ran out before the ModR/M byte: the PC stays. */
  function Short(cur: Cursor): Decoded { Fail(cur.k, 0) }

  /** An unknown instruction: the PC skips what was consumed. */
  function Unknown(cur: Cursor): Decoded { Fail(cur.k, cur.k) }

  function Blank(x: Context): Instruction {
    NO_INSTRUCTION.(pc := x.pc)
  }

  /** An instruction of the shape "opcode /r": a register and an r/m operand. */
  datatype Form = NoForm | Form(kind: OpKind, binop: BinOp, regIsSrc: bool, dstW: Width, srcW: Width,
                                zext: bool, sext: bool, early: bool)

  function Mr(kind: OpKind, binop: BinOp, w: Width): Form { Form(kind, binop, true, w, 8, false, false, true) }
  function Rm(kind: OpKind, binop: BinOp, w: Width): Form { Form(kind, binop, false, w, 8, false, false, true) }
  function Late(f: Form, srcW: Width): Form { if f.Form? then f.(early := false, srcW := srcW) else f }

  /** The one-byte opcodes of that shape.  `early` marks those for which a
      missing ModR/M byte leaves the PC alone. */
  function RmForm(b0: Byte, inRex: bool): Form {
    var w: Width := if inRex then 8 else 4;
    match b0
    case 0x89 => Mr(MovMemReg, BAdd, w)
    case 0x8B => Rm(MovRegMem, BAdd, w)
    case 0x01 => Mr(BinOpMemReg, BAdd, w)
    case 0x29 => if inRex then Mr(BinOpMemReg, BSub, 8) else NoForm
    case 0x31 => if inRex then Mr(BinOpMemReg, BXor, 8) else NoForm
    case 0x21 => if inRex then Mr(BinOpMemReg, BAnd, 8) else NoForm
    case 0x09 => if inRex then Mr(BinOpMemReg, BOr, 8) else NoForm
    case 0x33 => if inRex then Rm(BinOpRegReg, BXor, 8) else NoForm
    case 0x03 => if inRex then Rm(BinOpRegReg, BAdd, 8) else NoForm
    case 0x2B => if inRex then Rm(BinOpRegReg, BSub, 8) else NoForm
    case 0x39 => if inRex then Mr(CmpRegReg, BAdd, 8) else NoForm
    case 0x3B => if inRex then Rm(CmpRegReg, BAdd, 8) else NoForm
    case 0x85 => if inRex then Mr(TestRegReg, BAdd, 8) else NoForm
    case 0x8D => if inRex then Rm(Lea, BAdd, 8) else Late(Rm(Lea, BAdd, 8), 8)
    case 0x88 => Late(Mr(MovMemReg, BAdd, 1), 8)
    case 0x8A => Late(Rm(MovRegMem, BAdd, 1), 1)
    case 0x84 => Late(Mr(TestRegReg, BAdd, 1), 8)
    case 0x63 => Late(Rm(MovRegMem, BAdd, 8), 4).(sext := true)
    case _ => NoForm
  }

  /** The two-byte opcodes of that shape. */
  function RmForm0f(b1: Byte, rex: Byte): Form {
    var w: Width := if RexW(rex) then 8 else 4;
    match b1
    case 0xB6 => Late(Rm(MovRegMem, BAdd, w), 1).(zext := true)
    case 0xBE => Late(Rm(MovRegMem, BAdd, w), 1).(sext := true)
    case 0xAF => Late(Rm(ImulRegMem, BAdd, w), w)
    case _ => NoForm
  }

  /** The instruction before its ModR/M byte is read. */
  function FormInsn(x: Context, f: Form): Instruction
    requires f.Form?
  {
    Blank(x).(kind := f.kind, binop := f.binop, zext := f.zext, sext := f.sext,
              dst := if f.regIsSrc then MemOperand(f.dstW) else NO_OPERAND.(width := f.dstW),
              src := if f.regIsSrc then NO_OPERAND.(width := f.srcW) else MemOperand(f.srcW))
  }

  function DecodeRm(x: Context, f: Form, cur: Cursor): Decoded
    requires f.Form?
  {
    if cur.k + 1 > |x.s| then (if f.early then Short(cur) else Unknown(cur))
    else
      var modrm := x.s[cur.k];
      var reg := DecodeReg((modrm / 8) % 8, x.rex, false);
      var out := FormInsn(x, f);
      var p := ParseModrm(if f.regIsSrc then out.dst else out.src, x.rex, modrm, x.s, Cursor(cur.k + 1, cur.clean));
      Finish(if f.regIsSrc then out.(dst := p.op, src := out.src.(reg := reg))
             else out.(dst := out.dst.(reg := reg), src := p.op), p.cur)
  }

  /** The operations of the immediate groups, by ModR/M digit. */
  function GroupOp(digit: int): BinOp {
    match digit
    case 0 => BAdd
    case 1 => BOr
    case 2 => BAdd
    case 3 => BSub
    case 4 => BAnd
    case 5 => BSub
    case 6 => BXor
    case _ => BAdd
  }

  /** 83 /digit imm8 and 81 /digit imm32 (the latter always at 32 bits). */
  function DecodeGroup(x: Context, b0: Byte, cur: Cursor): Decoded
    requires b0 == 0x83 || b0 == 0x81
  {
    if cur.k + 1 > |x.s| then Short(cur)
    else
      var modrm := x.s[cur.k];
      var digit := (modrm / 8) % 8;
      var p := ParseModrm(MemOperand(if b0 == 0x83 then 8 else 4), x.rex, modrm, x.s, Cursor(cur.k + 1, cur.clean));
      var f := Fetch(x.s, p.cur, if b0 == 0x83 then 1 else 4);
      var imm := if b0 == 0x83 then Signed(f.v, 1) else Signed(f.v, 4);
      var kind :=
        if digit == 7 then CmpRegImm
        else if b0 == 0x83 && p.op.isMem then BinOpMemImm else BinOpRegImm;
      Finish(Blank(x).(kind := kind, binop := if digit == 7 then BAdd else GroupOp(digit),
                       dst := p.op, src := NO_OPERAND.(imm := imm)), f.cur)
  }

  /** C7 /0 imm32 and C6 imm8: store an immediate. */
  function DecodeMovImm(x: Context, b0: Byte, cur: Cursor): Decoded
    requires b0 == 0xC7 || b0 == 0xC6
  {
    if cur.k + 1 > |x.s| then (if b0 == 0xC7 then Short(cur) else Unknown(cur))
    else
      var modrm := x.s[cur.k];
      var cur1 := Cursor(cur.k + 1, cur.clean);
      if b0 == 0xC7 && (modrm / 8) % 8 != 0 then Short(cur1)
      else
        var p := ParseModrm(MemOperand(if b0 == 0xC7 then 8 else 1), x.rex, modrm, x.s, cur1);
        var f := Fetch(x.s, p.cur, if b0 == 0xC7 then 4 else 1);
        var imm := if b0 == 0xC7 then Signed(f.v, 4) else Signed(f.v, 1);
        Finish(Blank(x).(kind := MovImm, dst := p.op.(imm := imm)), f.cur)
  }

  function ShiftOp(digit: int): BinOp {
    if digit == 4 then BAdd else if digit == 5 then BSub else BOr
  }

  /** C1 /digit imm8 and D1 /digit: shifts of a register. */
  function DecodeShift(x: Context, b0: Byte, cur: Cursor): Decoded
    requires b0 == 0xC1 || b0 == 0xD1
  {
    if cur.k + 1 > |x.s| then Unknown(cur)
    else
      var modrm := x.s[cur.k];
      var cur1 := Cursor(cur.k + 1, cur.clean);
      var digit := (modrm / 8) % 8;
      if digit != 4 && digit != 5 && digit != 7 then Unknown(cur1)
      else
        var p := ParseModrm(MemOperand(8), x.rex, modrm, x.s, cur1);
        if p.op.isMem then Unknown(p.cur)
        else
          var insn := Blank(x).(kind := ShiftRegImm, dst := p.op, binop := ShiftOp(digit));
          if b0 == 0xD1 then Finish(insn.(src := NO_OPERAND.(imm := 1)), p.cur)
          else
            var f := Fetch(x.s, p.cur, 1);
            Finish(insn.(src := NO_OPERAND.(imm := Signed(f.v, 1))), f.cur)
  }

  /** FF /0 and FF /1: increment and decrement. */
  function DecodeIncDec(x: Context, cur: Cursor): Decoded {
    if cur.k + 1 > |x.s| then Unknown(cur)
    else
      var modrm := x.s[cur.k];
      var cur1 := Cursor(cur.k + 1, cur.clean);
      var digit := (modrm / 8) % 8;
      if digit > 1 then Unknown(cur1)
      else
        var p := ParseModrm(MemOperand(8), x.rex, modrm, x.s, cur1);
        Finish(Blank(x).(kind := if p.op.isMem then BinOpMemImm else BinOpRegImm,
                         binop := if digit == 0 then BAdd else BSub,
                         dst := p.op, src := NO_OPERAND.(imm := 1)), p.cur)
  }

  /** A relative branch; the length in the target is a constant of the source. */
  function DecodeBranch(x: Context, kind: OpKind, cc: Byte, length: nat, w: Width, cur: Cursor): Decoded {
    var f := Fetch(x.s, cur, w);
    Finish(Blank(x).(kind := kind, cc := cc, target := Wrap64(x.pc + length + Signed(f.v, w))), f.cur)
  }

  /** After 0F: the second opcode byte. */
  function Decode0fTail(x: Context, b1: Byte, cur: Cursor): Decoded {
    if b1 == 0x05 then Finish(Blank(x).(kind := Syscall), cur)
    else if b1 / 16 == 8 then DecodeBranch(x, Jcc, b1 % 16, 6, 4, cur)
    else if RmForm0f(b1, x.rex).Form? then DecodeRm(x, RmForm0f(b1, x.rex), cur)
    else Unknown(cur)
  }

  function Decode0f(x: Context, cur: Cursor): Decoded {
    var f := Fetch(x.s, cur, 1);
    FetchByte(x.s, cur);
    Decode0fTail(x, f.v, f.cur)
  }

  lemma {:induction false} FetchByte(s: seq<Byte>, cur: Cursor)
    ensures Fetch(s, cur, 1).v < 256
    ensures cur.k < |s| ==> Fetch(s, cur, 1) == Fetched(s[cur.k], Cursor(cur.k + 1, cur.clean))
  {
    if cur.k < |s| {
      assert s[cur.k..cur.k + 1] == [s[cur.k]];
      assert LE([s[cur.k]]) == s[cur.k] + 256 * LE([s[cur.k]][1..]);
    }
  }

  /** ADD and CMP of rax with a sign-extended imm32. */
  function DecodeRaxImm(x: Context, kind: OpKind, cur: Cursor): Decoded {
    var f := Fetch(x.s, cur, 4);
    Finish(Blank(x).(kind := kind, src := NO_OPERAND.(imm := Signed(f.v, 4))), f.cur)
  }

  /** B8+r: imm64 with REX.W, else imm32 sign-extended. */
  function DecodeMovReg(x: Context, b0: Byte, cur: Cursor): Decoded
    requires 0xB8 <= b0 <= 0xBF
  {
    var w: Width := if x.inRex && RexW(x.rex) then 8 else 4;
    var f := Fetch(x.s, cur, w);
    Finish(Blank(x).(kind := MovImm,
                     dst := NO_OPERAND.(reg := DecodeReg(b0 - 0xB8, x.rex, false), width := w, imm := Signed(f.v, w))),
           f.cur)
  }

  function DecodeOp(x: Context, b0: Byte, cur: Cursor): Decoded {
    if b0 == 0x90 then Finish(Blank(x).(kind := Nop), cur)
    else if b0 == 0xF4 then Finish(Blank(x).(kind := Hlt), cur)
    else if b0 == 0xC3 then Finish(Blank(x).(kind := Ret), cur)
    else if b0 == 0xC9 then Finish(Blank(x).(kind := Leave), cur)
    else if b0 == 0x0F then Decode0f(x, cur)
    else if 0xB8 <= b0 <= 0xBF then DecodeMovReg(x, b0, cur)
    else if 0x50 <= b0 <= 0x57 then
      Finish(Blank(x).(kind := Push, src := NO_OPERAND.(reg := DecodeReg(b0 - 0x50, x.rex, false))), cur)
    else if 0x58 <= b0 <= 0x5F then
      Finish(Blank(x).(kind := Pop, dst := NO_OPERAND.(reg := DecodeReg(b0 - 0x58, x.rex, false))), cur)
    else if b0 == 0xEB then DecodeBranch(x, Jmp, 0, 2, 1, cur)
    else if b0 == 0xE9 then DecodeBranch(x, Jmp, 0, 5, 4, cur)
    else if b0 == 0xE8 then DecodeBranch(x, Call, 0, 5, 4, cur)
    else if 0x70 <= b0 <= 0x7F then DecodeBranch(x, Jcc, b0 - 0x70, 2, 1, cur)
    else if b0 == 0x83 || b0 == 0x81 then DecodeGroup(x, b0, cur)
    else if b0 == 0xC7 || b0 == 0xC6 then DecodeMovImm(x, b0, cur)
    else if b0 == 0xC1 || b0 == 0xD1 then DecodeShift(x, b0, cur)
    else if b0 == 0xFF then DecodeIncDec(x, cur)
    else if x.inRex && RexW(x.rex) && b0 == 0x05 then DecodeRaxImm(x, BinOpRegImm, cur)
    else if x.inRex && RexW(x.rex) && b0 == 0x3D then DecodeRaxImm(x, CmpRegImm, cur)
    else if x.inRex && RexW(x.rex) && b0 == 0x98 then
      Finish(Blank(x).(kind := MovRegReg, src := NO_OPERAND.(width := 4), sext := true), cur)
    else if RmForm(b0, x.inRex).Form? then DecodeRm(x, RmForm(b0, x.inRex), cur)
    else Unknown(cur)
  }

  /** One instruction from the bytes s, s[0] being at guest address pc. */
  function Decode(s: seq<Byte>, pc: Word): Decoded {
    if s == [] then Fail(0, 0)
    else
      var inRex := s[0] / 16 == 4;
      var x := Context(s, pc, if inRex then s[0] else 0, inRex);
      var f := Fetch(s, Cursor(if inRex then 1 else 0, true), 1);
      FetchByte(s, Cursor(if inRex then 1 else 0, true));
      DecodeOp(x, f.v, f.cur)
  }
}
