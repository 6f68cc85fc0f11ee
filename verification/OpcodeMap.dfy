/** The opcode map of the Intel SDM, volume 2, appendix A, as an assembler, and what
 * the decoder makes of its output.
 *
 * An instruction is written down by its name and its operands; its bytes come from
 * the opcode map and the operand encoding of `ModRm`.  Nothing here is taken from
 * the decoder's own table.
 */
module OpcodeMap {
  import opened Words
  import opened Memory
  import opened Machine
  import opened X86
  import opened DecoderSpec
  import opened ModRm

  datatype Prefix = NoPrefix | Rex(b: Byte)

  datatype Name =
    | MOV | ADD | OR | AND | SUB | XOR | CMP | TEST | LEA | IMUL
    | MOVB | TESTB | MOVZX | MOVSX | MOVSXD
    | SHL | SHR | SAR | INC | DEC
    | NOP | HLT | RET | LEAVE | SYSCALL | CDQE

  datatype Asm =
    // no operand
    | Alone(name: Name)
    // a register in the opcode
    | PushReg(r: Reg) | PopReg(r: Reg) | MoveReg(r: Reg, value: Int64)
    // a displacement from the end of the instruction
    | JumpShort(rel: int) | JumpNear(rel: int) | CallNear(rel: int)
    | BranchShort(cc: int, rel: int) | BranchNear(cc: int, rel: int)
    // an r/m operand and a register: name rm, r or name r, rm
    | IntoRm(name: Name, rm: Address, r: Reg)
    | FromRm(name: Name, r: Reg, rm: Address)
    // an r/m operand and an immediate
    | Imm8(name: Name, rm: Address, imm: int)
    | Imm32(name: Name, rm: Address, imm: int)
    | RaxImm32(name: Name, imm: int)
    | MoveImm32(rm: Address, imm: int)
    | MoveByteImm8(rm: Address, imm: int)
    // shifts of a register, by an immediate or by one
    | ShiftImm8(name: Name, r: Reg, imm: int)
    | ShiftOne(name: Name, r: Reg)
    // one r/m operand
    | Step(name: Name, rm: Address)

  // ---------------------------------------------------------------- the encoding

  function RexOf(p: Prefix): Byte {
    if p.Rex? then p.b else 0
  }

  function PrefixBytes(p: Prefix): seq<Byte> {
    if p.Rex? then [p.b] else []
  }

  /** The opcodes of the form "name rm, r"; 0 if there is none. */
  function IntoOpcode(name: Name): Byte {
    match name
    case MOV => 0x89
    case ADD => 0x01
    case OR => 0x09
    case AND => 0x21
    case SUB => 0x29
    case XOR => 0x31
    case CMP => 0x39
    case TEST => 0x85
    case MOVB => 0x88
    case TESTB => 0x84
    case _ => 0
  }

  /** Of the form "name r, rm": one byte, or two after 0F. */
  function FromOpcode(name: Name): (b: seq<Byte>)
    ensures |b| <= 2
  {
    match name
    case MOV => [0x8B]
    case ADD => [0x03]
    case SUB => [0x2B]
    case XOR => [0x33]
    case CMP => [0x3B]
    case LEA => [0x8D]
    case MOVB => [0x8A]
    case MOVSXD => [0x63]
    case MOVZX => [0x0F, 0xB6]
    case MOVSX => [0x0F, 0xBE]
    case IMUL => [0x0F, 0xAF]
    case _ => []
  }

  /** The digit of an immediate group; 8 for a name that is not in it. */
  function Digit(name: Name): (d: int)
    ensures 0 <= d <= 8
  {
    match name
    case ADD => 0
    case OR => 1
    case AND => 4
    case SUB => 5
    case XOR => 6
    case CMP => 7
    case _ => 8
  }

  function ShiftDigit(name: Name): (d: int)
    ensures 0 <= d <= 8
  {
    match name
    case SHL => 4
    case SHR => 5
    case SAR => 7
    case _ => 8
  }

  function Alone1(name: Name): seq<Byte> {
    match name
    case NOP => [0x90]
    case HLT => [0xF4]
    case RET => [0xC3]
    case LEAVE => [0xC9]
    case SYSCALL => [0x0F, 0x05]
    case CDQE => [0x98]
    case _ => []
  }

  predicate Fits8(v: int) { -0x80 <= v < 0x80 }
  predicate Fits32(v: int) { -0x8000_0000 <= v < 0x8000_0000 }

  function Number8(v: int): seq<Byte> { Bytes(v % 0x100, 1) }
  function Number32(v: int): seq<Byte> { Bytes(Wrap32(v), 4) }
  function Number64(v: int): seq<Byte> { Bytes(Wrap64(v), 8) }

  /** Opcode, ModR/M byte with its operand bytes, and an immediate. */
  function WithRm(opcode: seq<Byte>, rm: Address, field: int, imm: seq<Byte>): seq<Byte>
    requires 0 <= field < 8
  {
    opcode + [ModrmByte(rm, field)] + Tail(rm) + imm
  }

  /** The bytes behind the prefix. */
  function Body(a: Asm, p: Prefix): seq<Byte>
    requires Writable(a, p)
  {
    match a
    case Alone(name) => Alone1(name)
    case PushReg(r) => [0x50 + r % 8]
    case PopReg(r) => [0x58 + r % 8]
    case MoveReg(r, v) => [0xB8 + r % 8] + (if RexW(RexOf(p)) then Number64(v) else Number32(v))
    case JumpShort(rel) => [0xEB] + Number8(rel)
    case JumpNear(rel) => [0xE9] + Number32(rel)
    case CallNear(rel) => [0xE8] + Number32(rel)
    case BranchShort(cc, rel) => [0x70 + cc] + Number8(rel)
    case BranchNear(cc, rel) => [0x0F, 0x80 + cc] + Number32(rel)
    case IntoRm(name, rm, r) => WithRm([IntoOpcode(name)], rm, r % 8, [])
    case FromRm(name, r, rm) => WithRm(FromOpcode(name), rm, r % 8, [])
    case Imm8(name, rm, imm) => WithRm([0x83], rm, Digit(name), Number8(imm))
    case Imm32(name, rm, imm) => WithRm([0x81], rm, Digit(name), Number32(imm))
    case RaxImm32(name, imm) => [if name == ADD then 0x05 else 0x3D] + Number32(imm)
    case MoveImm32(rm, imm) => WithRm([0xC7], rm, 0, Number32(imm))
    case MoveByteImm8(rm, imm) => WithRm([0xC6], rm, 0, Number8(imm))
    case ShiftImm8(name, r, imm) => WithRm([0xC1], Direct(r), ShiftDigit(name), Number8(imm))
    case ShiftOne(name, r) => WithRm([0xD1], Direct(r), ShiftDigit(name), [])
    case Step(name, rm) => WithRm([0xFF], rm, if name == INC then 0 else 1, [])
  }

  function Encode(a: Asm, p: Prefix): seq<Byte>
    requires Writable(a, p)
  {
    PrefixBytes(p) + Body(a, p)
  }

  /** Names the decoder knows only under a REX prefix, or only under REX.W. */
  predicate NeedsRex(a: Asm) {
    match a
    case IntoRm(name, _, _) => name in {OR, AND, SUB, XOR, CMP, TEST}
    case FromRm(name, _, _) => name in {ADD, SUB, XOR, CMP}
    case _ => false
  }

  predicate NeedsRexW(a: Asm) {
    a.RaxImm32? || a == Alone(CDQE)
  }

  /** The prefix gives the registers their top bits. */
  predicate RegFits(r: Reg, p: Prefix) { RexR(RexOf(p)) == (r >= 8) }

  predicate RmFits(rm: Address, p: Prefix) { Encodable(rm) && RexFits(rm, RexOf(p)) }

  /** The instructions the decoder supports, and the prefixes they can have.  A
      register in the opcode is left out where the standard and the decoder differ:
      REX.B and REX.R are equal. */
  predicate Writable(a: Asm, p: Prefix) {
    && (p.Rex? ==> p.b / 16 == 4)
    && (NeedsRex(a) ==> p.Rex?) && (NeedsRexW(a) ==> p.Rex? && RexW(p.b))
    && match a
       case Alone(name) => Alone1(name) != []
       case PushReg(r) => RexB(RexOf(p)) == RexR(RexOf(p)) == (r >= 8)
       case PopReg(r) => RexB(RexOf(p)) == RexR(RexOf(p)) == (r >= 8)
       case MoveReg(r, v) =>
         RexB(RexOf(p)) == RexR(RexOf(p)) == (r >= 8) && (RexW(RexOf(p)) || Fits32(v))
       case JumpShort(rel) => Fits8(rel)
       case JumpNear(rel) => Fits32(rel)
       case CallNear(rel) => Fits32(rel)
       case BranchShort(cc, rel) => 0 <= cc < 16 && Fits8(rel)
       case BranchNear(cc, rel) => 0 <= cc < 16 && Fits32(rel)
       case IntoRm(name, rm, r) => IntoOpcode(name) != 0 && RmFits(rm, p) && RegFits(r, p)
       case FromRm(name, r, rm) => FromOpcode(name) != [] && RmFits(rm, p) && RegFits(r, p)
       case Imm8(name, rm, imm) => Digit(name) < 8 && RmFits(rm, p) && Fits8(imm)
       case Imm32(name, rm, imm) => Digit(name) < 8 && RmFits(rm, p) && Fits32(imm)
       case RaxImm32(name, imm) => name in {ADD, CMP} && Fits32(imm)
       case MoveImm32(rm, imm) => RmFits(rm, p) && Fits32(imm)
       case MoveByteImm8(rm, imm) => RmFits(rm, p) && Fits8(imm)
       case ShiftImm8(name, r, imm) => ShiftDigit(name) < 8 && RmFits(Direct(r), p) && Fits8(imm)
       case ShiftOne(name, r) => ShiftDigit(name) < 8 && RmFits(Direct(r), p)
       case Step(name, rm) => name in {INC, DEC} && RmFits(rm, p)
  }

  // ---------------------------------------------------------------- the decoded instruction

  /** A register operand. */
  function InReg(r: Reg, w: Width): Operand { NO_OPERAND.(reg := r, width := w) }

  function Immediate(v: Int64): Operand { NO_OPERAND.(imm := v) }

  /** How the decoder numbers the operations, and the shifts. */
  function OperationOf(name: Name): BinOp {
    match name
    case OR => BOr
    case AND => BAnd
    case SUB => BSub
    case XOR => BXor
    case SHR => BSub
    case SAR => BOr
    case DEC => BSub
    case _ => BAdd
  }

  /** The width of the operands: 64 bits under any prefix for MOV and ADD, by REX.W
      after 0F, fixed for the others. */
  function IntoWidth(name: Name, p: Prefix): Width {
    if name in {MOVB, TESTB} then 1 else if name in {MOV, ADD} && !p.Rex? then 4 else 8
  }

  function FromWidth(name: Name, p: Prefix): Width {
    if name == MOVB then 1
    else if name == MOV && !p.Rex? then 4
    else if name in {MOVZX, MOVSX, IMUL} && !RexW(RexOf(p)) then 4
    else 8
  }

  function SourceWidth(name: Name, p: Prefix): Width {
    if name in {MOVB, MOVZX, MOVSX} then 1
    else if name == MOVSXD then 4
    else if name == IMUL && !RexW(RexOf(p)) then 4
    else 8
  }

  function IntoKind(name: Name): OpKind {
    match name
    case MOV => MovMemReg
    case MOVB => MovMemReg
    case CMP => CmpRegReg
    case TEST => TestRegReg
    case TESTB => TestRegReg
    case _ => BinOpMemReg
  }

  function FromKind(name: Name): OpKind {
    match name
    case ADD => BinOpRegReg
    case SUB => BinOpRegReg
    case XOR => BinOpRegReg
    case CMP => CmpRegReg
    case LEA => Lea
    case IMUL => ImulRegMem
    case _ => MovRegMem
  }

  function AloneInsn(name: Name, blank: Instruction): Instruction {
    match name
    case NOP => blank.(kind := Nop)
    case HLT => blank.(kind := Hlt)
    case RET => blank.(kind := Ret)
    case LEAVE => blank.(kind := Leave)
    case SYSCALL => blank.(kind := Syscall)
    case CDQE => blank.(kind := MovRegReg, src := NO_OPERAND.(width := 4), sext := true)
    case _ => blank
  }

  /** The target of a branch: the end of the instruction plus its displacement; the
      decoder does not count a prefix. */
  function TargetFrom(p: Prefix, pc: Word, size: nat, rel: int): Word {
    Wrap64(pc + size + rel - (if p.Rex? then 1 else 0))
  }

  /** The instruction the bytes stand for. */
  function Meant(a: Asm, p: Prefix, pc: Word): Instruction
    requires Writable(a, p)
  {
    var rex, size := RexOf(p), |Encode(a, p)|;
    var blank := NO_INSTRUCTION.(pc := pc, size := size);
    match a
    case Alone(name) => AloneInsn(name, blank)
    case PushReg(r) => blank.(kind := Push, src := InReg(r, 8))
    case PopReg(r) => blank.(kind := Pop, dst := InReg(r, 8))
    case MoveReg(r, v) => blank.(kind := MovImm, dst := InReg(r, if RexW(rex) then 8 else 4).(imm := v))
    case JumpShort(rel) => blank.(kind := Jmp, target := TargetFrom(p, pc, size, rel))
    case JumpNear(rel) => blank.(kind := Jmp, target := TargetFrom(p, pc, size, rel))
    case CallNear(rel) => blank.(kind := Call, target := TargetFrom(p, pc, size, rel))
    case BranchShort(cc, rel) => blank.(kind := Jcc, cc := cc, target := TargetFrom(p, pc, size, rel))
    case BranchNear(cc, rel) => blank.(kind := Jcc, cc := cc, target := TargetFrom(p, pc, size, rel))
    case IntoRm(name, rm, r) =>
      blank.(kind := IntoKind(name), binop := OperationOf(name), dst := ReadAs(rm, rex, IntoWidth(name, p)),
             src := InReg(r, 8))
    case FromRm(name, r, rm) =>
      blank.(kind := FromKind(name), binop := OperationOf(name), dst := InReg(r, FromWidth(name, p)),
             src := ReadAs(rm, rex, SourceWidth(name, p)), zext := name == MOVZX, sext := name in {MOVSX, MOVSXD})
    case Imm8(name, rm, imm) =>
      blank.(kind := if name == CMP then CmpRegImm else if rm.Direct? then BinOpRegImm else BinOpMemImm,
             binop := OperationOf(name), dst := ReadAs(rm, rex, 8), src := Immediate(imm))
    case Imm32(name, rm, imm) =>
      blank.(kind := if name == CMP then CmpRegImm else BinOpRegImm,
             binop := OperationOf(name), dst := ReadAs(rm, rex, 4), src := Immediate(imm))
    case RaxImm32(name, imm) =>
      blank.(kind := if name == CMP then CmpRegImm else BinOpRegImm, dst := InReg(0, 8), src := Immediate(imm))
    case MoveImm32(rm, imm) => blank.(kind := MovImm, dst := ReadAs(rm, rex, 8).(imm := imm))
    case MoveByteImm8(rm, imm) => blank.(kind := MovImm, dst := ReadAs(rm, rex, 1).(imm := imm))
    case ShiftImm8(name, r, imm) =>
      blank.(kind := ShiftRegImm, binop := OperationOf(name), dst := ReadAs(Direct(r), rex, 8), src := Immediate(imm))
    case ShiftOne(name, r) =>
      blank.(kind := ShiftRegImm, binop := OperationOf(name), dst := ReadAs(Direct(r), rex, 8), src := Immediate(1))
    case Step(name, rm) =>
      blank.(kind := if rm.Direct? then BinOpRegImm else BinOpMemImm, binop := OperationOf(name),
             dst := ReadAs(rm, rex, 8), src := Immediate(1))
  }

  // ---------------------------------------------------------------- decoding inverts the encoding

  /** Decoding the bytes of an instruction, whatever follows them. */
  ghost predicate Decodes(a: Asm, p: Prefix, pc: Word, rest: seq<Byte>)
    requires Writable(a, p)
  {
    Decode(Encode(a, p) + rest, pc) == Done(Meant(a, p, pc), true)
  }

  /** The decoder behind the opcode byte. */
  function At(s: seq<Byte>, p: Prefix, pc: Word): Context {
    Context(s, pc, RexOf(p), p.Rex?)
  }

  function After(p: Prefix, n: nat): Cursor {
    Cursor((if p.Rex? then 1 else 0) + n, true)
  }

  lemma {:induction false} Head(p: Prefix, b0: Byte, tail: seq<Byte>, pc: Word)
    requires p.Rex? ==> p.b / 16 == 4
    requires b0 / 16 != 4
    ensures
      var s := PrefixBytes(p) + ([b0] + tail);
      Decode(s, pc) == DecodeOp(At(s, p, pc), b0, After(p, 1))
  {
    hide DecodeOp, Fetch;
    var s := PrefixBytes(p) + ([b0] + tail);
    assert s[(if p.Rex? then 1 else 0)] == b0;
    FetchByte(s, Cursor(if p.Rex? then 1 else 0, true));
  }

  /** A number behind k bytes. */
  lemma {:induction false} NumberAt(head: seq<Byte>, v: int, w: Width, rest: seq<Byte>)
    requires w != 2 && -(Words.Span(w) / 2) <= v < Words.Span(w) / 2
    ensures
      var n := Bytes(Trunc(v, w), w);
      var f := Fetch(head + n + rest, Cursor(|head|, true), w);
      Signed(f.v, w) == v && f.cur == Cursor(|head| + w, true)
  {
    hide Bytes, Fetch;
    var n := Bytes(Trunc(v, w), w);
    var s := head + n + rest;
    assert s[|head|..|head| + w] == n;
    FetchNumber(Trunc(v, w), w, s, Cursor(|head|, true));
    hide Trunc;
    SignedOf(v, w);
  }

  lemma {:induction false} SignedOf(v: int, w: Width)
    requires -(Words.Span(w) / 2) <= v < Words.Span(w) / 2
    ensures Signed(Trunc(v, w), w) == v
  {
    var t := if v >= 0 then v else v + Words.Span(w);
    ModUnique(v, Words.Span(w), if v >= 0 then 0 else -1, t);
    ModUnique(t, Words.Span(w), 0, t);
  }

  /** The same bytes, cut differently. */
  lemma {:induction false} OneByteLayout(p: Prefix, b0: Byte, n: seq<Byte>, rest: seq<Byte>)
    ensures
      var s := PrefixBytes(p) + ([b0] + n) + rest;
      && s == PrefixBytes(p) + ([b0] + (n + rest))
      && s == (PrefixBytes(p) + [b0]) + n + rest
  {
  }

  lemma {:induction false} TwoByteLayout(p: Prefix, b0: Byte, b1: Byte, n: seq<Byte>, rest: seq<Byte>)
    ensures
      var s := PrefixBytes(p) + ([b0, b1] + n) + rest;
      && s == PrefixBytes(p) + ([b0] + ([b1] + (n + rest)))
      && s == (PrefixBytes(p) + [b0, b1]) + n + rest
      && s == (PrefixBytes(p) + [b0, b1]) + (n + rest)
  {
    assert [b0, b1] == [b0] + [b1];
  }

  lemma {:induction false} Stands(head: seq<Byte>, t: seq<Byte>, rest: seq<Byte>)
    ensures StandsAt(head + t + rest, |head|, t)
  {
  }

  /** A ModR/M byte and its operand behind k bytes. */
  lemma {:induction false} RmAt(head: seq<Byte>, rm: Address, field: int, rex: Byte, w: Width, rest: seq<Byte>)
    requires Encodable(rm) && RexFits(rm, rex) && 0 <= field < 8
    ensures
      var s, k := head + ([ModrmByte(rm, field)] + Tail(rm) + rest), |head|;
      && k < |s| && s[k] == ModrmByte(rm, field) && (s[k] / 8) % 8 == field
      && ParseModrm(MemOperand(w), rex, s[k], s, Cursor(k + 1, true)) ==
         Parsed(ReadAs(rm, rex, w), Cursor(k + 1 + |Tail(rm)|, true))
  {
    hide ParseModrm, ReadAs, ModrmByte, Tail, Encodable, RexFits;
    ModrmFields(rm, field);
    var m := [ModrmByte(rm, field)];
    var s := head + (m + Tail(rm) + rest);
    assert s == (head + m) + Tail(rm) + rest;
    Stands(head + m, Tail(rm), rest);
    ParseInvertsEncoding(rm, field, rex, w, s, Cursor(|head| + 1, true));
  }

  lemma {:induction false} RegFromField(r: Reg, rex: Byte)
    requires RexR(rex) == (r >= 8)
    ensures DecodeReg(r % 8, rex, false) == r
  {
  }

  // ---------------------------------------------------------------- instructions without an r/m operand

  lemma {:induction false} AloneDecodes(a: Asm, p: Prefix, pc: Word, rest: seq<Byte>)
    requires Writable(a, p) && a.Alone?
    ensures Decodes(a, p, pc, rest)
  {
    var b := Alone1(a.name);
    assert Encode(a, p) + rest == PrefixBytes(p) + ([b[0]] + (b[1..] + rest));
    Head(p, b[0], b[1..] + rest, pc);
    if a.name == SYSCALL {
      SecondByte(p, b[0], b[1], rest);
    }
    hide Decode, DecodeGroup, DecodeMovImm, DecodeShift, DecodeIncDec, DecodeRm, DecodeBranch, DecodeMovReg,
         DecodeRaxImm, RmForm, Fetch;
  }

  /** The second byte of a two-byte opcode. */
  lemma {:induction false} SecondByte(p: Prefix, b0: Byte, b1: Byte, rest: seq<Byte>)
    ensures
      var s := PrefixBytes(p) + ([b0] + ([b1] + rest));
      Fetch(s, After(p, 1), 1) == Fetched(b1, After(p, 2))
  {
    hide Fetch;
    var s := PrefixBytes(p) + ([b0] + ([b1] + rest));
    assert s[After(p, 1).k] == b1;
    FetchByte(s, After(p, 1));
  }

  lemma {:induction false} OpcodeRegDecodes(a: Asm, p: Prefix, pc: Word, rest: seq<Byte>)
    requires Writable(a, p) && (a.PushReg? || a.PopReg?)
    ensures Decodes(a, p, pc, rest)
  {
    var b := Body(a, p);
    assert Encode(a, p) + rest == PrefixBytes(p) + ([b[0]] + rest);
    Head(p, b[0], rest, pc);
    RegFromField(a.r, RexOf(p));
    hide Decode, DecodeGroup, DecodeMovImm, DecodeShift, DecodeIncDec, DecodeRm, DecodeBranch, Decode0f, DecodeMovReg,
         DecodeRaxImm, RmForm, Fetch, DecodeReg;
  }

  lemma {:induction false} MoveRegDecodes(a: Asm, p: Prefix, pc: Word, rest: seq<Byte>)
    requires Writable(a, p) && a.MoveReg?
    ensures Decodes(a, p, pc, rest)
  {
    hide Decode, DecodeGroup, DecodeMovImm, DecodeShift, DecodeIncDec, DecodeRm, DecodeBranch, Decode0f, DecodeRaxImm,
         RmForm, Fetch, DecodeReg, Bytes, Signed;
    var b0: Byte := 0xB8 + a.r % 8;
    var w: Width := if RexW(RexOf(p)) then 8 else 4;
    var n := Bytes(Trunc(a.value, w), w);
    assert Body(a, p) == [b0] + n;
    OneByteLayout(p, b0, n, rest);
    Head(p, b0, n + rest, pc);
    NumberAt(PrefixBytes(p) + [b0], a.value, w, rest);
    RegFromField(a.r, RexOf(p));
  }

  /** Opcode and displacement of a branch. */
  lemma {:induction false} BranchDecoded(x: Context, kind: OpKind, cc: Byte, length: nat, w: Width, head: seq<Byte>,
      rel: int, rest: seq<Byte>)
    requires w != 2 && -(Words.Span(w) / 2) <= rel < Words.Span(w) / 2
    requires x.s == head + Bytes(Trunc(rel, w), w) + rest
    ensures DecodeBranch(x, kind, cc, length, w, Cursor(|head|, true)) ==
            Done(NO_INSTRUCTION.(pc := x.pc, kind := kind, cc := cc, target := Wrap64(x.pc + length + rel),
                                 size := |head| + w), true)
  {
    hide Fetch, Bytes, Signed;
    NumberAt(head, rel, w, rest);
  }

  lemma {:induction false} ShortBranchDecodes(a: Asm, p: Prefix, pc: Word, rest: seq<Byte>)
    requires Writable(a, p) && (a.JumpShort? || a.BranchShort?)
    ensures Decodes(a, p, pc, rest)
  {
    hide Decode, DecodeGroup, DecodeMovImm, DecodeShift, DecodeIncDec, DecodeRm, DecodeBranch, Decode0f, DecodeMovReg,
         DecodeRaxImm, RmForm, Fetch, Bytes, Wrap64;
    var b0: Byte := if a.JumpShort? then 0xEB else 0x70 + a.cc;
    var n := Bytes(Trunc(a.rel, 1), 1);
    assert Body(a, p) == [b0] + n;
    var s := Encode(a, p) + rest;
    OneByteLayout(p, b0, n, rest);
    Head(p, b0, n + rest, pc);
    BranchDecoded(At(s, p, pc), if a.JumpShort? then Jmp else Jcc, if a.JumpShort? then 0 else a.cc, 2, 1,
                  PrefixBytes(p) + [b0], a.rel, rest);
  }

  lemma {:induction false} NearBranchDecodes(a: Asm, p: Prefix, pc: Word, rest: seq<Byte>)
    requires Writable(a, p) && (a.JumpNear? || a.CallNear?)
    ensures Decodes(a, p, pc, rest)
  {
    hide Decode, DecodeGroup, DecodeMovImm, DecodeShift, DecodeIncDec, DecodeRm, DecodeBranch, Decode0f, DecodeMovReg,
         DecodeRaxImm, RmForm, Fetch, Bytes, Wrap64;
    var b0: Byte := if a.JumpNear? then 0xE9 else 0xE8;
    var n := Bytes(Trunc(a.rel, 4), 4);
    assert Body(a, p) == [b0] + n;
    var s := Encode(a, p) + rest;
    OneByteLayout(p, b0, n, rest);
    Head(p, b0, n + rest, pc);
    BranchDecoded(At(s, p, pc), if a.JumpNear? then Jmp else Call, 0, 5, 4, PrefixBytes(p) + [b0], a.rel, rest);
  }

  lemma {:induction false} LongBranchDecodes(a: Asm, p: Prefix, pc: Word, rest: seq<Byte>)
    requires Writable(a, p) && a.BranchNear?
    ensures Decodes(a, p, pc, rest)
  {
    hide Decode, DecodeGroup, DecodeMovImm, DecodeShift, DecodeIncDec, DecodeRm, DecodeBranch, DecodeMovReg,
         DecodeRaxImm, RmForm, RmForm0f, Fetch, Bytes, Wrap64;
    var b1: Byte := 0x80 + a.cc;
    var n := Bytes(Trunc(a.rel, 4), 4);
    assert Body(a, p) == [0x0F, b1] + n;
    var s := Encode(a, p) + rest;
    TwoByteLayout(p, 0x0F, b1, n, rest);
    Head(p, 0x0F, [b1] + (n + rest), pc);
    SecondByte(p, 0x0F, b1, n + rest);
    BranchDecoded(At(s, p, pc), Jcc, a.cc, 6, 4, PrefixBytes(p) + [0x0F, b1], a.rel, rest);
  }

  lemma {:induction false} RaxImmDecodes(a: Asm, p: Prefix, pc: Word, rest: seq<Byte>)
    requires Writable(a, p) && a.RaxImm32?
    ensures Decodes(a, p, pc, rest)
  {
    hide Decode, DecodeGroup, DecodeMovImm, DecodeShift, DecodeIncDec, DecodeRm, DecodeBranch, Decode0f, DecodeMovReg,
         RmForm, Fetch, Bytes, Signed;
    var b0: Byte := if a.name == ADD then 0x05 else 0x3D;
    var n := Bytes(Trunc(a.imm, 4), 4);
    assert Body(a, p) == [b0] + n;
    var s := Encode(a, p) + rest;
    OneByteLayout(p, b0, n, rest);
    Head(p, b0, n + rest, pc);
    NumberAt(PrefixBytes(p) + [b0], a.imm, 4, rest);
  }

  // ---------------------------------------------------------------- instructions with an r/m operand

  /** A row of the decoder's table, behind the opcode bytes in head. */
  lemma {:induction false} RowDecoded(x: Context, f: Form, rm: Address, r: Reg, head: seq<Byte>, rest: seq<Byte>)
    requires f.Form? && Encodable(rm) && RexFits(rm, x.rex) && RexR(x.rex) == (r >= 8)
    requires x.s == head + ([ModrmByte(rm, r % 8)] + Tail(rm) + rest)
    ensures
      var size := |head| + 1 + |Tail(rm)|;
      var insn := FormInsn(x, f);
      DecodeRm(x, f, Cursor(|head|, true)) ==
      Done(if f.regIsSrc
           then insn.(dst := ReadAs(rm, x.rex, f.dstW), src := insn.src.(reg := r), size := size)
           else insn.(dst := insn.dst.(reg := r), src := ReadAs(rm, x.rex, f.srcW), size := size), true)
  {
    hide ParseModrm, ReadAs, ModrmByte, Tail, Encodable, RexFits, DecodeReg;
    RmAt(head, rm, r % 8, x.rex, if f.regIsSrc then f.dstW else f.srcW, rest);
    RegFromField(r, x.rex);
  }

  /** Where a one-byte opcode with an r/m operand leaves the decoder. */
  lemma {:induction false} RmBytes(a: Asm, p: Prefix, b0: Byte, rm: Address, field: int, imm: seq<Byte>,
      rest: seq<Byte>)
    requires Writable(a, p) && 0 <= field < 8 && Body(a, p) == WithRm([b0], rm, field, imm)
    ensures
      var s, head := Encode(a, p) + rest, PrefixBytes(p) + [b0];
      && s == PrefixBytes(p) + ([b0] + ([ModrmByte(rm, field)] + Tail(rm) + (imm + rest)))
      && s == head + ([ModrmByte(rm, field)] + Tail(rm) + (imm + rest))
      && s == (head + [ModrmByte(rm, field)] + Tail(rm)) + imm + rest
      && |Encode(a, p)| == |head| + 1 + |Tail(rm)| + |imm|
  {
    hide ModrmByte, Tail;
  }

  lemma {:induction false} IntoDecodes(a: Asm, p: Prefix, pc: Word, rest: seq<Byte>)
    requires Writable(a, p) && a.IntoRm?
    ensures Decodes(a, p, pc, rest)
  {
    hide Decode, DecodeGroup, DecodeMovImm, DecodeShift, DecodeIncDec, DecodeRm, DecodeBranch, Decode0f, DecodeMovReg,
         DecodeRaxImm, Encodable, RexFits, ReadAs, ModrmByte, Tail;
    var b0 := IntoOpcode(a.name);
    RmBytes(a, p, b0, a.rm, a.r % 8, [], rest);
    var tail := [ModrmByte(a.rm, a.r % 8)] + Tail(a.rm) + ([] + rest);
    var s := Encode(a, p) + rest;
    Head(p, b0, tail, pc);
    var x := At(s, p, pc);
    IntoRow(a.name, p);
    RowDecoded(x, RmForm(b0, p.Rex?), a.rm, a.r, PrefixBytes(p) + [b0], [] + rest);
    IntoOpcodes(x, a.name, After(p, 1));
  }

  /** The row of the table, written out. */
  lemma {:induction false} IntoRow(name: Name, p: Prefix)
    requires IntoOpcode(name) != 0 && (name in {OR, AND, SUB, XOR, CMP, TEST} ==> p.Rex?)
    ensures
      var f := RmForm(IntoOpcode(name), p.Rex?);
      && f.Form? && f.regIsSrc && f.kind == IntoKind(name) && f.binop == OperationOf(name)
      && f.dstW == IntoWidth(name, p) && f.srcW == 8 && !f.zext && !f.sext
  {
  }

  lemma {:induction false} IntoOpcodes(x: Context, name: Name, cur: Cursor)
    requires IntoOpcode(name) != 0 && RmForm(IntoOpcode(name), x.inRex).Form?
    ensures DecodeOp(x, IntoOpcode(name), cur) == DecodeRm(x, RmForm(IntoOpcode(name), x.inRex), cur)
  {
    hide DecodeRm;
  }

  lemma {:induction false} FromRow(name: Name, p: Prefix)
    requires |FromOpcode(name)| == 1 && (name in {ADD, SUB, XOR, CMP} ==> p.Rex?)
    ensures
      var f := RmForm(FromOpcode(name)[0], p.Rex?);
      && f.Form? && !f.regIsSrc && f.kind == FromKind(name) && f.binop == OperationOf(name)
      && f.dstW == FromWidth(name, p) && f.srcW == SourceWidth(name, p) && !f.zext && (f.sext <==> name == MOVSXD)
  {
  }

  lemma {:induction false} FromRow0f(name: Name, p: Prefix)
    requires |FromOpcode(name)| == 2
    ensures
      var f := RmForm0f(FromOpcode(name)[1], RexOf(p));
      && f.Form? && !f.regIsSrc && f.kind == FromKind(name) && f.binop == OperationOf(name)
      && f.dstW == FromWidth(name, p) && f.srcW == SourceWidth(name, p)
      && (f.zext <==> name == MOVZX) && (f.sext <==> name == MOVSX)
  {
  }

  lemma {:induction false} FromOpcodes(x: Context, name: Name, cur: Cursor)
    requires |FromOpcode(name)| == 1 && RmForm(FromOpcode(name)[0], x.inRex).Form?
    ensures DecodeOp(x, FromOpcode(name)[0], cur) == DecodeRm(x, RmForm(FromOpcode(name)[0], x.inRex), cur)
  {
    hide DecodeRm;
  }

  lemma {:induction false} FromDecodes(a: Asm, p: Prefix, pc: Word, rest: seq<Byte>)
    requires Writable(a, p) && a.FromRm? && |FromOpcode(a.name)| == 1
    ensures Decodes(a, p, pc, rest)
  {
    hide Decode, DecodeGroup, DecodeMovImm, DecodeShift, DecodeIncDec, DecodeRm, DecodeBranch, Decode0f, DecodeMovReg,
         DecodeRaxImm, Encodable, RexFits, ReadAs, ModrmByte, Tail, DecodeOp, RmForm;
    var b0 := FromOpcode(a.name)[0];
    RmBytes(a, p, b0, a.rm, a.r % 8, [], rest);
    var tail := [ModrmByte(a.rm, a.r % 8)] + Tail(a.rm) + ([] + rest);
    var s := Encode(a, p) + rest;
    Head(p, b0, tail, pc);
    var x := At(s, p, pc);
    FromRow(a.name, p);
    RowDecoded(x, RmForm(b0, p.Rex?), a.rm, a.r, PrefixBytes(p) + [b0], [] + rest);
    FromOpcodes(x, a.name, After(p, 1));
  }

  lemma {:induction false} RmBody(b1: Byte, rm: Address, field: int)
    requires 0 <= field < 8
    ensures WithRm([0x0F, b1], rm, field, []) == [0x0F, b1] + ([ModrmByte(rm, field)] + Tail(rm))
  {
    hide ModrmByte, Tail;
  }

  lemma {:induction false} RowOf0f(x: Context, b1: Byte, cur: Cursor, behind: Cursor)
    requires Fetch(x.s, cur, 1) == Fetched(b1, behind) && b1 != 0x05 && b1 / 16 != 8 && RmForm0f(b1, x.rex).Form?
    ensures Decode0f(x, cur) == DecodeRm(x, RmForm0f(b1, x.rex), behind)
  {
    hide DecodeRm, RmForm0f, DecodeBranch;
  }

  lemma {:induction false} From0fDecodes(a: Asm, p: Prefix, pc: Word, rest: seq<Byte>)
    requires Writable(a, p) && a.FromRm? && |FromOpcode(a.name)| == 2
    ensures Decodes(a, p, pc, rest)
  {
    hide Decode, DecodeGroup, DecodeMovImm, DecodeShift, DecodeIncDec, DecodeRm, DecodeBranch, DecodeMovReg,
         DecodeRaxImm, Encodable, RexFits, ReadAs, ModrmByte, Tail, RmForm, RmForm0f, Fetch, DecodeOp, Decode0f,
         FromKind, FromWidth, SourceWidth, OperationOf;
    var b1 := FromOpcode(a.name)[1];
    var m := [ModrmByte(a.rm, a.r % 8)];
    var s := Encode(a, p) + rest;
    assert Body(a, p) == [0x0F, b1] + (m + Tail(a.rm)) by {
      RmBody(b1, a.rm, a.r % 8);
    }
    TwoByteLayout(p, 0x0F, b1, m + Tail(a.rm), rest);
    Head(p, 0x0F, [b1] + (m + Tail(a.rm) + rest), pc);
    SecondByte(p, 0x0F, b1, m + Tail(a.rm) + rest);
    var x := At(s, p, pc);
    OpcodeIs0f(x, After(p, 1));
    FromRow0f(a.name, p);
    RowOf0f(x, b1, After(p, 1), After(p, 2));
    RowDecoded(x, RmForm0f(b1, RexOf(p)), a.rm, a.r, PrefixBytes(p) + [0x0F, b1], rest);
  }

  // ---------------------------------------------------------------- immediates, shifts and steps

  lemma {:induction false} GroupDecodes(a: Asm, p: Prefix, pc: Word, rest: seq<Byte>)
    requires Writable(a, p) && (a.Imm8? || a.Imm32?)
    ensures Decodes(a, p, pc, rest)
  {
    hide Decode, DecodeMovImm, DecodeShift, DecodeIncDec, DecodeRm, DecodeBranch, Decode0f, DecodeMovReg, RmForm,
         DecodeRaxImm, Encodable, RexFits, ModrmByte, Tail, ParseModrm, Fetch, Bytes, Signed, DecodeReg, IndexBits;
    var b0: Byte := if a.Imm8? then 0x83 else 0x81;
    var w: Width := if a.Imm8? then 1 else 4;
    var n := Bytes(Trunc(a.imm, w), w);
    var digit := Digit(a.name);
    RmBytes(a, p, b0, a.rm, digit, n, rest);
    var m := [ModrmByte(a.rm, digit)];
    Head(p, b0, m + Tail(a.rm) + (n + rest), pc);
    RmAt(PrefixBytes(p) + [b0], a.rm, digit, RexOf(p), if a.Imm8? then 8 else 4, n + rest);
    NumberAt(PrefixBytes(p) + [b0] + m + Tail(a.rm), a.imm, w, rest);
  }

  lemma {:induction false} MoveImmDecodes(a: Asm, p: Prefix, pc: Word, rest: seq<Byte>)
    requires Writable(a, p) && (a.MoveImm32? || a.MoveByteImm8?)
    ensures Decodes(a, p, pc, rest)
  {
    hide Decode, DecodeGroup, DecodeShift, DecodeIncDec, DecodeRm, DecodeBranch, Decode0f, DecodeMovReg, RmForm,
         DecodeRaxImm, Encodable, RexFits, ModrmByte, Tail, ParseModrm, Fetch, Bytes, Signed, DecodeReg, ReadAs;
    var b0: Byte := if a.MoveImm32? then 0xC7 else 0xC6;
    var w: Width := if a.MoveImm32? then 4 else 1;
    var n := Bytes(Trunc(a.imm, w), w);
    RmBytes(a, p, b0, a.rm, 0, n, rest);
    var m := [ModrmByte(a.rm, 0)];
    Head(p, b0, m + Tail(a.rm) + (n + rest), pc);
    RmAt(PrefixBytes(p) + [b0], a.rm, 0, RexOf(p), if a.MoveImm32? then 8 else 1, n + rest);
    NumberAt(PrefixBytes(p) + [b0] + m + Tail(a.rm), a.imm, w, rest);
  }

  lemma {:induction false} ShiftDecodes(a: Asm, p: Prefix, pc: Word, rest: seq<Byte>)
    requires Writable(a, p) && (a.ShiftImm8? || a.ShiftOne?)
    ensures Decodes(a, p, pc, rest)
  {
    hide Decode, DecodeGroup, DecodeMovImm, DecodeIncDec, DecodeRm, DecodeBranch, Decode0f, DecodeMovReg, RmForm,
         DecodeRaxImm, Encodable, RexFits, ModrmByte, ParseModrm, Fetch, Bytes, Signed, DecodeReg;
    var b0: Byte := if a.ShiftImm8? then 0xC1 else 0xD1;
    var rm := Direct(a.r);
    var n: seq<Byte> := if a.ShiftImm8? then Bytes(Trunc(a.imm, 1), 1) else [];
    var digit := ShiftDigit(a.name);
    RmBytes(a, p, b0, rm, digit, n, rest);
    var m := [ModrmByte(rm, digit)];
    Head(p, b0, m + Tail(rm) + (n + rest), pc);
    RmAt(PrefixBytes(p) + [b0], rm, digit, RexOf(p), 8, n + rest);
    if a.ShiftImm8? {
      NumberAt(PrefixBytes(p) + [b0] + m + Tail(rm), a.imm, 1, rest);
    }
  }

  lemma {:induction false} StepDecodes(a: Asm, p: Prefix, pc: Word, rest: seq<Byte>)
    requires Writable(a, p) && a.Step?
    ensures Decodes(a, p, pc, rest)
  {
    hide Decode, DecodeGroup, DecodeMovImm, DecodeShift, DecodeRm, DecodeBranch, Decode0f, DecodeMovReg, RmForm,
         DecodeRaxImm, Encodable, RexFits, ModrmByte, Tail, ParseModrm, Fetch, Bytes, Signed, DecodeReg, IndexBits;
    var digit := if a.name == INC then 0 else 1;
    RmBytes(a, p, 0xFF, a.rm, digit, [], rest);
    var m := [ModrmByte(a.rm, digit)];
    Head(p, 0xFF, m + Tail(a.rm) + ([] + rest), pc);
    RmAt(PrefixBytes(p) + [0xFF], a.rm, digit, RexOf(p), 8, [] + rest);
  }

  lemma {:induction false} HasOpcode(a: Asm, p: Prefix)
    requires Writable(a, p) && a.FromRm?
    ensures FromOpcode(a.name) != []
  {
  }

  /** Decoding inverts the opcode map: the bytes of every supported instruction,
      whatever operands, prefix and bytes behind them, decode to that instruction, in
      full. */
  lemma {:induction false} DecodingInvertsTheMap(a: Asm, p: Prefix, pc: Word, rest: seq<Byte>)
    requires Writable(a, p)
    ensures Decodes(a, p, pc, rest)
  {
    hide Decodes, Writable;
    match a {
      case Alone(_) => AloneDecodes(a, p, pc, rest);
      case PushReg(_) | PopReg(_) => OpcodeRegDecodes(a, p, pc, rest);
      case MoveReg(_, _) => MoveRegDecodes(a, p, pc, rest);
      case JumpShort(_) | BranchShort(_, _) => ShortBranchDecodes(a, p, pc, rest);
      case JumpNear(_) | CallNear(_) => NearBranchDecodes(a, p, pc, rest);
      case BranchNear(_, _) => LongBranchDecodes(a, p, pc, rest);
      case IntoRm(_, _, _) => IntoDecodes(a, p, pc, rest);
      case FromRm(name, _, _) =>
        HasOpcode(a, p);
        if |FromOpcode(name)| == 1 {
          FromDecodes(a, p, pc, rest);
        } else {
          From0fDecodes(a, p, pc, rest);
        }
      case Imm8(_, _, _) | Imm32(_, _, _) => GroupDecodes(a, p, pc, rest);
      case RaxImm32(_, _) => RaxImmDecodes(a, p, pc, rest);
      case MoveImm32(_, _) | MoveByteImm8(_, _) => MoveImmDecodes(a, p, pc, rest);
      case ShiftImm8(_, _, _) | ShiftOne(_, _) => ShiftDecodes(a, p, pc, rest);
      case Step(_, _) => StepDecodes(a, p, pc, rest);
    }
  }
}
