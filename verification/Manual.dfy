/** What each instruction of the opcode map does, as the manual has it.
 *
 * A step of the reference machine on the bytes of an instruction is described by
 * names, registers and addresses, with arithmetic and single bits: without the
 * decoded instruction and without the machine's own functions.  Operand widths and
 * branch targets are those the decoder gives, and so are the flags of INC and DEC.
 */
module Manual {
  import opened Words
  import opened Memory
  import opened StatusFlags
  import opened Machine
  import Ir
  import opened X86
  import opened DecoderSpec
  import opened ModRm
  import opened OpcodeMap
  import opened Reference
  import opened Arithmetic

  // ---------------------------------------------------------------- operands

  /** The address of the following instruction. */
  function Next(a: Asm, p: Prefix, st: State): Word
    requires Writable(a, p)
  {
    Wrap64(st.pc + |Encode(a, p)|)
  }

  function Value(rm: Address, w: Width, st: State, next: Word): Word {
    if rm.Direct? then st.cpu.gpr[rm.reg] else LoadMem(st.mem, Meaning(rm, st.cpu.gpr, next), w)
  }

  /** A register after a write: all 64 bits, or the low 32 and zeros, or the low byte
      and what was there. */
  function Replaced(before: Word, v: Word, w: Width): Word
    requires w != 2
  {
    if w == 8 then v
    else if w == 4 then v % 0x1_0000_0000
    else before - before % 0x100 + v % 0x100
  }

  /** v written to a register, with the flags f. */
  function ToReg(r: Reg, w: Width, v: Word, f: Flags, st: State, next: Word): State
    requires w != 2
  {
    State(st.cpu.(gpr := st.cpu.gpr[r := Replaced(st.cpu.gpr[r], v, w)], flags := f), st.mem, next)
  }

  /** v written to a register or to memory. */
  function ToRm(rm: Address, w: Width, v: Word, f: Flags, st: State, next: Word): State
    requires w != 2
  {
    if rm.Direct? then ToReg(rm.reg, w, v, f, st, next)
    else State(st.cpu.(flags := f), StoreMem(st.mem, Meaning(rm, st.cpu.gpr, next), v, w), next)
  }

  /** Only the flags. */
  function ToFlags(f: Flags, st: State, next: Word): State {
    State(st.cpu.(flags := f), st.mem, next)
  }

  function Going(st: State): Outcome { Outcome(st, Running) }

  /** The number under which `Arithmetic.Operation` describes an operation. */
  function NumberOf(name: Name): int {
    match name
    case ADD => 0
    case INC => 0
    case SUB => 1
    case DEC => 1
    case AND => 2
    case OR => 3
    case _ => 4
  }

  /** The width of what is read: the source's own, if it is extended. */
  function ReadWidth(name: Name, p: Prefix): Width {
    if name in {MOVZX, MOVSX, MOVSXD} then SourceWidth(name, p) else FromWidth(name, p)
  }

  /** The operand whose address the decoder reads as the standard does. */
  predicate Readable(a: Asm) {
    match a
    case IntoRm(_, rm, _) => IndexKept(rm)
    case FromRm(name, _, rm) => IndexKept(rm) && (name == LEA ==> !rm.Direct?)
    case Imm8(_, rm, _) => IndexKept(rm)
    case Imm32(_, rm, _) => IndexKept(rm)
    case MoveImm32(rm, _) => IndexKept(rm)
    case MoveByteImm8(rm, _) => IndexKept(rm)
    case Step(_, rm) => IndexKept(rm)
    case _ => true
  }

  // ---------------------------------------------------------------- the meaning of each form

  ghost predicate AloneMeans(name: Name, st: State, next: Word, o: Outcome) {
    var gpr := st.cpu.gpr;
    match name
    case NOP => o == Going(st.(pc := next))
    case HLT => o == Outcome(State(st.cpu.(halt := true), st.mem, next), Halted)
    case SYSCALL =>
      o == Outcome(State(st.cpu.(num := Signed(gpr[0], 8), pending := true), st.mem, next), Trapped)
    case RET =>
      o == Going(State(st.cpu.(gpr := gpr[4 := Offset(gpr[4], 8)]), st.mem, LoadMem(st.mem, gpr[4], 8)))
    case LEAVE =>
      o == Going(State(st.cpu.(gpr := gpr[5 := LoadMem(st.mem, gpr[5], 8)][4 := Offset(gpr[5], 8)]), st.mem, next))
    case _ =>
      exists x: Word :: Signed(x, 8) == Signed(gpr[0], 4) && o == Going(ToReg(0, 8, x, st.cpu.flags, st, next))
  }

  /** name rm, r */
  ghost predicate IntoMeans(name: Name, rm: Address, r: Reg, w: Width, st: State, next: Word, o: Outcome)
    requires w != 2
  {
    var l, v := Value(rm, w, st, next), st.cpu.gpr[r];
    if name in {MOV, MOVB} then o == Going(ToRm(rm, w, v, st.cpu.flags, st, next))
    else if name == CMP then
      exists res: Word, f: Flags :: IsDifference(l, v, w, res, f) && o == Going(ToFlags(f, st, next))
    else if name in {TEST, TESTB} then
      exists res: Word, f: Flags :: IsAnd(l, v, w, res, f) && o == Going(ToFlags(f, st, next))
    else
      exists res: Word, f: Flags ::
        Operation(NumberOf(name), l, v, w, res, f) && o == Going(ToRm(rm, w, res, f, st, next))
  }

  /** The signed product, modulo the width's span. */
  predicate IsProduct(l: Word, r: Word, w: Width, x: Word) {
    x < Words.Span(w) && (Signed(x, w) - Signed(l, w) * Signed(r, w)) % Words.Span(w) == 0
  }

  /** name r, rm; the flags after IMUL are not the manual's. */
  ghost predicate FromMeans(name: Name, r: Reg, rm: Address, w: Width, sw: Width, st: State, next: Word, o: Outcome)
    requires w != 2
  {
    var l, v := st.cpu.gpr[r], Value(rm, sw, st, next);
    if name in {MOV, MOVB} then o == Going(ToReg(r, w, v, st.cpu.flags, st, next))
    else if name == MOVZX then o == Going(ToReg(r, w, v % 0x100, st.cpu.flags, st, next))
    else if name in {MOVSX, MOVSXD} then
      exists x: Word ::
        && x < Words.Span(w) && Signed(x, w) == Signed(v, sw)
        && o == Going(ToReg(r, w, x, st.cpu.flags, st, next))
    else if name == LEA then
      !rm.Direct? && o == Going(ToReg(r, w, Meaning(rm, st.cpu.gpr, next), st.cpu.flags, st, next))
    else if name == CMP then
      exists res: Word, f: Flags :: IsDifference(l, v, w, res, f) && o == Going(ToFlags(f, st, next))
    else if name == IMUL then
      exists x: Word :: IsProduct(l, v, w, x) && o == Going(ToReg(r, w, x, st.cpu.flags, st, next))
    else
      exists res: Word, f: Flags ::
        Operation(NumberOf(name), l, v, w, res, f) && o == Going(ToReg(r, w, res, f, st, next))
  }

  /** name rm, immediate */
  ghost predicate ImmMeans(name: Name, rm: Address, imm: int, w: Width, st: State, next: Word, o: Outcome)
    requires w != 2
  {
    var l, v := Value(rm, w, st, next), Wrap64(imm);
    if name == CMP then
      exists res: Word, f: Flags :: IsDifference(l, v, w, res, f) && o == Going(ToFlags(f, st, next))
    else
      exists res: Word, f: Flags ::
        Operation(NumberOf(name), l, v, w, res, f) && o == Going(ToRm(rm, w, res, f, st, next))
  }

  /** A shift of all 64 bits by the low six bits of n; the flags are not the manual's. */
  ghost predicate ShiftMeans(name: Name, r: Reg, n: int, st: State, next: Word, o: Outcome) {
    var before, after, m := st.cpu.gpr[r], o.st.cpu.gpr[r], n % 64;
    && o == Going(ToReg(r, 8, after, st.cpu.flags, st, next))
    && forall k: nat :: Bit(after, k) <==>
         k < 64 && (if name == SHL then k >= m && Bit(before, k - m)
                    else if name == SHR then Bit(before, k + m)
                    else Bit(before, if k + m < 64 then k + m else 63))
  }

  /** What an instruction does to a state. */
  ghost predicate Means(a: Asm, p: Prefix, st: State, o: Outcome)
    requires Writable(a, p)
  {
    var next, gpr, f, size := Next(a, p, st), st.cpu.gpr, st.cpu.flags, |Encode(a, p)|;
    match a
    case Alone(name) => AloneMeans(name, st, next, o)
    case PushReg(r) =>
      var sp := Offset(gpr[4], -8);
      o == Going(State(st.cpu.(gpr := gpr[4 := sp]), StoreMem(st.mem, sp, gpr[r], 8), next))
    case PopReg(r) =>
      o == Going(State(st.cpu.(gpr := gpr[4 := Offset(gpr[4], 8)][r := LoadMem(st.mem, gpr[4], 8)]), st.mem, next))
    case MoveReg(r, v) => o == Going(ToReg(r, 8, if RexW(RexOf(p)) then Wrap64(v) else Wrap32(v), f, st, next))
    case JumpShort(rel) => o == Going(st.(pc := TargetFrom(p, st.pc, size, rel)))
    case JumpNear(rel) => o == Going(st.(pc := TargetFrom(p, st.pc, size, rel)))
    case CallNear(rel) =>
      var sp := Offset(gpr[4], -8);
      o == Going(State(st.cpu.(gpr := gpr[4 := sp]), StoreMem(st.mem, sp, next, 8),
                       TargetFrom(p, st.pc, size, rel)))
    case BranchShort(cc, rel) => o == Going(st.(pc := if EvalCc(cc, f) then TargetFrom(p, st.pc, size, rel) else next))
    case BranchNear(cc, rel) => o == Going(st.(pc := if EvalCc(cc, f) then TargetFrom(p, st.pc, size, rel) else next))
    case IntoRm(name, rm, r) => IntoMeans(name, rm, r, IntoWidth(name, p), st, next, o)
    case FromRm(name, r, rm) => FromMeans(name, r, rm, FromWidth(name, p), ReadWidth(name, p), st, next, o)
    case Imm8(name, rm, imm) => ImmMeans(name, rm, imm, 8, st, next, o)
    case Imm32(name, rm, imm) => ImmMeans(name, rm, imm, 4, st, next, o)
    case RaxImm32(name, imm) => ImmMeans(name, Direct(0), imm, 8, st, next, o)
    case MoveImm32(rm, imm) => o == Going(ToRm(rm, 8, Wrap64(imm), f, st, next))
    case MoveByteImm8(rm, imm) => o == Going(ToRm(rm, 1, Wrap64(imm), f, st, next))
    case ShiftImm8(name, r, imm) => ShiftMeans(name, r, imm, st, next, o)
    case ShiftOne(name, r) => ShiftMeans(name, r, 1, st, next, o)
    case Step(name, rm) => ImmMeans(name, rm, 1, 8, st, next, o)
  }

  // ---------------------------------------------------------------- proofs

  /** A step on a single instruction. */
  lemma {:induction false} OneStep(insn: Instruction, st: State)
    requires insn.pc == st.pc
    ensures
      var next := Wrap64(insn.pc + insn.size);
      RefStep([insn], st) == Perform(st, RefEffect(insn, st.cpu, Loaded(st.mem, RefLoad(insn, st.cpu)), next), next)
  {
    hide RefEffect, RefLoad, Loaded, Perform;
    assert Find([insn], insn.pc) == 0;
  }

  /** The address of a decoded operand. */
  lemma {:induction false} PlaceIs(rm: Address, rex: Byte, w: Width, insn: Instruction, gpr: Regs)
    requires Encodable(rm) && !rm.Direct? && IndexKept(rm)
    ensures PlaceOf(insn, ReadAs(rm, rex, w), gpr) == Meaning(rm, gpr, Wrap64(insn.pc + insn.size))
  {
    hide DecodeReg, OperandAddr;
    if rm.RipRelative? {
      WrapAdd(insn.pc + insn.size, rm.disp.Value());
    } else {
      MeaningKept(rm, rex, w, gpr);
    }
  }

  /** What a decoded operand is, apart from its address. */
  lemma {:induction false} OperandIs(rm: Address, rex: Byte, w: Width)
    requires Encodable(rm)
    ensures
      var op := ReadAs(rm, rex, w);
      && op.width == w && op.isMem == !rm.Direct? && (rm.Direct? ==> op.reg == rm.reg)
  {
    hide DecodeReg;
  }

  lemma {:induction false} MergedIs(before: Word, v: Word, w: Width)
    requires w != 2
    ensures Merged(before, v, w) == Replaced(before, v, w)
    ensures Merged(before, Trunc(v, w), w) == Replaced(before, v, w)
  {
    TruncSmall(Trunc(v, w), w);
    if w == 8 {
      TruncSmall(v, 8);
    }
  }

  lemma {:induction false} AloneStep(a: Asm, p: Prefix, st: State)
    requires Writable(a, p) && a.Alone? && a.name != CDQE
    ensures Means(a, p, st, RefStep([Meant(a, p, st.pc)], st))
  {
    hide RefStep, LoadMem, Trunc, Signed, Encode;
    OneStep(Meant(a, p, st.pc), st);
  }

  lemma {:induction false} CdqeStep(a: Asm, p: Prefix, st: State)
    requires Writable(a, p) && a == Alone(CDQE)
    ensures Means(a, p, st, RefStep([Meant(a, p, st.pc)], st))
  {
    hide RefStep, LoadMem, Trunc, Signed, Encode;
    OneStep(Meant(a, p, st.pc), st);
    ExtendedIs(st.cpu.gpr[0], 4, 8);
    var x := Trunc(Signed(st.cpu.gpr[0], 4), 8);
    MergedIs(st.cpu.gpr[0], x, 8);
    assert Signed(x, 8) == Signed(st.cpu.gpr[0], 4);
  }

  /** A sign extension. */
  lemma {:induction false} ExtendedIs(v: Word, sw: Width, w: Width)
    requires sw <= w
    ensures
      var x := Trunc(Signed(v, sw), w);
      x < Words.Span(w) && Signed(x, w) == Signed(v, sw)
  {
    hide Trunc;
    SignedSmall(Signed(v, sw), w);
  }

  lemma {:induction false} StackStep(a: Asm, p: Prefix, st: State)
    requires Writable(a, p) && (a.PushReg? || a.PopReg? || a.MoveReg?)
    ensures Means(a, p, st, RefStep([Meant(a, p, st.pc)], st))
  {
    hide RefStep, LoadMem, StoreMem, Encode;
    var insn := Meant(a, p, st.pc);
    OneStep(insn, st);
  }

  lemma {:induction false} JumpStep(a: Asm, p: Prefix, st: State)
    requires Writable(a, p)
    requires a.JumpShort? || a.JumpNear? || a.CallNear? || a.BranchShort? || a.BranchNear?
    ensures Means(a, p, st, RefStep([Meant(a, p, st.pc)], st))
  {
    hide RefStep, LoadMem, StoreMem, Encode, EvalCc, TargetFrom;
    var insn := Meant(a, p, st.pc);
    OneStep(insn, st);
  }

  /** Operands with an encoding. */
  lemma {:induction false} WritableOperand(a: Asm, p: Prefix)
    requires Writable(a, p)
    ensures a.FromRm? ==> Encodable(a.rm)
    ensures a.ShiftImm8? || a.ShiftOne? ==> a.name in {SHL, SHR, SAR}
  {
    hide Encodable, RexFits, RexOf;
  }

  /** The form name r, rm: what it means, and what it decodes to. */
  lemma {:induction false} FromParts(a: Asm, p: Prefix, st: State, o: Outcome)
    requires Writable(a, p) && a.FromRm?
    ensures
      var insn, w, sw := Meant(a, p, st.pc), FromWidth(a.name, p), SourceWidth(a.name, p);
      && insn.pc == st.pc && insn.kind == FromKind(a.name) && insn.binop == OperationOf(a.name)
      && insn.dst == InReg(a.r, w) && insn.src == ReadAs(a.rm, RexOf(p), sw)
      && insn.zext == (a.name == MOVZX) && insn.sext == (a.name in {MOVSX, MOVSXD})
      && Means(a, p, st, o) ==
         FromMeans(a.name, a.r, a.rm, w, ReadWidth(a.name, p), st, Wrap64(insn.pc + insn.size), o)
  {
    hide Writable, Encode, FromMeans, FromKind, OperationOf, FromWidth, SourceWidth, ReadWidth, ReadAs;
  }

  /** A shift, likewise. */
  lemma {:induction false} ShiftParts(a: Asm, p: Prefix, st: State, o: Outcome)
    requires Writable(a, p) && (a.ShiftImm8? || a.ShiftOne?)
    ensures
      var insn, imm := Meant(a, p, st.pc), if a.ShiftImm8? then a.imm else 1;
      && insn.pc == st.pc && insn.kind == ShiftRegImm && insn.binop == OperationOf(a.name)
      && insn.dst == ReadAs(Direct(a.r), RexOf(p), 8) && insn.src == Immediate(imm)
      && Means(a, p, st, o) == ShiftMeans(a.name, a.r, imm, st, Wrap64(insn.pc + insn.size), o)
  {
    hide Writable, Encode, ShiftMeans, OperationOf, ReadAs;
  }

  /** A value written to a register operand or to memory. */
  lemma {:induction false} RmWritten(rm: Address, rex: Byte, w: Width, insn: Instruction, st: State, v: Word, f: Flags)
    requires Encodable(rm) && IndexKept(rm) && w != 2 && insn.pc == st.pc
    ensures
      var op, c, next := ReadAs(rm, rex, w), st.cpu, Wrap64(insn.pc + insn.size);
      && (op.isMem ==>
            Perform(st, Effect(c.gpr, f, Store(PlaceOf(insn, op, c.gpr), v, w), Machine.Next), next) ==
            Going(ToRm(rm, w, v, f, st, next)))
      && (!op.isMem ==>
            && Perform(st, Put(c, op.reg, v, w).(flags := f), next) == Going(ToRm(rm, w, v, f, st, next))
            && Perform(st, Put(c, op.reg, Trunc(v, w), w).(flags := f), next) == Going(ToRm(rm, w, v, f, st, next)))
  {
    hide ReadAs, PlaceOf, Meaning, StoreMem, Merged, Replaced, Trunc, IndexKept, Encodable;
    OperandIs(rm, rex, w);
    if rm.Direct? {
      MergedIs(st.cpu.gpr[rm.reg], v, w);
    } else {
      PlaceIs(rm, rex, w, insn, st.cpu.gpr);
    }
  }

  /** A value read from a register operand, or from memory at a width of its own. */
  lemma {:induction false} RmRead(rm: Address, rex: Byte, ow: Width, w: Width, insn: Instruction, st: State)
    requires Encodable(rm) && IndexKept(rm) && insn.pc == st.pc
    ensures
      var op, c, next := ReadAs(rm, rex, ow), st.cpu, Wrap64(insn.pc + insn.size);
      Value(rm, w, st, next) == if op.isMem then Loaded(st.mem, Load(PlaceOf(insn, op, c.gpr), w)) else c.gpr[op.reg]
  {
    hide ReadAs, PlaceOf, Meaning, LoadMem, IndexKept, Encodable;
    OperandIs(rm, rex, ow);
    if !rm.Direct? {
      PlaceIs(rm, rex, ow, insn, st.cpu.gpr);
    }
  }

  lemma {:induction false} SamePlace(insn: Instruction, op: Operand, imm: Int64, gpr: Regs)
    ensures PlaceOf(insn, op.(imm := imm), gpr) == PlaceOf(insn, op, gpr)
  {
  }

  lemma {:induction false} PutKeepsFlags(c: Cpu, r: Reg, v: Word, w: Width)
    ensures Put(c, r, v, w).(flags := c.flags) == Put(c, r, v, w)
  {
  }

  lemma {:induction false} MoveImmStep(a: Asm, p: Prefix, st: State)
    requires Writable(a, p) && Readable(a) && (a.MoveImm32? || a.MoveByteImm8?)
    ensures Means(a, p, st, RefStep([Meant(a, p, st.pc)], st))
  {
    hide RefStep, Encode, ReadAs, PlaceOf, Perform, ToRm, Put, Trunc, Wrap64, Encodable, RexFits, IndexKept;
    var insn, w: Width := Meant(a, p, st.pc), if a.MoveImm32? then 8 else 1;
    OneStep(insn, st);
    OperandIs(a.rm, RexOf(p), w);
    SamePlace(insn, ReadAs(a.rm, RexOf(p), w), a.imm, st.cpu.gpr);
    RmWritten(a.rm, RexOf(p), w, insn, st, Wrap64(a.imm), st.cpu.flags);
    TruncWrap(a.imm, w);
    PutKeepsFlags(st.cpu, insn.dst.reg, Trunc(a.imm, w), w);
  }

  /** The operations by name, by the decoder's number and by the machine's. */
  lemma {:induction false} SameOperation(name: Name)
    requires name in {ADD, OR, AND, SUB, XOR, INC, DEC}
    ensures Ir.BinOpOf(NumberOf(name)) == ToIrBinOp(OperationOf(name))
  {
  }

  /** A binary operation on an r/m operand with a value r. */
  lemma {:induction false} RmOperation(name: Name, rm: Address, rex: Byte, w: Width, insn: Instruction, st: State,
      r: Word)
    requires Encodable(rm) && IndexKept(rm) && w != 2 && insn.pc == st.pc && insn.dst == ReadAs(rm, rex, w)
    requires name in {ADD, OR, AND, SUB, XOR, INC, DEC} && insn.binop == OperationOf(name)
    ensures
      var c, next := st.cpu, Wrap64(insn.pc + insn.size);
      var v := Loaded(st.mem, OperandLoad(insn, insn.dst, c, w));
      exists res: Word, f: Flags ::
        && Operation(NumberOf(name), Value(rm, w, st, next), r, w, res, f)
        && Perform(st, AluToDst(insn, c, v, r), next) == Going(ToRm(rm, w, res, f, st, next))
  {
    hide ReadAs, PlaceOf, Perform, ToRm, Put, Trunc, Encodable, IndexKept, BinOpVal, AluFlags, Operation, Loaded,
         Value, Ir.BinOpOf, ToIrBinOp, NumberOf, OperationOf;
    var c, next := st.cpu, Wrap64(insn.pc + insn.size);
    OperandIs(rm, rex, w);
    RmRead(rm, rex, w, w, insn, st);
    SameOperation(name);
    var l, op := Value(rm, w, st, next), ToIrBinOp(insn.binop);
    OperationIs(NumberOf(name), l, r, w);
    RmWritten(rm, rex, w, insn, st, AluResult(op, l, r, w), AluFlags(op, l, r, w));
  }

  lemma {:induction false} IntoStep(a: Asm, p: Prefix, st: State)
    requires Writable(a, p) && Readable(a) && a.IntoRm?
    ensures Means(a, p, st, RefStep([Meant(a, p, st.pc)], st))
  {
    hide RefStep, Encode, ReadAs, PlaceOf, Perform, ToRm, Put, Trunc, Encodable, RexFits, IndexKept, Value, Loaded,
         AluToDst, Operation, CompareFlags, AluFlags, AluResult, IsDifference, IsAnd, Merged;
    var insn := Meant(a, p, st.pc);
    var rm, w, rex := a.rm, IntoWidth(a.name, p), RexOf(p);
    OneStep(insn, st);
    OperandIs(rm, rex, w);
    RmRead(rm, rex, w, w, insn, st);
    var l, r := Value(rm, w, st, Wrap64(insn.pc + insn.size)), st.cpu.gpr[a.r];
    if a.name in {MOV, MOVB} {
      RmWritten(rm, rex, w, insn, st, r, st.cpu.flags);
      PutKeepsFlags(st.cpu, insn.dst.reg, r, w);
    } else if a.name == CMP {
      DifferenceIs(l, r, w);
      FlagsOnly(st, CompareFlags(l, r, w), Wrap64(insn.pc + insn.size));
      CompareIs(l, r, w);
    } else if a.name in {TEST, TESTB} {
      AndIs(l, r, w);
      FlagsOnly(st, AluFlags(And, l, r, w), Wrap64(insn.pc + insn.size));
    } else {
      RmOperation(a.name, rm, rex, w, insn, st, r);
    }
  }

  lemma {:induction false} FlagsOnly(st: State, f: Flags, next: Word)
    ensures Perform(st, Effect(st.cpu.gpr, f, NoStore, Machine.Next), next) == Going(ToFlags(f, st, next))
  {
  }

  lemma {:induction false} CompareIs(l: Word, r: Word, w: Width)
    ensures CompareFlags(l, r, w) == AluFlags(Sub, l, r, w)
  {
    hide UpdateFlags, Trunc;
  }

  lemma {:induction false} RegWritten(st: State, r: Reg, w: Width, v: Word, f: Flags, next: Word)
    requires w != 2
    ensures Perform(st, Put(st.cpu, r, v, w).(flags := f), next) == Going(ToReg(r, w, v, f, st, next))
    ensures Perform(st, Put(st.cpu, r, Trunc(v, w), w).(flags := f), next) == Going(ToReg(r, w, v, f, st, next))
  {
    hide Merged, Replaced, Trunc;
    MergedIs(st.cpu.gpr[r], v, w);
  }

  lemma {:induction false} LowByte(v: Word)
    ensures Trunc(v, 1) == v % 0x100
  {
  }

  /** The moves of the form name r, rm. */
  lemma {:induction false} LoadStep(a: Asm, p: Prefix, st: State)
    requires Writable(a, p) && Readable(a) && a.FromRm? && a.name in {MOV, MOVB, MOVZX, MOVSX, MOVSXD}
    ensures Means(a, p, st, RefStep([Meant(a, p, st.pc)], st))
  {
    hide RefStep, Writable, Means, Meant, Encode, ReadAs, PlaceOf, Perform, ToReg, Put, Trunc, Signed, Encodable,
         RexFits, IndexKept, Value, Loaded, Merged;
    WritableOperand(a, p);
    FromParts(a, p, st, RefStep([Meant(a, p, st.pc)], st));
    var insn := Meant(a, p, st.pc);
    var rm, w, rw, rex := a.rm, FromWidth(a.name, p), ReadWidth(a.name, p), RexOf(p);
    OneStep(insn, st);
    var next := Wrap64(insn.pc + insn.size);
    OperandIs(rm, rex, SourceWidth(a.name, p));
    RmRead(rm, rex, SourceWidth(a.name, p), rw, insn, st);
    var v := Value(rm, rw, st, next);
    if a.name in {MOV, MOVB} {
      RegWritten(st, a.r, w, v, st.cpu.flags, next);
      PutKeepsFlags(st.cpu, a.r, Trunc(v, w), w);
    } else if a.name == MOVZX {
      LowByte(v);
      RegWritten(st, a.r, w, Trunc(v, 1), st.cpu.flags, next);
      PutKeepsFlags(st.cpu, a.r, Trunc(v, 1), w);
    } else {
      var x := Trunc(Signed(v, rw), w);
      ExtendedIs(v, rw, w);
      RegWritten(st, a.r, w, x, st.cpu.flags, next);
      PutKeepsFlags(st.cpu, a.r, x, w);
    }
  }

  /** A binary operation on a register with a value r. */
  lemma {:induction false} RegOperation(name: Name, insn: Instruction, st: State, r: Word)
    requires insn.dst.width != 2 && insn.pc == st.pc
    requires name in {ADD, OR, AND, SUB, XOR, INC, DEC} && insn.binop == OperationOf(name)
    ensures
      var c, d, w, next := st.cpu, insn.dst.reg, insn.dst.width, Wrap64(insn.pc + insn.size);
      exists res: Word, f: Flags ::
        && Operation(NumberOf(name), c.gpr[d], r, w, res, f)
        && Perform(st, AluPut(insn, c, r), next) == Going(ToReg(d, w, res, f, st, next))
  {
    hide Perform, ToReg, Put, Trunc, BinOpVal, AluFlags, Operation, Ir.BinOpOf, ToIrBinOp, NumberOf, OperationOf;
    var c, d, w, next := st.cpu, insn.dst.reg, insn.dst.width, Wrap64(insn.pc + insn.size);
    SameOperation(name);
    var l, op := c.gpr[d], ToIrBinOp(insn.binop);
    OperationIs(NumberOf(name), l, r, w);
    RegWritten(st, d, w, AluResult(op, l, r, w), AluFlags(op, l, r, w), next);
  }

  lemma {:induction false} ProductIs(l: Word, r: Word, w: Width)
    ensures IsProduct(l, r, w, Imul(l, r, w))
  {
    hide Signed;
    ImulCongruent(l, r, w);
  }

  /** The operations of the form name r, rm. */
  lemma {:induction false} FromStep(a: Asm, p: Prefix, st: State)
    requires Writable(a, p) && Readable(a) && a.FromRm? && a.name in {ADD, SUB, XOR}
    ensures Means(a, p, st, RefStep([Meant(a, p, st.pc)], st))
  {
    hide RefStep, Writable, Means, Meant, Encode, ReadAs, PlaceOf, Perform, ToReg, Encodable, RexFits, IndexKept,
         Value, Loaded, AluPut, Operation;
    WritableOperand(a, p);
    FromParts(a, p, st, RefStep([Meant(a, p, st.pc)], st));
    var insn := Meant(a, p, st.pc);
    var rm, w, rex := a.rm, FromWidth(a.name, p), RexOf(p);
    OneStep(insn, st);
    OperandIs(rm, rex, SourceWidth(a.name, p));
    RmRead(rm, rex, SourceWidth(a.name, p), w, insn, st);
    RegOperation(a.name, insn, st, Value(rm, w, st, Wrap64(insn.pc + insn.size)));
  }

  lemma {:induction false} CompareStep(a: Asm, p: Prefix, st: State)
    requires Writable(a, p) && Readable(a) && a.FromRm? && a.name == CMP
    ensures Means(a, p, st, RefStep([Meant(a, p, st.pc)], st))
  {
    hide RefStep, Writable, Means, Meant, Encode, ReadAs, PlaceOf, Perform, Encodable, RexFits, IndexKept, Value,
         Loaded, CompareFlags, AluFlags, AluResult, IsDifference, ToReg, Put;
    WritableOperand(a, p);
    FromParts(a, p, st, RefStep([Meant(a, p, st.pc)], st));
    var insn := Meant(a, p, st.pc);
    var next := Wrap64(insn.pc + insn.size);
    OneStep(insn, st);
    OperandIs(a.rm, RexOf(p), 8);
    RmRead(a.rm, RexOf(p), 8, 8, insn, st);
    var l, r := st.cpu.gpr[a.r], Value(a.rm, 8, st, next);
    DifferenceIs(l, r, 8);
    FlagsOnly(st, CompareFlags(l, r, 8), next);
    CompareIs(l, r, 8);
  }

  lemma {:induction false} MultiplyStep(a: Asm, p: Prefix, st: State)
    requires Writable(a, p) && Readable(a) && a.FromRm? && a.name == IMUL
    ensures Means(a, p, st, RefStep([Meant(a, p, st.pc)], st))
  {
    hide RefStep, Writable, Means, Meant, Encode, ReadAs, PlaceOf, Perform, ToReg, Put, Signed, Encodable, RexFits,
         IndexKept, Value, Loaded, Imul, IsProduct, Trunc, Operation, IsDifference;
    WritableOperand(a, p);
    FromParts(a, p, st, RefStep([Meant(a, p, st.pc)], st));
    var insn := Meant(a, p, st.pc);
    var w, next := FromWidth(IMUL, p), Wrap64(insn.pc + insn.size);
    OneStep(insn, st);
    OperandIs(a.rm, RexOf(p), w);
    RmRead(a.rm, RexOf(p), w, w, insn, st);
    var l, r := st.cpu.gpr[a.r], Value(a.rm, w, st, next);
    ProductIs(l, r, w);
    RegWritten(st, a.r, w, Imul(l, r, w), st.cpu.flags, next);
    PutKeepsFlags(st.cpu, a.r, Imul(l, r, w), w);
  }

  lemma {:induction false} LeaStep(a: Asm, p: Prefix, st: State)
    requires Writable(a, p) && Readable(a) && a.FromRm? && a.name == LEA
    ensures Means(a, p, st, RefStep([Meant(a, p, st.pc)], st))
  {
    hide RefStep, Writable, Means, Meant, Encode, ReadAs, PlaceOf, Perform, ToReg, Put, Trunc, Encodable, RexFits,
         IndexKept, Meaning, Loaded;
    WritableOperand(a, p);
    FromParts(a, p, st, RefStep([Meant(a, p, st.pc)], st));
    var insn := Meant(a, p, st.pc);
    OneStep(insn, st);
    var next := Wrap64(insn.pc + insn.size);
    OperandIs(a.rm, RexOf(p), 8);
    PlaceIs(a.rm, RexOf(p), 8, insn, st.cpu.gpr);
    var v := Meaning(a.rm, st.cpu.gpr, next);
    RegWritten(st, a.r, 8, v, st.cpu.flags, next);
    PutKeepsFlags(st.cpu, a.r, v, 8);
  }

  /** An operation with an immediate. */
  lemma {:induction false} ImmediateStep(a: Asm, p: Prefix, st: State)
    requires Writable(a, p) && Readable(a) && (a.Imm8? || a.Imm32?)
    ensures Means(a, p, st, RefStep([Meant(a, p, st.pc)], st))
  {
    hide RefStep, Encode, ReadAs, PlaceOf, Perform, ToRm, Encodable, RexFits, IndexKept, Value, Wrap64, Loaded,
         AluToDst, Operation, CompareFlags, AluFlags, AluResult, IsDifference;
    var insn := Meant(a, p, st.pc);
    var rm, w: Width, rex := a.rm, if a.Imm8? then 8 else 4, RexOf(p);
    OneStep(insn, st);
    OperandIs(rm, rex, w);
    RmRead(rm, rex, w, w, insn, st);
    var next := Wrap64(insn.pc + insn.size);
    var l, r := Value(rm, w, st, next), Wrap64(a.imm);
    if a.name == CMP {
      DifferenceIs(l, r, w);
      FlagsOnly(st, CompareFlags(l, r, w), next);
      CompareIs(l, r, w);
    } else {
      RmOperation(a.name, rm, rex, w, insn, st, r);
    }
  }

  /** INC and DEC. */
  lemma {:induction false} IncDecStep(a: Asm, p: Prefix, st: State)
    requires Writable(a, p) && Readable(a) && a.Step?
    ensures Means(a, p, st, RefStep([Meant(a, p, st.pc)], st))
  {
    hide RefStep, Encode, ReadAs, PlaceOf, Perform, ToRm, Encodable, RexFits, IndexKept, Value, Loaded, AluToDst,
         Operation, AluFlags, AluResult;
    var insn := Meant(a, p, st.pc);
    OneStep(insn, st);
    OperandIs(a.rm, RexOf(p), 8);
    RmOperation(a.name, a.rm, RexOf(p), 8, insn, st, 1);
  }

  /** The operations of RAX with an immediate. */
  lemma {:induction false} RaxStep(a: Asm, p: Prefix, st: State)
    requires Writable(a, p) && a.RaxImm32?
    ensures Means(a, p, st, RefStep([Meant(a, p, st.pc)], st))
  {
    hide RefStep, Encode, Perform, ToReg, Wrap64, AluPut, Operation, CompareFlags, AluFlags, AluResult, IsDifference;
    var insn := Meant(a, p, st.pc);
    OneStep(insn, st);
    var next := Wrap64(insn.pc + insn.size);
    var l, r := st.cpu.gpr[0], Wrap64(a.imm);
    assert l == Value(Direct(0), 8, st, next);
    forall res: Word, f: Flags ensures ToRm(Direct(0), 8, res, f, st, next) == ToReg(0, 8, res, f, st, next) {
    }
    if a.name == CMP {
      DifferenceIs(l, r, 8);
      FlagsOnly(st, CompareFlags(l, r, 8), next);
      CompareIs(l, r, 8);
    } else {
      RegOperation(a.name, insn, st, r);
    }
  }

  /** The shifts. */
  lemma {:induction false} ShiftedStep(a: Asm, p: Prefix, st: State)
    requires Writable(a, p) && (a.ShiftImm8? || a.ShiftOne?)
    ensures Means(a, p, st, RefStep([Meant(a, p, st.pc)], st))
  {
    hide RefStep, Writable, Means, Meant, Encode, Shifted, Bit, RexFits, Perform, ToReg, Put, ShiftMeans, RexOf;
    WritableOperand(a, p);
    ShiftParts(a, p, st, RefStep([Meant(a, p, st.pc)], st));
    var insn := Meant(a, p, st.pc);
    var imm := if a.ShiftImm8? then a.imm else 1;
    OneStep(insn, st);
    OperandIs(Direct(a.r), RexOf(p), 8);
    var next := Wrap64(insn.pc + insn.size);
    var v := st.cpu.gpr[a.r];
    var k := if a.name == SHL then Left else if a.name == SHR then Right else Shift.Arithmetic;
    var after := Shifted(k, v, imm % 64, 8);
    RegWritten(st, a.r, 8, after, st.cpu.flags, next);
    PutKeepsFlags(st.cpu, a.r, after, 8);
    ShiftMeant(a.name, a.r, imm, k, st, next);
  }

  lemma {:induction false} ShiftMeant(name: Name, r: Reg, n: int, k: Shift, st: State, next: Word)
    requires k == if name == SHL then Left else if name == SHR then Right else Shift.Arithmetic
    ensures ShiftMeans(name, r, n, st, next,
                       Going(ToReg(r, 8, Shifted(k, st.cpu.gpr[r], n % 64, 8), st.cpu.flags, st, next)))
  {
    hide Shifted, Bit;
    var v := st.cpu.gpr[r];
    var o := Going(ToReg(r, 8, Shifted(k, v, n % 64, 8), st.cpu.flags, st, next));
    forall i: nat ensures Bit(o.st.cpu.gpr[r], i) <==>
        i < 64 && (if name == SHL then i >= n % 64 && Bit(v, i - n % 64)
                   else if name == SHR then Bit(v, i + n % 64)
                   else Bit(v, if i + n % 64 < 64 then i + n % 64 else 63))
    {
      ShiftBits(v, n % 64, 8, i);
    }
  }

  /** A step of the reference machine on a supported instruction is what the manual
      says of it. */
  lemma {:induction false} StepMeans(a: Asm, p: Prefix, st: State)
    requires Writable(a, p) && Readable(a)
    ensures Means(a, p, st, RefStep([Meant(a, p, st.pc)], st))
  {
    hide Means, RefStep, Meant;
    match a {
      case Alone(name) =>
        if name == CDQE {
          CdqeStep(a, p, st);
        } else {
          AloneStep(a, p, st);
        }
      case PushReg(_) | PopReg(_) | MoveReg(_, _) => StackStep(a, p, st);
      case JumpShort(_) | JumpNear(_) | CallNear(_) | BranchShort(_, _) | BranchNear(_, _) => JumpStep(a, p, st);
      case IntoRm(_, _, _) => IntoStep(a, p, st);
      case FromRm(name, _, _) =>
        if name == LEA {
          LeaStep(a, p, st);
        } else if name in {MOV, MOVB, MOVZX, MOVSX, MOVSXD} {
          LoadStep(a, p, st);
        } else if name == CMP {
          CompareStep(a, p, st);
        } else if name == IMUL {
          MultiplyStep(a, p, st);
        } else {
          FromStep(a, p, st);
        }
      case Imm8(_, _, _) | Imm32(_, _, _) => ImmediateStep(a, p, st);
      case RaxImm32(_, _) => RaxStep(a, p, st);
      case MoveImm32(_, _) | MoveByteImm8(_, _) => MoveImmStep(a, p, st);
      case ShiftImm8(_, _, _) | ShiftOne(_, _) => ShiftedStep(a, p, st);
      case Step(_, _) => IncDecStep(a, p, st);
    }
  }

  /** From bytes: an instruction of the opcode map, decoded where it stands, does what
      the manual says of it. */
  lemma {:induction false} BytesMean(a: Asm, p: Prefix, st: State, rest: seq<Byte>)
    requires Writable(a, p) && Readable(a)
    ensures
      var decoded := Decode(Encode(a, p) + rest, st.pc);
      decoded.Done? && decoded.clean && Means(a, p, st, RefStep([decoded.insn], st))
  {
    hide Means, RefStep, Meant, Writable, Readable, Decode, Encode;
    DecodingInvertsTheMap(a, p, st.pc, rest);
    StepMeans(a, p, st);
  }
}
