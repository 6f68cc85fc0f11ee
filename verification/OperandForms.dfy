/** Which operand forms a record can carry.
 *
 * An r/m operand is a register, an address made from registers, or an address
 * relative to the next instruction.  Some records carry only one of the three,
 * whatever the instruction names; here is which, exactly, and what happens to
 * the others.
 */
module OperandForms {
  import opened Words
  import opened Memory
  import opened StatusFlags
  import opened Machine
  import opened Ir
  import opened X86
  import opened Translator
  import opened Reference
  import opened Simulation
  import opened DecoderSpec
  import opened EncodingLimits

  /** A register operand: `parse_modrm` leaves the register in base, too. */
  predicate RegisterForm(op: Operand) {
    !op.isMem && !op.ripRel && !op.hasSib && !op.absSib && op.base == op.reg && op.disp == 0
  }

  /** An operand relative to the next instruction. */
  predicate RipForm(op: Operand) {
    op.isMem && op.ripRel && !op.hasSib && !op.absSib
  }

  /** The decoder produces these three forms and no other, whatever the bytes. */
  lemma {:induction false} ThreeForms(w: Width, rex: Byte, modrm: Byte, s: seq<Byte>, cur: Cursor)
    ensures
      var op := ParseModrm(MemOperand(w), rex, modrm, s, cur).op;
      Proper(op) || RegisterForm(op) || RipForm(op)
  {
    hide Fetch, DecodeReg;
  }

  /** v is a value the load can give. */
  predicate Holds(load: Load, v: Word) {
    load.Load? ==> v < Words.Span(load.w)
  }

  /** The record makes the load of its instruction and has its effect, v being the
      value loaded. */
  predicate SameRecord(insn: Instruction, c: Cpu, v: Word) {
    EmitValid(insn);
    var load := RefLoad(insn, c);
    && IrLoad(Emit(insn), c) == load
    && (Holds(load, v) ==> IrEffect(Emit(insn), c, v, 0) == RefEffect(insn, c, v, 0))
  }

  // ---------------------------------------------------------------- register or memory, but not both

  /** The record sign-extends to all 64 bits, and any load replaces the whole
      register. */
  predicate ExtensionKept(insn: Instruction) {
    if insn.sext && !insn.zext then insn.dst.width == 8 else Wide(insn.dst.width)
  }

  /** A move from an r/m operand (8B, 8A, 63, 0F B6, 0F BE) has its meaning, for
      all registers and memory contents, exactly if the operand is in memory at an
      address the record keeps, the destination is 32- or 64-bit, a zero extension
      is from a byte and a sign extension from four bytes to eight. */
  lemma {:induction false} MoveIff(insn: Instruction)
    requires insn.kind == MovRegMem && (Proper(insn.src) || RegisterForm(insn.src))
    ensures (forall c: Cpu, v: Word :: SameRecord(insn, c, v)) <==>
            insn.src.isMem && LoadKept(insn) && WidthKept(insn) && ExtensionKept(insn)
  {
    EmitValid(insn);
    hide Emit, IrLoad, IrEffect, RefLoad, RefEffect, LoadKept;
    if !insn.src.isMem {
      RegisterSourceLoads(insn, With(ZERO_REGS));
      assert !SameRecord(insn, With(ZERO_REGS), 0);
    } else {
      LoadIff(insn);
      if LoadKept(insn) && WidthKept(insn) {
        MoveEffectIff(insn);
      } else {
        var c: Cpu :| IrLoad(Emit(insn), c) != RefLoad(insn, c);
        assert !SameRecord(insn, c, 0);
      }
    }
  }

  /** A move from a register still loads: from the address in that register. */
  lemma {:induction false} RegisterSourceLoads(insn: Instruction, c: Cpu)
    requires insn.kind == MovRegMem && RegisterForm(insn.src)
    ensures Emit(insn).Valid() && RefLoad(insn, c) == NoLoad
    ensures IrLoad(Emit(insn), c).Load? && IrLoad(Emit(insn), c).addr == c.gpr[insn.src.reg]
  {
    DispRoundTrip(insn.src.disp);
  }

  lemma {:induction false} MoveEffectIff(insn: Instruction)
    requires insn.kind == MovRegMem && Proper(insn.src) && LoadKept(insn) && WidthKept(insn)
    requires Emit(insn).Valid() && forall c: Cpu :: IrLoad(Emit(insn), c) == RefLoad(insn, c)
    ensures (forall c: Cpu, v: Word :: SameRecord(insn, c, v)) <==> ExtensionKept(insn)
  {
    hide Emit, IrLoad, RefLoad, IrEffect, RefEffect, LoadKept, WidthKept, Trunc, Signed;
    if ExtensionKept(insn) {
      forall c: Cpu, v: Word ensures SameRecord(insn, c, v) {
        MoveKept(insn, c, v);
      }
    } else {
      ExtensionLost(insn);
    }
  }

  /** The record of a move. */
  lemma {:induction false} MoveRecord(insn: Instruction)
    requires insn.kind == MovRegMem && Proper(insn.src)
    ensures
      var i := Emit(insn);
      && i.op == OpLoadMem && i.dst == insn.dst.reg
      && (i.aux == 5 <==> insn.sext && !insn.zext) && (i.aux == 4 ==> insn.zext)
      && i.width == (if insn.zext then 1 else if insn.sext then 4 else insn.dst.width)
  {
    SourceParts(Make(OpLoadMem).(dst := insn.dst.reg), insn.src, 0);
    hide WithSource;
  }

  lemma {:induction false} MoveKept(insn: Instruction, c: Cpu, v: Word)
    requires insn.kind == MovRegMem && Proper(insn.src) && WidthKept(insn) && ExtensionKept(insn)
    requires Emit(insn).Valid() && IrLoad(Emit(insn), c) == RefLoad(insn, c)
    ensures SameRecord(insn, c, v)
  {
    hide Emit, IrLoad, Signed, Trunc, Wrap64, LoadKept, Merged;
    MoveRecord(insn);
    var load := RefLoad(insn, c);
    assert load.Load? && load.w == MoveWidth(insn);
    var before, w := c.gpr[insn.dst.reg], insn.dst.width;
    TruncIsWrap(Signed(v, 4));
    if v < Words.Span(load.w) {
      TruncSmall(v, load.w);
      WideWrite(before, v, w);
      WideWrite(before, Signed(v, 4), w);
      if insn.zext {
        TruncSmall(v, w);
      }
    }
  }

  /** A sign extension to 32 bits clears the upper half, and a load of one or two
      bytes leaves the rest of the register. */
  lemma {:induction false} ExtensionLost(insn: Instruction)
    requires insn.kind == MovRegMem && Proper(insn.src) && WidthKept(insn) && !ExtensionKept(insn)
    requires Emit(insn).Valid() && IrLoad(Emit(insn), Full()) == RefLoad(insn, Full())
    ensures exists v: Word :: !SameRecord(insn, Full(), v)
  {
    MoveRecord(insn);
    var c, r := Full(), insn.dst.reg;
    hide Emit, IrLoad;
    if insn.sext && !insn.zext {
      assert Holds(RefLoad(insn, c), 0x8000_0000);
      if insn.dst.width == 4 {
        assert IrEffect(Emit(insn), c, 0x8000_0000, 0).gpr[r] == 0xFFFF_FFFF_8000_0000;
        assert RefEffect(insn, c, 0x8000_0000, 0).gpr[r] == 0x8000_0000;
      } else {
        assert IrEffect(Emit(insn), c, 0x8000_0000, 0).gpr[r] == 0xFFFF_FFFF_8000_0000;
        assert RefEffect(insn, c, 0x8000_0000, 0).gpr[r] >= 0xFFFF_FFFF_FFFF_0000;
      }
      assert !SameRecord(insn, c, 0x8000_0000);
    } else {
      assert Holds(RefLoad(insn, c), 0);
      assert IrEffect(Emit(insn), c, 0, 0).gpr[r] == 0;
      assert RefEffect(insn, c, 0, 0).gpr[r] >= 0xFFFF_FFFF_FFFF_0000;
      assert !SameRecord(insn, c, 0);
    }
  }

  /** All bits of all registers set. */
  function Full(): Cpu {
    With(seq(16, _ => 0xFFFF_FFFF_FFFF_FFFF))
  }

  /** An operation into a register (03, 2B, 33) has its meaning exactly if its
      source is a register and its width 32 or 64 bits: the record never reads
      memory. */
  lemma {:induction false} RegisterOperationIff(insn: Instruction)
    requires insn.kind == BinOpRegReg
    ensures (forall c: Cpu, v: Word :: SameRecord(insn, c, v)) <==> !insn.src.isMem && Wide(insn.dst.width)
  {
    hide AluResult, AluFlags, MapBinOp, BinOpOf, ToIrBinOp, PlaceOf, AluPut;
    EmitValid(insn);
    BinOpAgrees(insn.binop);
    MapBinOpByte(insn.binop);
    if insn.src.isMem {
      assert !SameRecord(insn, With(ZERO_REGS), 0);
    } else if Wide(insn.dst.width) {
      forall c: Cpu, v: Word ensures SameRecord(insn, c, v) {
        AluPutWide(insn, c, c.gpr[insn.src.reg]);
      }
    } else {
      NarrowOperation(insn, insn.dst.reg, Full().gpr[insn.src.reg]);
      assert !SameRecord(insn, Full(), 0);
    }
  }

  /** A narrow result leaves the rest of a full register set. */
  lemma {:induction false} NarrowOperation(insn: Instruction, d: Reg, r: Word)
    requires insn.dst.reg == d && !Wide(insn.dst.width)
    ensures AluPut(insn, Full(), r).gpr[d] >= 0xFFFF_FFFF_FFFF_0000
    ensures AluToReg(Full(), d, ToIrBinOp(insn.binop), r, insn.dst.width).gpr[d] < 0x1_0000
  {
    hide BinOpVal, AluFlags;
  }

  /** An operation with an immediate (81, and 83 and FF on a register) has its
      meaning exactly if its destination is a register and its width 32 or 64
      bits. */
  lemma {:induction false} ImmediateOperationIff(insn: Instruction)
    requires insn.kind == BinOpRegImm
    ensures (forall c: Cpu, v: Word :: SameRecord(insn, c, v)) <==> !insn.dst.isMem && Wide(insn.dst.width)
  {
    hide AluResult, AluFlags, MapBinOp, BinOpOf, ToIrBinOp, PlaceOf, Wrap64, AluPut;
    EmitValid(insn);
    BinOpAgrees(insn.binop);
    MapBinOpByte(insn.binop);
    if insn.dst.isMem {
      assert !SameRecord(insn, With(ZERO_REGS), 0);
    } else if Wide(insn.dst.width) {
      forall c: Cpu, v: Word ensures SameRecord(insn, c, v) {
        AluPutWide(insn, c, Wrap64(insn.src.imm));
      }
    } else {
      NarrowOperation(insn, insn.dst.reg, Wrap64(insn.src.imm));
      assert !SameRecord(insn, Full(), 0);
    }
  }

  /** A move of a register or an immediate into a register operand (88, 89, C6, C7):
      right exactly at 32 and 64 bits, since the record clears the rest of the
      register. */
  lemma {:induction false} RegisterMoveIff(insn: Instruction)
    requires (insn.kind == MovMemReg || insn.kind == MovImm) && !insn.dst.isMem
    ensures (forall c: Cpu, v: Word :: SameRecord(insn, c, v)) <==> Wide(insn.dst.width)
  {
    EmitValid(insn);
    var d, w := insn.dst.reg, insn.dst.width;
    if Wide(w) {
      forall c: Cpu, v: Word ensures SameRecord(insn, c, v) {
        WideWrite(c.gpr[d], c.gpr[insn.src.reg], w);
        WideWrite(c.gpr[d], insn.dst.imm, w);
        hide Trunc, Merged;
      }
    } else {
      assert IrEffect(Emit(insn), Full(), 0, 0).gpr[d] < 0x1_0000;
      assert RefEffect(insn, Full(), 0, 0).gpr[d] >= 0xFFFF_FFFF_FFFF_0000;
      assert !SameRecord(insn, Full(), 0);
    }
  }

  /** POP writes the stack pointer last: right exactly if that is not where it pops
      to. */
  lemma {:induction false} PopIff(insn: Instruction, c: Cpu, v: Word)
    requires insn.kind == Pop
    ensures SameRecord(insn, c, v) <==> insn.dst.reg != RSP
  {
    EmitValid(insn);
    if insn.dst.reg == RSP {
      WrapApart(v, 8);
      WrapWord(v);
      assert IrEffect(Emit(insn), c, v, 0).gpr[RSP] == Offset(v, 8);
      assert RefEffect(insn, c, v, 0).gpr[RSP] == v;
    } else {
      assert IrEffect(Emit(insn), c, v, 0).gpr == RefEffect(insn, c, v, 0).gpr;
    }
    hide Emit;
  }

  // ---------------------------------------------------------------- relative to the next instruction

  /** An instruction with an operand relative to the next instruction. */
  predicate RipRelative(insn: Instruction) {
    match insn.kind
    case MovRegMem => RipForm(insn.src)
    case ImulRegMem => RipForm(insn.src)
    case MovMemReg => RipForm(insn.dst)
    case MovImm => RipForm(insn.dst)
    case BinOpMemReg => RipForm(insn.dst)
    case BinOpMemImm => RipForm(insn.dst)
    case CmpRegImm => RipForm(insn.dst)
    case CmpRegReg => if insn.src.isMem then RipForm(insn.src) else RipForm(insn.dst)
    case TestRegReg => RipForm(insn.dst)
    case _ => false
  }

  function RipOperand(insn: Instruction): Operand {
    if insn.kind in {MovRegMem, ImulRegMem} || (insn.kind == CmpRegReg && insn.src.isMem) then insn.src else insn.dst
  }

  /** Where an instruction accesses memory. */
  function Accessed(load: Load, store: Store): Word {
    if load.Load? then load.addr else if store.Store? then store.addr else 0
  }

  /** What the record's address is relative to: `cpu.rip` for a plain load and for
      a store of a register, the operand's base register for any other record. */
  function RipSource(insn: Instruction, c: Cpu): Word {
    if insn.kind == MovMemReg || (insn.kind == MovRegMem && !insn.zext && !insn.sext) then c.rip
    else c.gpr[RipOperand(insn).base]
  }

  /** Equal wrapped sums come from equal wrapped addends. */
  lemma {:induction false} SameSum(a: Word, b: int, d: int)
    ensures Wrap64(a + d) == Wrap64(b + d) <==> a == Wrap64(b)
  {
    var x: int, y: int := a, Wrap64(b);
    WrapAdd(b, d);
    if x < y {
      WrapApart(x + d, y - x);
    } else if y < x {
      WrapApart(y + d, x - y);
    }
  }

  /** An address relative to the next instruction is right exactly while what the
      record takes instead happens to be the address of the next instruction.  The
      interpreter never advances `cpu.rip`. */
  lemma {:induction false} RipAddressIff(insn: Instruction, c: Cpu)
    requires RipRelative(insn)
    ensures Emit(insn).Valid()
    ensures
      var i := Emit(insn);
      Accessed(IrLoad(i, c), IrEffect(i, c, 0, 0).store) == Accessed(RefLoad(insn, c), RefEffect(insn, c, 0, 0).store)
      <==> RipSource(insn, c) == Wrap64(insn.pc + insn.size)
  {
    EmitValid(insn);
    RipAddresses(insn, c);
    var op := RipOperand(insn);
    SameSum(RipSource(insn, c), insn.pc + insn.size, op.disp);
    hide Emit, IrLoad, IrEffect, RefLoad, RefEffect, RipSource, Wrap64;
  }

  lemma {:induction false} RipAddresses(insn: Instruction, c: Cpu)
    requires RipRelative(insn)
    ensures Emit(insn).Valid()
    ensures
      var i, op := Emit(insn), RipOperand(insn);
      && Accessed(IrLoad(i, c), IrEffect(i, c, 0, 0).store) == Wrap64(RipSource(insn, c) + op.disp)
      && Accessed(RefLoad(insn, c), RefEffect(insn, c, 0, 0).store) == Wrap64(insn.pc + insn.size + op.disp)
  {
    hide *;
    RipRecordAddress(insn, c);
    RipInsnAddress(insn, c);
  }

  lemma {:induction false} RipRecord(insn: Instruction)
    requires RipRelative(insn)
    ensures
      var i, op := Emit(insn), RipOperand(insn);
      && !i.Sib() && i.disp == Wrap32(op.disp)
      && match insn.kind
         case MovRegMem => i.op == OpLoadMem && i.src == op.base && (i.aux == 1 <==> !insn.zext && !insn.sext)
         case ImulRegMem => i.op == OpImulReg && i.src == op.base && i.aux >= 128
         case MovMemReg => i.op == OpStoreMem && i.aux == 1
         case MovImm => i.op == OpStoreMem && i.aux != 1 && i.dst == op.base
         case BinOpMemReg => i.op == OpBinOpMem && i.dst == op.base
         case BinOpMemImm => i.op == OpBinOpMemImm && i.dst == op.base
         case CmpRegImm => i.op == OpCmpImm && i.aux == 7 && i.dst == op.base
         case CmpRegReg =>
           && i.op == OpCmpReg
           && (if insn.src.isMem then i.aux == 7 && i.src == op.base else i.aux == 8 && i.dst == op.base)
         case _ => i.op == OpTestReg && i.aux == 7 && i.dst == op.base
  {
    hide Wrap32, MapBinOp;
  }

  lemma {:induction false} RipRecordAddress(insn: Instruction, c: Cpu)
    requires RipRelative(insn)
    ensures Emit(insn).Valid()
    ensures
      var i := Emit(insn);
      Accessed(IrLoad(i, c), IrEffect(i, c, 0, 0).store) == Wrap64(RipSource(insn, c) + RipOperand(insn).disp)
  {
    hide Emit, RipForm, Wrap64, Wrap32, AluResult, AluFlags, CompareFlags, TestFlags, ExtendLoaded, Imul, BinOpOf;
    EmitValid(insn);
    RipRecord(insn);
    DispRoundTrip(RipOperand(insn).disp);
  }

  lemma {:induction false} RipInsnAddress(insn: Instruction, c: Cpu)
    requires RipRelative(insn)
    ensures Accessed(RefLoad(insn, c), RefEffect(insn, c, 0, 0).store) ==
            Wrap64(insn.pc + insn.size + RipOperand(insn).disp)
  {
    hide Wrap64, AluResult, AluFlags, CompareFlags, Extended, Imul, ToIrBinOp;
  }

  /** The value an instruction stores. */
  function StoredValue(store: Store): Word {
    if store.Store? then store.val else 0
  }

  /** The low bit of the operation number, set. */
  function OddCode(op: BinOp): (code: int)
    ensures 0 <= code < 8
  {
    if MapBinOp(op) % 2 == 1 then MapBinOp(op) else MapBinOp(op) + 1
  }

  /** The operation performed and the one that is meant. */
  lemma {:induction false} RipRmwValues(insn: Instruction, c: Cpu, v: Word)
    requires insn.kind == BinOpMemReg && RipForm(insn.dst)
    ensures Emit(insn).Valid()
    ensures
      var r, w := c.gpr[insn.src.reg], insn.dst.width;
      && StoredValue(IrEffect(Emit(insn), c, v, 0).store) == AluResult(BinOpOf(OddCode(insn.binop)), v, r, w)
      && StoredValue(RefEffect(insn, c, v, 0).store) == AluResult(BinOpOf(MapBinOp(insn.binop)), v, r, w)
  {
    hide AluResult, AluFlags, Wrap64, Wrap32, BinOpOf, ToIrBinOp;
    EmitValid(insn);
    BinOpAgrees(insn.binop);
  }

  /** A read-modify-write of such an operand with a register also sets the low bit
      of the operation number: subtraction and OR are kept, addition becomes
      subtraction, AND becomes OR, and XOR a number that gives 0. */
  lemma {:induction false} RipOperationIff(insn: Instruction)
    requires insn.kind == BinOpMemReg && RipForm(insn.dst)
    ensures Emit(insn).Valid()
    ensures
      (forall c: Cpu, v: Word ::
         StoredValue(IrEffect(Emit(insn), c, v, 0).store) == StoredValue(RefEffect(insn, c, v, 0).store))
      <==> insn.binop == BSub || insn.binop == BOr
  {
    hide IrEffect, RefEffect, AluResult, Emit, BinOpOf, StoredValue;
    EmitValid(insn);
    var o1, o2 := OddCode(insn.binop), MapBinOp(insn.binop);
    if o1 == o2 {
      forall c: Cpu, v: Word
        ensures StoredValue(IrEffect(Emit(insn), c, v, 0).store) == StoredValue(RefEffect(insn, c, v, 0).store)
      {
        RipRmwValues(insn, c, v);
      }
    } else {
      var c := With(ZERO_REGS[insn.src.reg := 5]);
      RipRmwValues(insn, c, 3);
      OpCodesDiffer(o1, o2);
      OpsDiffer(BinOpOf(o1), BinOpOf(o2), insn.dst.width);
      assert StoredValue(IrEffect(Emit(insn), c, 3, 0).store) != StoredValue(RefEffect(insn, c, 3, 0).store);
    }
  }

  // ---------------------------------------------------------------- operations that are decoded as others

  /** The result of an immediate group's operation: ADD, OR, ADC, SBB, AND, SUB and
      XOR, by ModR/M digit. */
  function GroupResult(digit: int, l: Word, r: Word, carry: bool, w: Width): Word {
    var c := if carry then 1 else 0;
    match digit
    case 0 => Trunc(l + r, w)
    case 1 => Trunc(BitOr(l, r), w)
    case 2 => Trunc(l + r + c, w)
    case 3 => Trunc(l - r - c, w)
    case 4 => Trunc(BitAnd(l, r), w)
    case 5 => Trunc(l - r, w)
    case _ => Trunc(BitXor(l, r), w)
  }

  /** 83 and 81: the decoded operation gives the standard's result for all operands
      and carries exactly if it is not ADC or SBB. */
  lemma {:induction false} GroupOperationIff(digit: int, w: Width)
    requires 0 <= digit < 7
    ensures
      (forall l: Word, r: Word, carry: bool ::
         AluResult(ToIrBinOp(GroupOp(digit)), l, r, w) == GroupResult(digit, l, r, carry, w))
      <==> digit != 2 && digit != 3
  {
    hide Trunc, BitAnd, BitOr, BitXor, AluResult, GroupResult;
    if digit == 2 || digit == 3 {
      CarryMatters(digit, w);
      assert AluResult(ToIrBinOp(GroupOp(digit)), 0, 0, w) != GroupResult(digit, 0, 0, true, w);
    } else {
      forall l: Word, r: Word, carry: bool
        ensures AluResult(ToIrBinOp(GroupOp(digit)), l, r, w) == GroupResult(digit, l, r, carry, w)
      {
        SameGroupResult(digit, l, r, carry, w);
      }
    }
  }

  lemma {:induction false} CarryMatters(digit: int, w: Width)
    requires digit == 2 || digit == 3
    ensures AluResult(ToIrBinOp(GroupOp(digit)), 0, 0, w) != GroupResult(digit, 0, 0, true, w)
  {
  }

  lemma {:induction false} SameGroupResult(digit: int, l: Word, r: Word, carry: bool, w: Width)
    requires 0 <= digit < 7 && digit != 2 && digit != 3
    ensures AluResult(ToIrBinOp(GroupOp(digit)), l, r, w) == GroupResult(digit, l, r, carry, w)
  {
    hide Trunc, BitAnd, BitOr, BitXor;
    TruncWrap(l + r, w);
    TruncWrap(l - r, w);
  }

  /** FF /0 and FF /1 become an addition and a subtraction of 1, which set CF, where
      INC and DEC keep it: the flags are those of INC and DEC exactly if CF was
      already the carry or borrow. */
  lemma {:induction false} IncDecFlagsIff(insn: Instruction, c: Cpu)
    requires insn.kind == BinOpRegImm && !insn.dst.isMem && insn.src.imm == 1
    requires insn.binop == BAdd || insn.binop == BSub
    ensures Emit(insn).Valid()
    ensures
      var l, w := c.gpr[insn.dst.reg], insn.dst.width;
      var flags := AluFlags(ToIrBinOp(insn.binop), l, 1, w);
      IrEffect(Emit(insn), c, 0, 0).flags == flags.(cf := c.flags.cf) <==>
      (c.flags.cf <==> Trunc(l, w) == if insn.binop == BAdd then Words.Span(w) - 1 else 0)
  {
    hide UpdateFlags, Trunc, Signed, Wrap64;
    EmitValid(insn);
    BinOpAgrees(insn.binop);
    var l, w := c.gpr[insn.dst.reg], insn.dst.width;
    AddFlags(l, 1, w);
    SubFlags(l, 1, w);
    TruncSmall(1, w);
    OneWord();
  }

  lemma {:induction false} OneWord()
    ensures Wrap64(1) == 1
  {
  }

  // ---------------------------------------------------------------- failing inputs

  /** rax after one instruction on the reference machine and on the IR machine. */
  function RaxAfter(insn: Instruction, gpr: Regs, mem: seq<Byte>): (r: (Word, Word)) {
    EmitValid(insn);
    var st := State(With(gpr), mem, insn.pc);
    (RefStep([insn], st).st.cpu.gpr[0], IrStep([Emit(insn)], st.(pc := 0)).st.cpu.gpr[0])
  }

  /** What the bytes of one instruction at address 0 do. */
  function BytesRax(bytes: seq<Byte>, gpr: Regs, mem: seq<Byte>): (r: (Word, Word)) {
    var d := Decode(bytes, 0);
    if d.Done? then RaxAfter(d.insn, gpr, mem) else (0, 0)
  }

  /** An r/m operand that is memory at the address in rbx. */
  predicate AtRbx(op: Operand) {
    Proper(op) && !op.hasSib && op.base == 3 && op.disp == 0 && op.reg == 0
  }

  lemma {:induction false} RbxAddress(op: Operand, gpr: Regs)
    requires AtRbx(op)
    ensures OperandAddr(op, gpr) == gpr[3]
  {
  }

  /** The two results come from the two effects. */
  lemma {:induction false} RaxEffects(insn: Instruction, gpr: Regs, mem: seq<Byte>)
    ensures
      var c, i := With(gpr), (EmitValid(insn); Emit(insn));
      RaxAfter(insn, gpr, mem) ==
      (RefEffect(insn, c, Loaded(mem, RefLoad(insn, c)), Wrap64(insn.pc + insn.size)).gpr[0],
       IrEffect(i, c, Loaded(mem, IrLoad(i, c)), 1).gpr[0])
  {
    EmitValid(insn);
    hide Emit, RefEffect, IrEffect, RefLoad, IrLoad, Loaded, Stored, Signed;
    assert Find([insn], insn.pc) == 0;
  }

  /** A four-byte number below 256. */
  lemma {:induction false} FetchSmall(s: seq<Byte>, cur: Cursor, v: Byte)
    requires cur.k + 4 <= |s| && s[cur.k..cur.k + 4] == [v, 0, 0, 0]
    ensures Fetch(s, cur, 4) == Fetched(v, Cursor(cur.k + 4, cur.clean))
  {
    assert [v, 0, 0, 0][1..] == [0, 0, 0] && [0, 0, 0][1..] == [0, 0] && [0, 0][1..] == [0] && [0][1..] == [];
    assert LE([0]) == 0 && LE([0, 0]) == 0 && LE([v, 0, 0, 0]) == v;
  }

  lemma {:induction false} MoveDecoded()
    ensures
      var d := Decode([0x48, 0x8B, 0xC3], 0);
      && d.Done? && d.insn.kind == MovRegMem && !d.insn.zext && !d.insn.sext && RegisterForm(d.insn.src)
      && d.insn.src.reg == 3 && d.insn.dst.reg == 0 && d.insn.dst.width == 8
  {
    hide Fetch, LE, DecodeMovReg, DecodeBranch, DecodeMovImm, DecodeShift, DecodeIncDec, DecodeRaxImm,
         Decode0f, DecodeGroup;
    FetchByte([0x48, 0x8B, 0xC3], Cursor(1, true));
  }

  /** mov rax, rbx with 16 in rbx and no memory gives 0. */
  lemma {:induction false} MoveFromRegisterFails()
    ensures BytesRax([0x48, 0x8B, 0xC3], ZERO_REGS[3 := 16], []) == (16, 0)
  {
    hide Decode, RaxAfter;
    MoveDecoded();
    RaxEffects(Decode([0x48, 0x8B, 0xC3], 0).insn, ZERO_REGS[3 := 16], []);
  }

  lemma {:induction false} AddDecoded()
    ensures
      var d := Decode([0x48, 0x03, 0x03], 0);
      && d.Done? && d.insn.kind == BinOpRegReg && d.insn.binop == BAdd && AtRbx(d.insn.src)
      && d.insn.dst.reg == 0 && d.insn.dst.width == 8
  {
    hide Fetch, LE, DecodeMovReg, DecodeBranch, DecodeMovImm, DecodeShift, DecodeIncDec, DecodeRaxImm,
         Decode0f, DecodeGroup;
    FetchByte([0x48, 0x03, 0x03], Cursor(1, true));
  }

  /** add rax, [rbx] with 1 in rax and no memory, which loads 0, gives 2. */
  lemma {:induction false} AddFromMemoryFails()
    ensures BytesRax([0x48, 0x03, 0x03], ZERO_REGS[0 := 1], []) == (1, 2)
  {
    hide Decode, AluFlags, OperandAddr, RaxAfter;
    AddDecoded();
    RaxEffects(Decode([0x48, 0x03, 0x03], 0).insn, ZERO_REGS[0 := 1], []);
  }

  lemma {:induction false} SignedByteDecoded()
    ensures
      var d := Decode([0x0F, 0xBE, 0x03], 0);
      && d.Done? && d.insn.kind == MovRegMem && d.insn.sext && !d.insn.zext && AtRbx(d.insn.src)
      && d.insn.src.width == 1 && d.insn.dst.reg == 0 && d.insn.dst.width == 4
  {
    hide Fetch, LE, DecodeMovReg, DecodeBranch, DecodeMovImm, DecodeShift, DecodeIncDec, DecodeRaxImm,
         DecodeGroup, RmForm;
    FetchByte([0x0F, 0xBE, 0x03], Cursor(0, true));
    FetchByte([0x0F, 0xBE, 0x03], Cursor(1, true));
  }

  /** movsx eax, byte [rbx] takes four bytes of memory. */
  lemma {:induction false} MoveSignedByteFails()
    ensures BytesRax([0x0F, 0xBE, 0x03], ZERO_REGS, [1, 1, 1, 1]) == (1, 0x0101_0101)
  {
    hide Decode, LoadMem, OperandAddr, RaxAfter;
    SignedByteDecoded();
    var insn := Decode([0x0F, 0xBE, 0x03], 0).insn;
    RaxEffects(insn, ZERO_REGS, [1, 1, 1, 1]);
    RbxAddress(insn.src, ZERO_REGS);
    FourOnes();
  }

  lemma {:induction false} FourOnes()
    ensures LoadMem([1, 1, 1, 1], 0, 1) == 1 && LoadMem([1, 1, 1, 1], 0, 4) == 0x0101_0101
  {
    assert [1, 1, 1, 1][0..4] == [1, 1, 1, 1];
    assert LE([1]) == 1 + 256 * LE([1][1..]);
  }

  lemma {:induction false} AddImmediateDecoded()
    ensures
      var d := Decode([0x81, 0x03, 1, 0, 0, 0], 0);
      && d.Done? && d.insn.kind == BinOpRegImm && d.insn.binop == BAdd && AtRbx(d.insn.dst)
      && d.insn.src.imm == 1 && d.insn.dst.width == 4
  {
    hide Fetch, LE, DecodeMovReg, DecodeBranch, DecodeMovImm, DecodeShift, DecodeIncDec, DecodeRaxImm,
         Decode0f, DecodeRm;
    FetchByte([0x81, 0x03, 1, 0, 0, 0], Cursor(0, true));
    FetchSmall([0x81, 0x03, 1, 0, 0, 0], Cursor(2, true), 1);
  }

  /** add dword [rbx], 1 adds to rax. */
  lemma {:induction false} AddToMemoryFails()
    ensures BytesRax([0x81, 0x03, 1, 0, 0, 0], ZERO_REGS, []) == (0, 1)
  {
    hide Decode, AluFlags, OperandAddr, RaxAfter;
    AddImmediateDecoded();
    RaxEffects(Decode([0x81, 0x03, 1, 0, 0, 0], 0).insn, ZERO_REGS, []);
  }

  /** add [rip], rax; its base register is rbp. */
  lemma {:induction false} RipAddDecoded()
    ensures
      var d := Decode([0x48, 0x01, 0x05, 0, 0, 0, 0], 0);
      && d.Done? && d.insn.kind == BinOpMemReg && d.insn.binop == BAdd && RipForm(d.insn.dst)
      && d.insn.dst.base == RBP && d.insn.dst.disp == 0 && d.insn.src.reg == 0 && d.insn.dst.width == 8
      && d.insn.pc == 0 && d.insn.size == 7
  {
    hide Fetch, LE, DecodeMovReg, DecodeBranch, DecodeMovImm, DecodeShift, DecodeIncDec, DecodeRaxImm,
         Decode0f, DecodeGroup;
    FetchByte([0x48, 0x01, 0x05, 0, 0, 0, 0], Cursor(1, true));
    FetchSmall([0x48, 0x01, 0x05, 0, 0, 0, 0], Cursor(3, true), 0);
  }

  /** add [rip], rax with 1 in rax and the address of the next instruction in rbp:
      the same place in memory, but 1 is subtracted from it. */
  lemma {:induction false} RipAddSubtracts(v: Word)
    ensures
      var insn := (RipAddDecoded(); Decode([0x48, 0x01, 0x05, 0, 0, 0, 0], 0).insn);
      var i, c := (EmitValid(insn); Emit(insn)), With(ZERO_REGS[0 := 1][RBP := 7]);
      && IrLoad(i, c) == RefLoad(insn, c) == Load(7, 8)
      && RefEffect(insn, c, v, 7).store == Store(7, Wrap64(v + 1), 8)
      && IrEffect(i, c, v, 1).store == Store(7, Wrap64(v - 1), 8)
  {
    hide Decode, AluFlags;
    RipAddDecoded();
    EmitValid(Decode([0x48, 0x01, 0x05, 0, 0, 0, 0], 0).insn);
  }
}
