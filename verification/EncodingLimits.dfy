/** Where the IR encoding keeps an operand's meaning, and where it does not.
 *
 * Bit 0x10 of a record's aux byte is both the low bit of the scale field and
 * the flag that an immediate is stored.  The conditions below are exact: they
 * are the scaled-index part of the fragment `Reference.InFragment` describes.
 */
module EncodingLimits {
  import opened Words
  import opened StatusFlags
  import opened Machine
  import opened Ir
  import opened X86
  import opened Translator
  import opened Reference
  import opened Simulation

  /** A CPU with the given registers. */
  function With(gpr: Regs): Cpu {
    Cpu(gpr, 0, RESET, false, false, 0, 0)
  }

  /** A memory operand the decoder can produce, apart from RIP-relative ones. */
  predicate Proper(op: Operand) {
    op.isMem && !op.ripRel && (op.absSib ==> op.hasSib)
  }

  // ---------------------------------------------------------------- loads

  /** A sign-extending load drops the scaled index altogether. */
  predicate LoadKept(insn: Instruction) {
    if insn.sext && !insn.zext then
      insn.src.hasSib ==> insn.src.absSib && insn.src.scale == 1 && insn.src.index == insn.src.base
    else LoadOperand(insn.src)
  }

  /** A zero-extending load always reads one byte, a sign-extending one four. */
  predicate WidthKept(insn: Instruction) {
    if insn.zext then insn.src.width == 1 else insn.sext ==> insn.src.width == 4
  }

  /** A register load reads what its operand means, for all register contents,
      exactly if there is no scaled index, or the scale is 1 or 4, or the index is
      the base, and the width is the one the record always has; sign-extending
      loads need the operand to have no index but the one that makes no
      difference. */
  lemma {:induction false} LoadIff(insn: Instruction)
    requires insn.kind == MovRegMem && Proper(insn.src)
    ensures Emit(insn).Valid()
    ensures (forall c: Cpu :: IrLoad(Emit(insn), c) == RefLoad(insn, c)) <==> LoadKept(insn) && WidthKept(insn)
  {
    EmitValid(insn);
    if insn.sext && !insn.zext {
      SextLoadIff(insn);
    } else {
      PlainLoadIff(insn);
    }
  }

  lemma {:induction false} PlainLoadIff(insn: Instruction)
    requires insn.kind == MovRegMem && Proper(insn.src) && !(insn.sext && !insn.zext)
    ensures Emit(insn).Valid()
    ensures (forall c: Cpu :: IrLoad(Emit(insn), c) == RefLoad(insn, c)) <==>
            LoadOperand(insn.src) && WidthKept(insn)
  {
    EmitValid(insn);
    LoadRecord(insn);
    var i, op := Emit(insn), insn.src;
    hide Emit, EffAddr, OperandAddr;
    if !WidthKept(insn) {
      assert IrLoad(i, With(ZERO_REGS)) != RefLoad(insn, With(ZERO_REGS));
    } else if LoadOperand(op) {
      forall c: Cpu ensures IrLoad(i, c) == RefLoad(insn, c) {
        LoadAddressRoundTrip(i, op, c);
      }
    } else {
      var c := With(ZERO_REGS[op.base := 1]);
      BaseAsIndex(i, op, c);
      assert IrLoad(i, c) != RefLoad(insn, c);
    }
  }

  lemma {:induction false} LoadRecord(insn: Instruction)
    requires insn.kind == MovRegMem && Proper(insn.src) && !(insn.sext && !insn.zext)
    ensures
      var i, op := Emit(insn), insn.src;
      && i.op == OpLoadMem && i.src == op.base && i.disp == Wrap32(op.disp)
      && i.width == (if insn.zext then 1 else insn.dst.width)
      && (i.Sib() <==> op.hasSib) && i.aux != 1
      && (op.hasSib ==>
            && ScaleOf(i.aux) == op.scale && i.imm == op.index
            && (i.ImmBit() <==> op.scale == 2 || op.scale == 8)
            && ((i.aux / 64) % 2 == 1 <==> op.absSib))
  {
    SourceParts(Make(OpLoadMem).(dst := insn.dst.reg), insn.src, 0);
    hide WithSource;
  }

  /** At scale 2 or 8 the interpreter takes the record's src for the index. */
  lemma {:induction false} BaseAsIndex(i: Instr, op: Operand, c: Cpu)
    requires Proper(op) && !LoadOperand(op) && i.Valid() && i.Addresses()
    requires i.src == op.base && i.disp == Wrap32(op.disp) && i.Sib() && ScaleOf(i.aux) == op.scale && i.ImmBit()
    requires ((i.aux / 64) % 2 == 1) <==> op.absSib
    requires c.gpr == ZERO_REGS[op.base := 1]
    ensures EffAddr(c, i, i.src) != OperandAddr(op, c.gpr)
  {
    DispRoundTrip(op.disp);
    var base: int := if op.absSib then 0 else 1;
    assert c.gpr[op.index] == 0;
    assert IndexReg(i) == op.base;
    assert EffAddr(c, i, i.src) == Wrap64(base + op.scale + op.disp);
    assert OperandAddr(op, c.gpr) == Wrap64(base + op.disp);
    WrapApart(base + op.disp, op.scale);
  }

  /** A register whose content shows that the index was dropped. */
  function Telltale(op: Operand): Reg {
    if op.absSib && op.scale == 1 then op.base else op.index
  }

  lemma {:induction false} SextLoadIff(insn: Instruction)
    requires insn.kind == MovRegMem && Proper(insn.src) && insn.sext && !insn.zext
    ensures Emit(insn).Valid()
    ensures (forall c: Cpu :: IrLoad(Emit(insn), c) == RefLoad(insn, c)) <==> LoadKept(insn) && WidthKept(insn)
  {
    EmitValid(insn);
    var i, op := Emit(insn), insn.src;
    SourceParts(Make(OpLoadMem).(dst := insn.dst.reg), op, 0);
    DispRoundTrip(op.disp);
    hide WithSource, Wrap64;
    forall c: Cpu ensures IrLoad(i, c) == Load(BaseDisp(c, op.base, Wrap32(op.disp)), 4) {
    }
    if !WidthKept(insn) {
      assert IrLoad(i, With(ZERO_REGS)) != RefLoad(insn, With(ZERO_REGS));
    } else if op.hasSib && !LoadKept(insn) {
      SextWitness(op);
      var c := With(ZERO_REGS[Telltale(op) := 1]);
      assert IrLoad(i, c) != RefLoad(insn, c);
    }
  }

  lemma {:induction false} SextWitness(op: Operand)
    requires Proper(op) && op.hasSib && !(op.absSib && op.scale == 1 && op.index == op.base)
    ensures
      var c := With(ZERO_REGS[Telltale(op) := 1]);
      BaseDisp(c, op.base, Wrap32(op.disp)) != OperandAddr(op, c.gpr)
  {
    DispRoundTrip(op.disp);
    var c := With(ZERO_REGS[Telltale(op) := 1]);
    var b, x: int := c.gpr[op.base], if op.absSib then c.gpr[op.index] * op.scale
        else c.gpr[op.base] + c.gpr[op.index] * op.scale;
    assert BaseDisp(c, op.base, Wrap32(op.disp)) == Wrap64(b + op.disp);
    assert OperandAddr(op, c.gpr) == Wrap64(x + op.disp);
    if x > b {
      WrapApart(b + op.disp, x - b);
    } else {
      WrapApart(x + op.disp, b - x);
    }
  }

  // ---------------------------------------------------------------- stores

  /** A register store is right, for all register contents, exactly without a
      scaled index or at scale 1 or 4. */
  lemma {:induction false} StoreRegIff(insn: Instruction)
    requires insn.kind == MovMemReg && Proper(insn.dst)
    ensures Emit(insn).Valid()
    ensures (forall c: Cpu :: IrEffect(Emit(insn), c, 0, 0).store == RefEffect(insn, c, 0, 0).store) <==>
            StoreRegOperand(insn.dst)
  {
    var op, i := insn.dst, Emit(insn);
    EmitValid(insn);
    var i0 := Make(OpStoreMem).(src := insn.src.reg);
    EncodeParts(i0, op, 0, false);
    hide EncodeMemAddr, StoreAddr, OperandAddr;
    if StoreRegOperand(op) {
      forall c: Cpu ensures IrEffect(i, c, 0, 0).store == RefEffect(insn, c, 0, 0).store {
        EncodedAddressRoundTrip(i0, op, false, c);
      }
    } else {
      // the number of the index register is stored instead
      var v: Word := if op.index == 0 then 1 else 0;
      var c := With(ZERO_REGS[insn.src.reg := v]);
      assert i.ImmBit() && i.imm == op.index;
      assert IrEffect(i, c, 0, 0).store.val == op.index && RefEffect(insn, c, 0, 0).store.val == v;
    }
  }

  /** A store of an immediate is right exactly without a scaled index or at scale
      2 or 8: at 1 and 4 the shared bit doubles the scale. */
  lemma {:induction false} StoreImmIff(insn: Instruction)
    requires insn.kind == MovImm && Proper(insn.dst)
    ensures Emit(insn).Valid()
    ensures (forall c: Cpu :: IrEffect(Emit(insn), c, 0, 0).store == RefEffect(insn, c, 0, 0).store) <==>
            StoreImmOperand(insn.dst)
  {
    var op, i := insn.dst, Emit(insn);
    EmitValid(insn);
    var i0 := Make(OpStoreMem).(imm := insn.dst.imm);
    EncodeParts(i0, op, 0, true);
    hide EncodeMemAddr, OperandAddr;
    if StoreImmOperand(op) {
      forall c: Cpu ensures IrEffect(i, c, 0, 0).store == RefEffect(insn, c, 0, 0).store {
        EncodedAddressRoundTrip(i0, op, true, c);
      }
    } else {
      var c := With(ZERO_REGS[op.index := 1]);
      DoubledScale(i, op, c);
      assert IrEffect(i, c, 0, 0).store != RefEffect(insn, c, 0, 0).store;
    }
  }

  lemma {:induction false} DoubledScale(i: Instr, op: Operand, c: Cpu)
    requires Proper(op) && op.hasSib && (op.scale == 1 || op.scale == 4) && i.Valid() && i.op == OpStoreMem
    requires i.dst == op.base && i.disp == Wrap32(op.disp) && i.Sib() && i.ImmBit() && i.src == op.index
    requires ScaleOf(i.aux) == 2 * op.scale && ((i.aux / 64) % 2 == 1 <==> op.absSib)
    requires c.gpr == ZERO_REGS[op.index := 1]
    ensures StoreAddr(c, i) != OperandAddr(op, c.gpr)
  {
    DispRoundTrip(op.disp);
    var base: int := if op.absSib then 0 else c.gpr[op.base];
    assert i.aux != 1;
    assert StoreAddr(c, i) == Wrap64(base + 2 * op.scale + op.disp);
    assert OperandAddr(op, c.gpr) == Wrap64(base + op.scale + op.disp);
    WrapApart(base + op.scale + op.disp, op.scale);
  }

  // ---------------------------------------------------------------- lea, multiplication, comparisons

  /** Any record that computes its address from src: right exactly like a load. */
  lemma {:induction false} SourceAddressIff(i: Instr, op: Operand)
    requires Proper(op) && i.Valid() && i.Addresses()
    requires i.src == op.base && i.disp == Wrap32(op.disp) && (i.Sib() <==> op.hasSib)
    requires op.hasSib ==>
      && ScaleOf(i.aux) == op.scale && i.imm == op.index
      && (i.ImmBit() <==> op.scale == 2 || op.scale == 8) && ((i.aux / 64) % 2 == 1 <==> op.absSib)
    ensures (forall c: Cpu :: EffAddr(c, i, i.src) == OperandAddr(op, c.gpr)) <==> LoadOperand(op)
  {
    hide EffAddr, OperandAddr;
    if LoadOperand(op) {
      forall c: Cpu ensures EffAddr(c, i, i.src) == OperandAddr(op, c.gpr) {
        LoadAddressRoundTrip(i, op, c);
      }
    } else {
      BaseAsIndex(i, op, With(ZERO_REGS[op.base := 1]));
    }
  }

  /** The address a lea computes. */
  lemma {:induction false} LeaIff(insn: Instruction)
    requires insn.kind == Lea && Proper(insn.src)
    ensures Emit(insn).Valid()
    ensures (forall c: Cpu :: EffAddr(c, Emit(insn), Emit(insn).src) == OperandAddr(insn.src, c.gpr)) <==>
            LoadOperand(insn.src)
  {
    EmitValid(insn);
    SourceParts(Make(OpLea).(dst := insn.dst.reg), insn.src, 0);
    hide WithSource, EffAddr, OperandAddr;
    SourceAddressIff(Emit(insn), insn.src);
  }

  /** The load of a multiplication by memory. */
  lemma {:induction false} ImulIff(insn: Instruction)
    requires insn.kind == ImulRegMem && Proper(insn.src)
    ensures Emit(insn).Valid()
    ensures (forall c: Cpu :: IrLoad(Emit(insn), c) == RefLoad(insn, c)) <==> LoadOperand(insn.src)
  {
    EmitValid(insn);
    ImulRecord(insn);
    var i := Emit(insn);
    hide Emit, EffAddr, OperandAddr;
    SourceAddressIff(i, insn.src);
    forall c: Cpu
      ensures IrLoad(i, c) == RefLoad(insn, c) <==> EffAddr(c, i, i.src) == OperandAddr(insn.src, c.gpr)
    {
    }
  }

  lemma {:induction false} ImulRecord(insn: Instruction)
    requires insn.kind == ImulRegMem && Proper(insn.src)
    ensures
      var i, op := Emit(insn), insn.src;
      && i.op == OpImulReg && i.aux >= 128 && i.width == insn.dst.width
      && i.src == op.base && i.disp == Wrap32(op.disp) && (i.Sib() <==> op.hasSib)
      && (op.hasSib ==>
            && ScaleOf(i.aux) == op.scale && i.imm == op.index
            && (i.ImmBit() <==> op.scale == 2 || op.scale == 8) && ((i.aux / 64) % 2 == 1 <==> op.absSib))
  {
    var i0 := Make(OpImulReg).(dst := insn.dst.reg, width := insn.dst.width);
    SourceParts(i0, insn.src, 0);
    SetBit80(WithSource(i0, insn.src, 0).aux);
    hide WithSource, SetBit;
  }

  /** An operand whose scaled index can be dropped. */
  predicate IndexIdle(op: Operand) {
    op.hasSib ==> op.absSib && op.scale == 1 && op.index == op.base
  }

  /** Base plus displacement alone is the operand's address, for all register
      contents, exactly if the index makes no difference. */
  lemma {:induction false} BaseDispIff(op: Operand)
    requires Proper(op)
    ensures (forall c: Cpu :: BaseDisp(c, op.base, Wrap32(op.disp)) == OperandAddr(op, c.gpr)) <==> IndexIdle(op)
  {
    DispRoundTrip(op.disp);
    if !IndexIdle(op) {
      SextWitness(op);
    }
  }

  /** The memory operand of a comparison, if there is one. */
  predicate Compares(insn: Instruction) {
    (insn.kind == CmpRegImm && Proper(insn.dst)) ||
    (insn.kind == CmpRegReg && (Proper(insn.src) || (!insn.src.isMem && Proper(insn.dst))))
  }

  function Compared(insn: Instruction): Operand {
    if insn.kind == CmpRegReg && insn.src.isMem then insn.src else insn.dst
  }

  /** Comparisons with memory drop a scaled index. */
  lemma {:induction false} CompareIff(insn: Instruction)
    requires Compares(insn)
    ensures Emit(insn).Valid()
    ensures (forall c: Cpu :: IrLoad(Emit(insn), c) == RefLoad(insn, c)) <==> IndexIdle(Compared(insn))
  {
    EmitValid(insn);
    var op, i := Compared(insn), Emit(insn);
    forall c: Cpu
      ensures IrLoad(i, c) == RefLoad(insn, c) <==> BaseDisp(c, op.base, Wrap32(op.disp)) == OperandAddr(op, c.gpr)
    {
      hide BaseDisp, OperandAddr;
    }
    hide Emit, RefLoad, IrLoad;
    BaseDispIff(op);
  }

  // ---------------------------------------------------------------- read-modify-write

  /** With a scaled index, the operation number is overwritten by the scale. */
  predicate RmwRegKept(insn: Instruction) {
    var op := insn.dst;
    op.hasSib ==>
      && MapBinOp(insn.binop) == ScaleBits(op.scale) + (if op.absSib then 4 else 0)
      && (op.scale == 1 || op.scale == 4 || op.index == insn.src.reg)
  }

  /** An operation on memory and a register has its meaning, for all registers and
      memory contents, exactly without a scaled index, or if the scale happens to
      encode the operation and the interpreter finds the index register. */
  lemma {:induction false} RmwRegIff(insn: Instruction)
    requires insn.kind == BinOpMemReg && Proper(insn.dst)
    ensures Emit(insn).Valid()
    ensures (forall c: Cpu, v: Word :: SameMemoryOp(insn, c, v)) <==> RmwRegKept(insn)
  {
    EmitValid(insn);
    RmwRegRecord(insn);
    hide Emit, EffAddr, OperandAddr;
    if RmwRegKept(insn) {
      forall c: Cpu, v: Word ensures SameMemoryOp(insn, c, v) {
        RmwRegKeeps(insn, c, v);
      }
    } else {
      RmwRegFails(insn);
    }
  }

  /** The record makes the instruction's load and has its effect. */
  predicate SameMemoryOp(insn: Instruction, c: Cpu, v: Word) {
    EmitValid(insn);
    IrLoad(Emit(insn), c) == RefLoad(insn, c) && IrEffect(Emit(insn), c, v, 0) == RefEffect(insn, c, v, 0)
  }

  /** The operation the interpreter performs. */
  function PerformedOp(insn: Instruction): int {
    if insn.dst.hasSib then ScaleBits(insn.dst.scale) + (if insn.dst.absSib then 4 else 0) else MapBinOp(insn.binop)
  }

  lemma {:induction false} RmwRegRecord(insn: Instruction)
    requires insn.kind == BinOpMemReg && Proper(insn.dst)
    ensures
      var i, op := Emit(insn), insn.dst;
      && i.op == OpBinOpMem && i.src == insn.src.reg && i.dst == op.base && i.disp == Wrap32(op.disp)
      && i.width == op.width && (i.Sib() <==> op.hasSib)
      && (op.hasSib ==>
            && ScaleOf(i.aux) == op.scale && i.imm == op.index
            && (i.ImmBit() <==> op.scale == 2 || op.scale == 8) && ((i.aux / 64) % 2 == 1 <==> op.absSib))
      && (if i.Sib() then (i.aux / 16) % 8 else i.aux % 16) == PerformedOp(insn)
  {
    var i0, op := Make(OpBinOpMem).(src := insn.src.reg), insn.dst;
    EncodeParts(i0, op, MapBinOp(insn.binop), false);
    if op.hasSib {
      SibAuxParts(op);
      SetBit40(SibAux(op));
      ScaleInAux(SibAux(op), op.absSib);
      hide SibAux, SetBit;
    }
    hide MapBinOp;
  }

  lemma {:induction false} ScaleInAux(aux: Byte, abs: bool)
    requires aux < 64
    ensures (aux / 16) % 8 == (aux / 16) % 4 && (SetBit(aux, 0x40) / 16) % 8 == (aux / 16) % 4 + 4
  {
  }

  /** The address of the operand, when the index register is found. */
  lemma {:induction false} RmwAddress(i: Instr, op: Operand, index: Reg, c: Cpu)
    requires Proper(op) && i.Valid() && i.Addresses() && i.dst == op.base && i.disp == Wrap32(op.disp)
    requires (i.Sib() <==> op.hasSib)
    requires op.hasSib ==> ScaleOf(i.aux) == op.scale && IndexReg(i) == index && ((i.aux / 64) % 2 == 1 <==> op.absSib)
    ensures EffAddr(c, i, i.dst) == OperandAddr(op.(index := index), c.gpr)
  {
    DispRoundTrip(op.disp);
  }

  lemma {:induction false} RmwRegKeeps(insn: Instruction, c: Cpu, v: Word)
    requires insn.kind == BinOpMemReg && Proper(insn.dst) && RmwRegKept(insn)
    ensures SameMemoryOp(insn, c, v)
  {
    EmitValid(insn);
    RmwRegRecord(insn);
    BinOpAgrees(insn.binop);
    var i, op := Emit(insn), insn.dst;
    hide Emit, EffAddr, OperandAddr, AluToMem, MapBinOp, BinOpOf;
    RmwAddress(i, op, op.index, c);
  }

  /** Three and five tell the operations apart. */
  lemma {:induction false} OpsDiffer(o1: IrBinOp, o2: IrBinOp, w: Width)
    requires o1 != o2
    ensures AluResult(o1, 3, 5, w) != AluResult(o2, 3, 5, w)
  {
    hide BinOpVal;
    ThreeFiveValue(o1);
    ThreeFiveValue(o2);
  }

  function Distinct(o: IrBinOp): int {
    match o
    case Add => 8
    case Sub => -2
    case And => 1
    case Or => 7
    case Xor => 6
    case Unknown => 0
  }

  lemma {:induction false} ThreeFiveValue(o: IrBinOp)
    ensures BinOpVal(o, 3, 5) == Wrap64(Distinct(o))
  {
    hide BitOp;
    ThreeAndFive();
  }

  lemma {:induction false} ThreeAndFive()
    ensures BitAnd(3, 5) == 1 && BitOr(3, 5) == 7 && BitXor(3, 5) == 6
  {
    hide BitOp;
    ThreeFiveBits(LAnd);
    ThreeFiveBits(LOr);
    ThreeFiveBits(LXor);
  }

  lemma {:induction false} ThreeFiveBits(op: Logic)
    ensures BitOp(op, 3, 5, 64) == (match op case LAnd => 1 case LOr => 7 case LXor => 6)
  {
    ZeroBits(op, 61);
    assert BitOp(op, 0, 1, 62) == (if op.LAnd? then 0 else 1);
    assert BitOp(op, 1, 2, 63) == (if op.LAnd? then 0 else 3);
  }

  lemma {:induction false} ZeroBits(op: Logic, n: nat)
    ensures BitOp(op, 0, 0, n) == 0
    decreases n
  {
    if n > 0 {
      ZeroBits(op, n - 1);
    }
  }

  lemma {:induction false} RmwRegFails(insn: Instruction)
    requires insn.kind == BinOpMemReg && Proper(insn.dst) && !RmwRegKept(insn)
    ensures exists c: Cpu, v: Word :: !SameMemoryOp(insn, c, v)
  {
    hide SameMemoryOp;
    if MapBinOp(insn.binop) != PerformedOp(insn) {
      WrongOperation(insn);
    } else {
      WrongIndex(insn);
    }
  }

  /** The values the two machines store. */
  lemma {:induction false} RmwValues(insn: Instruction, c: Cpu, v: Word)
    requires insn.kind == BinOpMemReg && Proper(insn.dst)
    ensures Emit(insn).Valid()
    ensures
      var e1, e2 := IrEffect(Emit(insn), c, v, 0).store, RefEffect(insn, c, v, 0).store;
      && e1.Store? && e1.val == AluResult(BinOpOf(PerformedOp(insn)), v, c.gpr[insn.src.reg], insn.dst.width)
      && e2.Store? && e2.val == AluResult(BinOpOf(MapBinOp(insn.binop)), v, c.gpr[insn.src.reg], insn.dst.width)
  {
    EmitValid(insn);
    RmwRegRecord(insn);
    BinOpAgrees(insn.binop);
    hide Emit, EffAddr, OperandAddr, AluResult, AluFlags, MapBinOp, BinOpOf, PerformedOp, ToIrBinOp;
  }

  /** Five in the register and three in memory show a wrong operation. */
  lemma {:induction false} WrongOperation(insn: Instruction)
    requires insn.kind == BinOpMemReg && Proper(insn.dst) && MapBinOp(insn.binop) != PerformedOp(insn)
    ensures !SameMemoryOp(insn, With(ZERO_REGS[insn.src.reg := 5]), 3)
  {
    OpCodesDiffer(PerformedOp(insn), MapBinOp(insn.binop));
    hide Emit, IrEffect, RefEffect, IrLoad, RefLoad, AluResult, BinOpOf, MapBinOp, PerformedOp;
    RmwValues(insn, With(ZERO_REGS[insn.src.reg := 5]), 3);
    OpsDiffer(BinOpOf(PerformedOp(insn)), BinOpOf(MapBinOp(insn.binop)), insn.dst.width);
  }

  lemma {:induction false} WrongIndex(insn: Instruction)
    requires insn.kind == BinOpMemReg && Proper(insn.dst) && insn.dst.hasSib
    requires (insn.dst.scale == 2 || insn.dst.scale == 8) && insn.dst.index != insn.src.reg
    ensures !SameMemoryOp(insn, With(ZERO_REGS[insn.dst.index := 1]), 0)
  {
    EmitValid(insn);
    RmwRegRecord(insn);
    var c := With(ZERO_REGS[insn.dst.index := 1]);
    hide Emit, EffAddr, OperandAddr, MapBinOp, PerformedOp;
    RmwAddress(Emit(insn), insn.dst, insn.src.reg, c);
    OtherIndex(insn.dst, insn.src.reg, c);
  }

  lemma {:induction false} OpCodesDiffer(a: int, b: int)
    requires 0 <= a < 8 && 0 <= b < 5 && a != b
    ensures BinOpOf(a) != BinOpOf(b)
  {
  }

  /** Another index register gives another address. */
  lemma {:induction false} OtherIndex(op: Operand, r: Reg, c: Cpu)
    requires op.hasSib && r != op.index && c.gpr == ZERO_REGS[op.index := 1]
    ensures OperandAddr(op.(index := r), c.gpr) != OperandAddr(op, c.gpr)
  {
    var base: int := if op.absSib then 0 else c.gpr[op.base];
    WrapApart(base + op.disp, op.scale);
    assert OperandAddr(op, c.gpr) == Wrap64(base + op.disp + op.scale);
  }

  /** With a scaled index, the immediate is overwritten by the index register's
      number, and at scale 2 or 8 the operation number is taken for the index. */
  predicate RmwImmKept(insn: Instruction) {
    var op := insn.dst;
    op.hasSib ==>
      && Trunc(insn.src.imm, op.width) == op.index
      && (op.scale == 1 || op.scale == 4 || op.index == MapBinOp(insn.binop))
  }

  /** An operation on memory and an immediate has its meaning, for all registers
      and memory contents, exactly under that condition. */
  lemma {:induction false} RmwImmIff(insn: Instruction)
    requires insn.kind == BinOpMemImm && Proper(insn.dst)
    ensures Emit(insn).Valid()
    ensures (forall c: Cpu, v: Word :: SameMemoryOp(insn, c, v)) <==> RmwImmKept(insn)
  {
    EmitValid(insn);
    hide Emit, SameMemoryOp, Trunc;
    if RmwImmKept(insn) {
      forall c: Cpu, v: Word ensures SameMemoryOp(insn, c, v) {
        RmwImmKeeps(insn, c, v);
      }
    } else if Trunc(insn.src.imm, insn.dst.width) != insn.dst.index {
      WrongImmediate(insn);
    } else {
      WrongImmIndex(insn);
    }
  }

  lemma {:induction false} RmwImmRecord(insn: Instruction)
    requires insn.kind == BinOpMemImm && Proper(insn.dst)
    ensures
      var i, op := Emit(insn), insn.dst;
      && i.op == OpBinOpMemImm && i.src == MapBinOp(insn.binop) && i.dst == op.base && i.disp == Wrap32(op.disp)
      && i.width == op.width && (i.Sib() <==> op.hasSib)
      && i.imm == (if op.hasSib then op.index else insn.src.imm)
      && (op.hasSib ==>
            && ScaleOf(i.aux) == op.scale
            && (i.ImmBit() <==> op.scale == 2 || op.scale == 8) && ((i.aux / 64) % 2 == 1 <==> op.absSib))
  {
    EncodeParts(Make(OpBinOpMemImm).(imm := insn.src.imm, src := MapBinOp(insn.binop)), insn.dst, 0, false);
    hide MapBinOp, EncodeMemAddr;
  }

  /** What the two machines do. */
  lemma {:induction false} RmwImmEffects(insn: Instruction, c: Cpu, v: Word)
    requires insn.kind == BinOpMemImm && Proper(insn.dst)
    ensures Emit(insn).Valid()
    ensures
      var i, op, o := Emit(insn), insn.dst, ToIrBinOp(insn.binop);
      var used := Wrap64(if op.hasSib then op.index else insn.src.imm);
      && IrLoad(i, c) == Load(EffAddr(c, i, i.dst), op.width)
      && RefLoad(insn, c) == Load(OperandAddr(op, c.gpr), op.width)
      && IrEffect(i, c, v, 0) == AluToMem(c, EffAddr(c, i, i.dst), o, v, used, op.width)
      && RefEffect(insn, c, v, 0) == AluToMem(c, OperandAddr(op, c.gpr), o, v, Wrap64(insn.src.imm), op.width)
  {
    EmitValid(insn);
    RmwImmRecord(insn);
    BinOpAgrees(insn.binop);
    hide Emit, EffAddr, OperandAddr, AluToMem, MapBinOp, BinOpOf, ToIrBinOp, Wrap64;
  }

  lemma {:induction false} RmwImmAddress(insn: Instruction, c: Cpu)
    requires insn.kind == BinOpMemImm && Proper(insn.dst)
    ensures Emit(insn).Valid()
    ensures
      var i, op := Emit(insn), insn.dst;
      var index: Reg := if op.scale == 1 || op.scale == 4 || !op.hasSib then op.index else MapBinOp(insn.binop);
      EffAddr(c, i, i.dst) == OperandAddr(op.(index := index), c.gpr)
  {
    EmitValid(insn);
    RmwImmRecord(insn);
    var op := insn.dst;
    var i := Emit(insn);
    var index: Reg := if op.scale == 1 || op.scale == 4 || !op.hasSib then op.index else MapBinOp(insn.binop);
    hide Emit, EffAddr, OperandAddr, MapBinOp;
    RmwAddress(i, op, index, c);
  }

  lemma {:induction false} RmwImmKeeps(insn: Instruction, c: Cpu, v: Word)
    requires insn.kind == BinOpMemImm && Proper(insn.dst) && RmwImmKept(insn)
    ensures SameMemoryOp(insn, c, v)
  {
    hide Emit, EffAddr, OperandAddr, AluToMem, MapBinOp, ToIrBinOp, IrEffect, RefEffect, IrLoad, RefLoad, Wrap64, Trunc;
    RmwImmEffects(insn, c, v);
    RmwImmAddress(insn, c);
    var op := insn.dst;
    if op.hasSib {
      TruncSmall(op.index, op.width);
      TruncWrap(insn.src.imm, op.width);
      WrapSmall(op.index);
      SameAluToMem(c, OperandAddr(op, c.gpr), ToIrBinOp(insn.binop), v, op.index, Wrap64(insn.src.imm), op.width);
    }
  }

  lemma {:induction false} WrapSmall(r: Reg)
    ensures Wrap64(r) == r
  {
  }

  /** The operations see only the truncated operand. */
  lemma {:induction false} SameAluToMem(c: Cpu, addr: Word, op: IrBinOp, v: Word, r1: Word, r2: Word, w: Width)
    requires Trunc(r1, w) == Trunc(r2, w)
    ensures AluToMem(c, addr, op, v, r1, w) == AluToMem(c, addr, op, v, r2, w)
  {
    hide Trunc, SubOverflowBits, AddOverflowBits, BitAnd;
    SameResult(op, v, r1, r2, w);
    hide AluResult;
  }

  lemma {:induction false} SameResult(op: IrBinOp, v: Word, r1: Word, r2: Word, w: Width)
    requires Trunc(r1, w) == Trunc(r2, w)
    ensures AluResult(op, v, r1, w) == AluResult(op, v, r2, w)
  {
    match op {
      case Add => SameSumTrunc(v, r1, r2, w);
      case Sub => SameDifferenceTrunc(v, r1, r2, w);
      case And => SameBits(LAnd, v, r1, r2, w);
      case Or => SameBits(LOr, v, r1, r2, w);
      case Xor => SameBits(LXor, v, r1, r2, w);
      case Unknown =>
    }
  }

  lemma {:induction false} SameSumTrunc(v: Word, r1: Word, r2: Word, w: Width)
    requires Trunc(r1, w) == Trunc(r2, w)
    ensures Trunc(Wrap64(v + r1), w) == Trunc(Wrap64(v + r2), w)
  {
    hide Trunc, Wrap64;
    TruncWrap(v + r1, w);
    TruncWrap(v + r2, w);
    TruncAdd(v, r1, w);
    TruncAdd(v, r2, w);
  }

  lemma {:induction false} SameDifferenceTrunc(v: Word, r1: Word, r2: Word, w: Width)
    requires Trunc(r1, w) == Trunc(r2, w)
    ensures Trunc(Wrap64(v - r1), w) == Trunc(Wrap64(v - r2), w)
  {
    hide Trunc, Wrap64;
    TruncWrap(v - r1, w);
    TruncWrap(v - r2, w);
    TruncDifference(v, r1, w);
    TruncDifference(v, r2, w);
  }

  /** The low k bits of a bitwise combination come from the low k bits. */
  lemma {:induction false} LowBits(op: Logic, a: nat, b: nat, k: nat, n: nat)
    requires k <= n
    ensures BitOp(op, a, b, n) % Pow2(k) == BitOp(op, a, b % Pow2(k), k)
    decreases k
  {
    hide BitOp;
    if k == 0 {
      NoBits(op, a, b % Pow2(0));
    } else {
      var p := Pow2(k - 1);
      assert Pow2(k) == 2 * p;
      FirstBit(op, a, b, n);
      FirstBit(op, a, b % Pow2(k), k);
      HalfMod(b, p);
      HalfMod(BitOp(op, a, b, n), p);
      hide Pow2;
      LowBits(op, a / 2, b / 2, k - 1, n - 1);
    }
  }

  lemma {:induction false} NoBits(op: Logic, a: nat, b: nat)
    ensures BitOp(op, a, b, 0) == 0
  {
  }

  lemma {:induction false} FirstBit(op: Logic, a: nat, b: nat, n: nat)
    requires n > 0
    ensures BitOp(op, a, b, n) / 2 == BitOp(op, a / 2, b / 2, n - 1)
    ensures BitOp(op, a, b, n) % 2 == if BoolOp(op, a % 2 == 1, b % 2 == 1) then 1 else 0
    ensures BitOp(op, a, b, n) == BitOp(op, a, b, n) % 2 + 2 * (BitOp(op, a, b, n) / 2)
  {
  }

  lemma {:induction false} TruncIsMod(v: Word, w: Width)
    ensures Trunc(v, w) == v % Pow2(8 * w)
  {
    Pow2Values();
  }

  lemma {:induction false} SameBits(op: Logic, v: Word, r1: Word, r2: Word, w: Width)
    requires Trunc(r1, w) == Trunc(r2, w)
    ensures BitOp(op, v, r1, 64) < Pow2(64) == 0x1_0000_0000_0000_0000
    ensures Trunc(BitOp(op, v, r1, 64), w) == Trunc(BitOp(op, v, r2, 64), w)
  {
    Pow2Values();
    hide Trunc, BitOp, Pow2;
    LowBits(op, v, r1, 8 * w, 64);
    LowBits(op, v, r2, 8 * w, 64);
    TruncIsMod(r1, w);
    TruncIsMod(r2, w);
    TruncIsMod(BitOp(op, v, r1, 64), w);
    TruncIsMod(BitOp(op, v, r2, 64), w);
  }

  // a memory value that shows the right operand

  function Showing(op: IrBinOp): Word {
    if op == And then 0xFFFF_FFFF_FFFF_FFFF else 0
  }

  lemma {:induction false} OperandShown(op: IrBinOp, r1: Word, r2: Word, w: Width)
    requires op != Unknown && Trunc(r1, w) != Trunc(r2, w)
    ensures AluResult(op, Showing(op), r1, w) != AluResult(op, Showing(op), r2, w)
  {
    hide Trunc;
    match op {
      case Add =>
        WrapWord(r1);
        WrapWord(r2);
      case Sub =>
        TruncWrap(0 - r1, w);
        TruncWrap(0 - r2, w);
        TruncDifference(0, r1, w);
        TruncDifference(0, r2, w);
        ZeroTrunc(w);
      case And =>
        OnesAnd(r1);
        OnesAnd(r2);
      case Or =>
        ZeroOperand(LOr, r1);
        ZeroOperand(LOr, r2);
      case Xor =>
        ZeroOperand(LXor, r1);
        ZeroOperand(LXor, r2);
    }
  }

  lemma {:induction false} WrapWord(r: Word)
    ensures Wrap64(0 + r) == r
  {
  }

  lemma {:induction false} ZeroTrunc(w: Width)
    ensures Trunc(0, w) == 0
  {
  }

  lemma {:induction false} OnesAnd(r: Word)
    ensures BitAnd(0xFFFF_FFFF_FFFF_FFFF, r) == r
  {
    Pow2Values();
    OnesBits(r, 64);
  }

  lemma {:induction false} OnesBits(r: nat, n: nat)
    requires r < Pow2(n)
    ensures BitOp(LAnd, Pow2(n) - 1, r, n) == r
    decreases n
  {
    if n > 0 {
      assert (Pow2(n) - 1) / 2 == Pow2(n - 1) - 1 && (Pow2(n) - 1) % 2 == 1;
      OnesBits(r / 2, n - 1);
    }
  }

  lemma {:induction false} ZeroOperand(op: Logic, r: Word)
    requires !op.LAnd?
    ensures BitOp(op, 0, r, 64) == r
  {
    Pow2Values();
    ZeroOperandBits(op, r, 64);
  }

  lemma {:induction false} ZeroOperandBits(op: Logic, r: nat, n: nat)
    requires !op.LAnd? && r < Pow2(n)
    ensures BitOp(op, 0, r, n) == r
    decreases n
  {
    if n > 0 {
      ZeroOperandBits(op, r / 2, n - 1);
    }
  }

  lemma {:induction false} WrongImmediate(insn: Instruction)
    requires insn.kind == BinOpMemImm && Proper(insn.dst) && insn.dst.hasSib
    requires Trunc(insn.src.imm, insn.dst.width) != insn.dst.index
    ensures !SameMemoryOp(insn, With(ZERO_REGS), Showing(ToIrBinOp(insn.binop)))
  {
    hide Emit, EffAddr, OperandAddr, MapBinOp, IrEffect, RefEffect, IrLoad, RefLoad, Wrap64, Trunc, AluResult, AluFlags;
    var c, o, op := With(ZERO_REGS), ToIrBinOp(insn.binop), insn.dst;
    RmwImmEffects(insn, c, Showing(o));
    TruncSmall(op.index, op.width);
    TruncWrap(insn.src.imm, op.width);
    WrapSmall(op.index);
    OperandShown(o, op.index, Wrap64(insn.src.imm), op.width);
    hide Showing;
  }

  lemma {:induction false} WrongImmIndex(insn: Instruction)
    requires insn.kind == BinOpMemImm && Proper(insn.dst) && insn.dst.hasSib
    requires (insn.dst.scale == 2 || insn.dst.scale == 8) && insn.dst.index != MapBinOp(insn.binop)
    ensures !SameMemoryOp(insn, With(ZERO_REGS[insn.dst.index := 1]), 0)
  {
    hide Emit, EffAddr, OperandAddr, MapBinOp, IrEffect, RefEffect, IrLoad, RefLoad, Wrap64, AluToMem;
    var c := With(ZERO_REGS[insn.dst.index := 1]);
    RmwImmEffects(insn, c, 0);
    RmwImmAddress(insn, c);
    OtherIndex(insn.dst, MapBinOp(insn.binop), c);
  }

  // ---------------------------------------------------------------- stack and flags

  /** PUSH reads its register after the stack pointer has moved: it pushes the
      right value exactly if the register is not RSP. */
  lemma {:induction false} PushIff(insn: Instruction, c: Cpu)
    requires insn.kind == Push
    ensures Emit(insn).Valid()
    ensures IrEffect(Emit(insn), c, 0, 0) == RefEffect(insn, c, 0, 0) <==> insn.src.reg != RSP
  {
    if insn.src.reg == RSP {
      var sp: int := c.gpr[RSP];
      WrapApart(sp - 8, 8);
    }
  }

  /** `TestReg` only ever sets ZF and SF: it agrees with the flags of AND exactly
      if no stale flag is left over. */
  lemma {:induction false} TestIff(f: Flags, l: Word, r: Word, w: Width)
    ensures
      var res := AluResult(And, l, r, w);
      TestFlags(f, l, r, w) == AluFlags(And, l, r, w) <==>
      (res == 0 || !f.zf) && (BitAnd(res, SignMask(w)) != 0 || !f.sf)
  {
    hide BitAnd;
  }
}
