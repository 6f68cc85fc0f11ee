/** Translation preserves meaning.
 *
 * The IR machine keeps IR indices where the guest keeps addresses: in its
 * program counter and in the return slots on the guest stack.  The relation
 * between the two machines therefore tracks two sets: the live return slots,
 * and the bytes on which the two memories may differ.  A slot stays in the
 * second set after its Ret, until something is stored over it.
 */
module Simulation {
  import opened Words
  import opened Memory
  import opened StatusFlags
  import opened Machine
  import opened Ir
  import opened X86
  import opened Translator
  import opened Reference

  // ---------------------------------------------------------------- operands

  lemma {:induction false} DispRoundTrip(d: Int32)
    ensures Sext32(Wrap32(d)) == d
  {
  }

  lemma {:induction false} BaseDispAgrees(op: Operand, c: Cpu)
    requires BaseDispOperand(op)
    ensures BaseDisp(c, op.base, Wrap32(op.disp)) == OperandAddr(op, c.gpr)
  {
    DispRoundTrip(op.disp);
  }

  /** The packed address of a load, computed by the interpreter, is the
      operand's address. */
  lemma {:induction false} LoadAddressRoundTrip(i: Instr, op: Operand, c: Cpu)
    requires LoadOperand(op) && i.Addresses()
    requires i.src == op.base && i.disp == Wrap32(op.disp) && (i.Sib() <==> op.hasSib)
    requires op.hasSib ==>
      && ScaleOf(i.aux) == op.scale && i.imm == op.index
      && (i.ImmBit() <==> op.scale == 2 || op.scale == 8) && ((i.aux / 64) % 2 == 1 <==> op.absSib)
    ensures i.Valid() && EffAddr(c, i, i.src) == OperandAddr(op, c.gpr)
  {
    DispRoundTrip(op.disp);
    if op.hasSib {
      assert IndexReg(i) == op.index;
    }
  }

  lemma {:induction false} EncodedAddressRoundTrip(i: Instr, op: Operand, immStore: bool, c: Cpu)
    requires if immStore then StoreImmOperand(op) else StoreRegOperand(op)
    requires i.op == OpStoreMem
    ensures var r := EncodeMemAddr(i, op, 0, immStore).(width := op.width);
            && r.op == OpStoreMem && r.Valid() && StoreAddr(c, r) == OperandAddr(op, c.gpr)
            && (r.ImmBit() <==> immStore)
            && (immStore ==> r.imm == i.imm) && (!immStore ==> r.src == i.src)
  {
    EncodeParts(i, op, 0, immStore);
    var r := EncodeMemAddr(i, op, 0, immStore).(width := op.width);
    hide EncodeMemAddr;
    DispRoundTrip(op.disp);
    if op.hasSib {
      assert r.Valid() && r.aux != 1;
      assert IndexReg(r) == op.index;
    }
  }

  // ---------------------------------------------------------------- one instruction

  /** The IR record makes the same load as the instruction. */
  lemma {:induction false} SameLoad(insn: Instruction, c: Cpu)
    requires InFragment(insn)
    ensures Emit(insn).Valid() && IrLoad(Emit(insn), c) == RefLoad(insn, c)
  {
    hide EncodeMemAddr, WithSource, OperandAddr, Wrap32, SetBit;
    EmitValid(insn);
    var dst, src := insn.dst, insn.src;
    match insn.kind {
      case MovRegMem => LoadAgrees(insn, c);
      case MovImm =>
        if dst.isMem { EncodedAddressRoundTrip(Make(OpStoreMem).(imm := dst.imm), dst, true, c); }
      case MovMemReg =>
        if dst.isMem { EncodedAddressRoundTrip(Make(OpStoreMem).(src := src.reg), dst, false, c); }
      case BinOpMemImm => RmwAgrees(insn, c);
      case BinOpMemReg => if dst.isMem { RmwAgrees(insn, c); }
      case Lea => LeaAgrees(insn, c);
      case CmpRegImm | CmpRegReg =>
        if src.isMem && BaseDispOperand(src) { BaseDispAgrees(src, c); }
        if dst.isMem { BaseDispAgrees(dst, c); }
      case ImulRegMem => ImulAgrees(insn, c);
      case _ =>
    }
  }

  lemma {:induction false} LoadAgrees(insn: Instruction, c: Cpu)
    requires insn.kind == MovRegMem && InFragment(insn)
    ensures var i := EmitLoad(insn);
            && i.op == OpLoadMem && i.Valid() && i.dst == insn.dst.reg
            && i.width == MoveWidth(insn) && LoadAddr(c, i) == OperandAddr(insn.src, c.gpr)
            && (i.aux == 5 <==> insn.sext) && (i.aux == 4 || i.width == 1 <==> insn.zext)
  {
    hide OperandAddr, WithSource, EffAddr;
    var i0 := Make(OpLoadMem).(dst := insn.dst.reg);
    SourceParts(i0, insn.src, 0);
    var i := EmitLoad(insn);
    LoadAddressRoundTrip(i, insn.src, c);
  }

  lemma {:induction false} RmwAgrees(insn: Instruction, c: Cpu)
    requires insn.kind == BinOpMemImm || (insn.kind == BinOpMemReg && insn.dst.isMem)
    requires InFragment(insn)
    ensures var i := Emit(insn);
            && i.Valid() && i.op == (if insn.kind == BinOpMemImm then OpBinOpMemImm else OpBinOpMem)
            && i.width == insn.dst.width && !i.Sib() && EffAddr(c, i, i.dst) == OperandAddr(insn.dst, c.gpr)
            && (insn.kind == BinOpMemImm ==> i.imm == insn.src.imm && i.src == MapBinOp(insn.binop))
            && (insn.kind == BinOpMemReg ==> i.src == insn.src.reg && i.aux == MapBinOp(insn.binop))
  {
    hide OperandAddr, EncodeMemAddr;
    EmitValid(insn);
    BaseDispAgrees(insn.dst, c);
    if insn.kind == BinOpMemImm {
      EncodeParts(Make(OpBinOpMemImm).(imm := insn.src.imm, src := MapBinOp(insn.binop)), insn.dst, 0, false);
    } else {
      EncodeParts(Make(OpBinOpMem).(src := insn.src.reg), insn.dst, MapBinOp(insn.binop), false);
    }
  }

  lemma {:induction false} ImulAgrees(insn: Instruction, c: Cpu)
    requires insn.kind == ImulRegMem && InFragment(insn)
    ensures var i := EmitImul(insn);
            && i.op == OpImulReg && i.Valid() && i.dst == insn.dst.reg && i.width == insn.dst.width
            && (i.aux >= 128 <==> insn.src.isMem)
            && (insn.src.isMem ==> EffAddr(c, i, i.src) == OperandAddr(insn.src, c.gpr))
            && (!insn.src.isMem ==> i.src == insn.src.reg)
  {
    hide OperandAddr, WithSource, EffAddr, SetBit;
    if insn.src.isMem {
      var i0 := Make(OpImulReg).(dst := insn.dst.reg, width := insn.dst.width);
      SourceParts(i0, insn.src, 0);
      SetBit80(WithSource(i0, insn.src, 0).aux);
      LoadAddressRoundTrip(EmitImul(insn), insn.src, c);
    }
  }

  lemma {:induction false} LeaAgrees(insn: Instruction, c: Cpu)
    requires insn.kind == Lea && InFragment(insn)
    ensures var i := EmitLea(insn);
            && i.op == OpLea && i.Valid() && i.dst == insn.dst.reg
            && (i.aux == 3 <==> insn.src.ripRel)
            && (insn.src.ripRel ==> Wrap64(i.imm) == Wrap64(insn.pc + insn.size + insn.src.disp))
            && (!insn.src.ripRel ==> EffAddr(c, i, i.src) == OperandAddr(insn.src, c.gpr))
  {
    hide OperandAddr, WithSource, EffAddr;
    if insn.src.ripRel {
      SignedWrap(insn.pc + insn.size + insn.src.disp);
    } else {
      var i0 := Make(OpLea).(dst := insn.dst.reg);
      SourceParts(i0, insn.src, 0);
      LoadAddressRoundTrip(EmitLea(insn), insn.src, c);
    }
  }

  lemma {:induction false} SignedWrap(v: int)
    ensures Wrap64(Signed(v, 8)) == Wrap64(v)
  {
  }

  lemma {:induction false} BinOpAgrees(op: BinOp)
    ensures BinOpOf(MapBinOp(op)) == ToIrBinOp(op)
  {
  }

  predicate IsControl(insn: Instruction) {
    Branches(insn) || insn.kind == Ret
  }

  predicate IsMove(insn: Instruction) {
    insn.kind in {MovImm, MovRegReg, MovRegMem, MovMemReg, Lea, ImulRegMem}
  }

  predicate IsAlu(insn: Instruction) {
    insn.kind in {BinOpRegReg, BinOpRegImm, BinOpMemImm, BinOpMemReg, CmpRegImm, CmpRegReg, ShiftRegImm}
  }

  lemma {:induction false} SameMove(insn: Instruction, c: Cpu, v: Word, nextIndex: Word, nextPc: Word)
    requires InFragment(insn) && IsMove(insn)
    requires RefLoad(insn, c).Load? ==> v < Words.Span(RefLoad(insn, c).w)
    ensures Emit(insn).Valid() && IrEffect(Emit(insn), c, v, nextIndex) == RefEffect(insn, c, v, nextPc)
  {
    hide InFragment, Emit, IrEffect, RefEffect, RefLoad;
    match insn.kind {
      case MovImm | MovMemReg | MovRegReg => SameStoreOrMove(insn, c, v, nextIndex, nextPc);
      case MovRegMem => SameLoadMove(insn, c, v, nextIndex, nextPc);
      case ImulRegMem => SameImul(insn, c, v, nextIndex, nextPc);
      case Lea => SameLea(insn, c, v, nextIndex, nextPc);
    }
  }

  lemma {:induction false} SameStoreOrMove(insn: Instruction, c: Cpu, v: Word, nextIndex: Word, nextPc: Word)
    requires InFragment(insn) && insn.kind in {MovImm, MovMemReg, MovRegReg}
    ensures Emit(insn).Valid() && IrEffect(Emit(insn), c, v, nextIndex) == RefEffect(insn, c, v, nextPc)
  {
    hide EncodeMemAddr, OperandAddr, StoreAddr, Trunc, Signed, Wrap64, Merged;
    EmitValid(insn);
    var dst, src := insn.dst, insn.src;
    var before, r, w := c.gpr[dst.reg], c.gpr[src.reg], dst.width;
    if dst.isMem && insn.kind != MovRegReg {
      EncodedAddressRoundTrip(Make(OpStoreMem).(imm := dst.imm), dst, insn.kind == MovImm, c);
      EncodedAddressRoundTrip(Make(OpStoreMem).(src := src.reg), dst, insn.kind == MovImm, c);
    } else {
      WideWrite(before, dst.imm, w);
      WideWrite(before, r, w);
      WideWrite(before, Signed(r, 4), w);
      TruncIsWrap(Signed(r, 4));
    }
  }

  lemma {:induction false} SameLoadMove(insn: Instruction, c: Cpu, v: Word, nextIndex: Word, nextPc: Word)
    requires InFragment(insn) && insn.kind == MovRegMem
    requires RefLoad(insn, c).Load? ==> v < Words.Span(RefLoad(insn, c).w)
    ensures Emit(insn).Valid() && IrEffect(Emit(insn), c, v, nextIndex) == RefEffect(insn, c, v, nextPc)
  {
    hide EmitLoad, OperandAddr, EffAddr, LoadAddr, Trunc, Signed, Wrap64, Merged;
    LoadAgrees(insn, c);
    var before, w := c.gpr[insn.dst.reg], insn.dst.width;
    TruncSmall(v, MoveWidth(insn));
    TruncSmall(v, w);
    TruncIsWrap(Signed(v, 4));
    WideWrite(before, v, w);
    WideWrite(before, Signed(v, 4), w);
  }

  lemma {:induction false} SameImul(insn: Instruction, c: Cpu, v: Word, nextIndex: Word, nextPc: Word)
    requires InFragment(insn) && insn.kind == ImulRegMem
    ensures Emit(insn).Valid() && IrEffect(Emit(insn), c, v, nextIndex) == RefEffect(insn, c, v, nextPc)
  {
    hide EmitImul, OperandAddr, EffAddr, Trunc, Merged;
    ImulAgrees(insn, c);
    var r := if insn.src.isMem then v else c.gpr[insn.src.reg];
    WideWrite(c.gpr[insn.dst.reg], c.gpr[insn.dst.reg] * r, insn.dst.width);
  }

  lemma {:induction false} SameLea(insn: Instruction, c: Cpu, v: Word, nextIndex: Word, nextPc: Word)
    requires InFragment(insn) && insn.kind == Lea
    ensures Emit(insn).Valid() && IrEffect(Emit(insn), c, v, nextIndex) == RefEffect(insn, c, v, nextPc)
  {
    hide EmitLea, OperandAddr, EffAddr, Trunc, Wrap64;
    LeaAgrees(insn, c);
    TruncSmall(PlaceOf(insn, insn.src, c.gpr), 8);
  }

  /** A 32- or 64-bit write replaces the whole register. */
  lemma {:induction false} WideWrite(before: Word, v: int, w: Width)
    requires Wide(w)
    ensures Merged(before, Trunc(v, w), w) == Trunc(v, w)
    ensures 0 <= v < 0x1_0000_0000_0000_0000 ==> Merged(before, v, w) == Trunc(v, w)
  {
    TruncSmall(Trunc(v, w), w);
  }

  lemma {:induction false} AluPutWide(insn: Instruction, c: Cpu, r: Word)
    requires Wide(insn.dst.width)
    ensures AluPut(insn, c, r) == AluToReg(c, insn.dst.reg, ToIrBinOp(insn.binop), r, insn.dst.width)
  {
    hide Trunc, BinOpVal, AluFlags, Merged;
    var l, op, w := c.gpr[insn.dst.reg], ToIrBinOp(insn.binop), insn.dst.width;
    WideWrite(l, BinOpVal(op, l, r), w);
  }

  lemma {:induction false} TruncIsWrap(v: int)
    ensures Trunc(v, 8) == Wrap64(v)
  {
  }

  lemma {:induction false} SameAlu(insn: Instruction, c: Cpu, v: Word, nextIndex: Word, nextPc: Word)
    requires InFragment(insn) && IsAlu(insn)
    ensures Emit(insn).Valid() && IrEffect(Emit(insn), c, v, nextIndex) == RefEffect(insn, c, v, nextPc)
  {
    hide InFragment, Emit, IrEffect, RefEffect;
    if insn.kind in {CmpRegImm, CmpRegReg, ShiftRegImm} {
      SameCompare(insn, c, v, nextIndex, nextPc);
    } else {
      SameBinOp(insn, c, v, nextIndex, nextPc);
    }
  }

  lemma {:induction false} SameCompare(insn: Instruction, c: Cpu, v: Word, nextIndex: Word, nextPc: Word)
    requires InFragment(insn) && insn.kind in {CmpRegImm, CmpRegReg, ShiftRegImm}
    ensures Emit(insn).Valid() && IrEffect(Emit(insn), c, v, nextIndex) == RefEffect(insn, c, v, nextPc)
  {
    hide EncodeMemAddr, OperandAddr, EffAddr, CompareFlags, Shifted, Wrap64, AluResult, AluFlags;
    EmitValid(insn);
  }

  lemma {:induction false} SameBinOp(insn: Instruction, c: Cpu, v: Word, nextIndex: Word, nextPc: Word)
    requires InFragment(insn) && insn.kind in {BinOpRegReg, BinOpRegImm, BinOpMemImm, BinOpMemReg}
    ensures Emit(insn).Valid() && IrEffect(Emit(insn), c, v, nextIndex) == RefEffect(insn, c, v, nextPc)
  {
    hide Emit, IrEffect, RefEffect;
    if insn.kind == BinOpMemImm || (insn.kind == BinOpMemReg && insn.dst.isMem) {
      SameRmw(insn, c, v, nextIndex, nextPc);
    } else {
      SameRegOp(insn, c, v, nextIndex, nextPc);
    }
  }

  lemma {:induction false} SameRmw(insn: Instruction, c: Cpu, v: Word, nextIndex: Word, nextPc: Word)
    requires InFragment(insn) && (insn.kind == BinOpMemImm || (insn.kind == BinOpMemReg && insn.dst.isMem))
    ensures Emit(insn).Valid() && IrEffect(Emit(insn), c, v, nextIndex) == RefEffect(insn, c, v, nextPc)
  {
    hide Emit, OperandAddr, EffAddr, AluToMem, Wrap64, MapBinOp, BinOpOf, ToIrBinOp;
    RmwAgrees(insn, c);
    BinOpAgrees(insn.binop);
    MapBinOpByte(insn.binop);
  }

  lemma {:induction false} SameRegOp(insn: Instruction, c: Cpu, v: Word, nextIndex: Word, nextPc: Word)
    requires InFragment(insn) && insn.kind in {BinOpRegReg, BinOpRegImm, BinOpMemReg} && !insn.dst.isMem
    ensures Emit(insn).Valid() && IrEffect(Emit(insn), c, v, nextIndex) == RefEffect(insn, c, v, nextPc)
  {
    hide AluToReg, Wrap64, MapBinOp, BinOpOf, ToIrBinOp, AluPut, EncodeMemAddr;
    EmitValid(insn);
    BinOpAgrees(insn.binop);
    MapBinOpByte(insn.binop);
    AluPutWide(insn, c, c.gpr[insn.src.reg]);
    AluPutWide(insn, c, Wrap64(insn.src.imm));
  }

  lemma {:induction false} MapBinOpByte(op: BinOp)
    ensures 0 <= MapBinOp(op) < 5
  {
  }

  /** Apart from control transfers, the record has the instruction's effect:
      same registers, same flags, same store. */
  lemma {:induction false} SameEffect(insn: Instruction, c: Cpu, v: Word, nextIndex: Word, nextPc: Word)
    requires InFragment(insn) && !IsControl(insn)
    requires RefLoad(insn, c).Load? ==> v < Words.Span(RefLoad(insn, c).w)
    ensures Emit(insn).Valid() && IrEffect(Emit(insn), c, v, nextIndex) == RefEffect(insn, c, v, nextPc)
  {
    if IsMove(insn) {
      SameMove(insn, c, v, nextIndex, nextPc);
    } else if IsAlu(insn) {
      SameAlu(insn, c, v, nextIndex, nextPc);
    } else {
      SameRest(insn, c, v, nextIndex, nextPc);
    }
  }

  lemma {:induction false} SameRest(insn: Instruction, c: Cpu, v: Word, nextIndex: Word, nextPc: Word)
    requires InFragment(insn) && !IsControl(insn) && !IsMove(insn) && !IsAlu(insn)
    ensures Emit(insn).Valid() && IrEffect(Emit(insn), c, v, nextIndex) == RefEffect(insn, c, v, nextPc)
  {
    hide Offset;
    EmitValid(insn);
  }

  // ---------------------------------------------------------------- tracking return slots

  datatype Track = Track(live: set<int>, taint: set<int>)

  /** The addresses from addr up to addr + w. */
  ghost function Cells(addr: int, w: nat): (cells: set<int>)
    ensures forall a :: a in cells <==> addr <= a < addr + w
    decreases w
  {
    if w == 0 then {} else Cells(addr, w - 1) + {addr + w - 1}
  }

  ghost predicate Clear(live: set<int>, addr: int, w: int) {
    forall a :: a in live ==> a + 8 <= addr || addr + w <= a
  }

  /** What the step may do to the return slots: a Call makes a new one inside
      memory and apart from the others, a Ret uses one, and nothing else reads a
      byte that may differ or writes into a live slot. */
  ghost predicate Disciplined(insn: Instruction, st: State, next: Word, t: Track) {
    var load := RefLoad(insn, st.cpu);
    var store := RefEffect(insn, st.cpu, Loaded(st.mem, load), next).store;
    if insn.kind == Call then
      var sp := Offset(st.cpu.gpr[RSP], -8);
      InRange(|st.mem|, sp, 8) && Clear(t.live, sp, 8)
    else if insn.kind == Ret then
      st.cpu.gpr[RSP] in t.live
    else
      && (load.Load? ==> Cells(load.addr, load.w) !! t.taint)
      && (store.Store? ==> Clear(t.live, store.addr, store.w))
  }

  ghost function NextTrack(insn: Instruction, st: State, next: Word, t: Track): Track {
    var load := RefLoad(insn, st.cpu);
    var store := RefEffect(insn, st.cpu, Loaded(st.mem, load), next).store;
    if insn.kind == Call then
      var sp := Offset(st.cpu.gpr[RSP], -8);
      Track(t.live + {sp}, t.taint + Cells(sp, 8))
    else if insn.kind == Ret then
      Track(t.live - {st.cpu.gpr[RSP]}, t.taint)
    else if store.Store? && InRange(|st.mem|, store.addr, store.w) then
      Track(t.live, t.taint - Cells(store.addr, store.w))
    else t
  }

  /** A live slot: the guest address in one memory, its index in the other. */
  ghost predicate SlotRelated(prog: Program, m1: seq<Byte>, m2: seq<Byte>, a: int) {
    && 0 <= a < 0x1_0000_0000_0000_0000 && InRange(|m1|, a, 8)
    && IsPlace(prog, LoadMem(m1, a, 8))
    && LoadMem(m2, a, 8) == Find(prog, LoadMem(m1, a, 8))
  }

  ghost predicate MemRelated(prog: Program, m1: seq<Byte>, m2: seq<Byte>, t: Track) {
    && |m1| == |m2|
    && (forall a :: 0 <= a < |m1| && a !in t.taint ==> m1[a] == m2[a])
    && (forall a :: a in t.live ==> Cells(a, 8) <= t.taint)
    && (forall a :: a in t.live ==> SlotRelated(prog, m1, m2, a))
    && (forall a, b :: a in t.live && b in t.live && a != b ==> a + 8 <= b || b + 8 <= a)
  }

  /** Reference state r and IR state s stand for the same guest state. */
  ghost predicate Related(prog: Program, r: State, s: State, t: Track) {
    && r.cpu == s.cpu
    && IsPlace(prog, r.pc) && s.pc == Find(prog, r.pc)
    && MemRelated(prog, r.mem, s.mem, t)
  }

  // ---------------------------------------------------------------- memory steps

  lemma {:induction false} LoadUntainted(prog: Program, m1: seq<Byte>, m2: seq<Byte>, t: Track, load: Load)
    requires MemRelated(prog, m1, m2, t)
    requires load.Load? ==> Cells(load.addr, load.w) !! t.taint
    ensures Loaded(m1, load) == Loaded(m2, load)
  {
    hide SlotRelated, LoadMem;
    if load.Load? {
      forall a | load.addr <= a < load.addr + load.w && a < |m1| ensures m1[a] == m2[a] {
        assert a in Cells(load.addr, load.w);
      }
      LoadMemAgree(m1, m2, load.addr, load.w);
    }
  }

  /** A store apart from the slots keeps the relation and clears its bytes. */
  lemma {:induction false} StoreRelated(prog: Program, m1: seq<Byte>, m2: seq<Byte>, t: Track, addr: Word,
      val: Word, w: Width)
    requires MemRelated(prog, m1, m2, t) && Clear(t.live, addr, w)
    ensures var t' := if InRange(|m1|, addr, w) then Track(t.live, t.taint - Cells(addr, w)) else t;
            MemRelated(prog, StoreMem(m1, addr, val, w), StoreMem(m2, addr, val, w), t')
  {
    hide LoadMem, StoreMem, IsPlace;
    var n1, n2 := StoreMem(m1, addr, val, w), StoreMem(m2, addr, val, w);
    var t' := if InRange(|m1|, addr, w) then Track(t.live, t.taint - Cells(addr, w)) else t;
    forall a | 0 <= a < |m1| && a !in t'.taint ensures n1[a] == n2[a] {
      StoreMemAt(m1, addr, val, w, a);
      StoreMemAt(m2, addr, val, w, a);
    }
    forall a | a in t.live ensures SlotRelated(prog, n1, n2, a) {
      assert SlotRelated(prog, m1, m2, a);
      StoreElsewhere(m1, addr, val, w, a);
      StoreElsewhere(m2, addr, val, w, a);
    }
    forall a | a in t.live ensures Cells(a, 8) <= t'.taint {
      assert Cells(a, 8) <= t.taint;
    }
  }

  /** A store does not change a slot it does not overlap. */
  lemma {:induction false} StoreElsewhere(mem: seq<Byte>, addr: Word, val: Word, w: Width, slot: Word)
    requires slot + 8 <= addr || addr + w <= slot
    ensures LoadMem(StoreMem(mem, addr, val, w), slot, 8) == LoadMem(mem, slot, 8)
  {
    hide StoreMem, LoadMem;
    var mem' := StoreMem(mem, addr, val, w);
    forall a | slot <= a < slot + 8 && a < |mem| ensures mem'[a] == mem[a] {
      StoreMemAt(mem, addr, val, w, a);
    }
    LoadMemAgree(mem', mem, slot, 8);
  }

  /** A Call stores the guest address in one memory and its index in the other. */
  lemma {:induction false} CallRelated(prog: Program, m1: seq<Byte>, m2: seq<Byte>, t: Track, sp: Word, next: Word)
    requires MemRelated(prog, m1, m2, t) && InRange(|m1|, sp, 8) && Clear(t.live, sp, 8)
    requires IsPlace(prog, next) && |prog| < 0x1_0000_0000
    ensures MemRelated(prog, StoreMem(m1, sp, next, 8), StoreMem(m2, sp, Find(prog, next), 8),
                       Track(t.live + {sp}, t.taint + Cells(sp, 8)))
  {
    hide LoadMem, StoreMem, IsPlace, Find, Cells, Trunc;
    var n1, n2 := StoreMem(m1, sp, next, 8), StoreMem(m2, sp, Find(prog, next), 8);
    var t' := Track(t.live + {sp}, t.taint + Cells(sp, 8));
    forall a | 0 <= a < |m1| && a !in t'.taint ensures n1[a] == n2[a] {
      assert a !in Cells(sp, 8);
      StoreMemAt(m1, sp, next, 8, a);
      StoreMemAt(m2, sp, Find(prog, next), 8, a);
    }
    LoadAfterStore(m1, sp, next, 8);
    LoadAfterStore(m2, sp, Find(prog, next), 8);
    TruncSmall(next, 8);
    TruncSmall(Find(prog, next), 8);
    assert SlotRelated(prog, n1, n2, sp);
    forall a | a in t.live ensures SlotRelated(prog, n1, n2, a) {
      assert SlotRelated(prog, m1, m2, a);
      StoreElsewhere(m1, sp, next, 8, a);
      StoreElsewhere(m2, sp, Find(prog, next), 8, a);
    }
  }

  lemma {:induction false} RetRelated(prog: Program, m1: seq<Byte>, m2: seq<Byte>, t: Track, sp: int)
    requires MemRelated(prog, m1, m2, t)
    ensures MemRelated(prog, m1, m2, Track(t.live - {sp}, t.taint))
  {
  }

  // ---------------------------------------------------------------- one step

  function Resolve(prog: Program, insn: Instruction): Instr
    requires |prog| < 0x1_0000_0000
  {
    if Branches(insn) then Emit(insn).(imm := Find(prog, insn.target)) else Emit(insn)
  }

  /** code is prog, record for instruction, with its branches resolved. */
  ghost predicate Compiled(code: Code, prog: Program) {
    && |code| == |prog|
    && forall i :: 0 <= i < |prog| ==> code[i] == Resolve(prog, prog[i])
  }

  /** Whether the next step of r keeps the discipline. */
  ghost predicate StepDisciplined(prog: Program, r: State, t: Track) {
    var i := Find(prog, r.pc);
    i < |prog| ==> Disciplined(prog[i], r, Wrap64(prog[i].pc + prog[i].size), t)
  }

  ghost function StepTrack(prog: Program, r: State, t: Track): Track {
    var i := Find(prog, r.pc);
    if i < |prog| then NextTrack(prog[i], r, Wrap64(prog[i].pc + prog[i].size), t) else t
  }

  /** Both machines do the same to related states, step by step. */
  ghost predicate StepsAgree(prog: Program, code: Code, r: State, s: State, t: Track) {
    var r', s' := RefStep(prog, r), IrStep(code, s);
    r'.status == s'.status && Related(prog, r'.st, s'.st, StepTrack(prog, r, t))
  }

  /** Where instruction i may go: on to the next place, or to its target. */
  lemma {:induction false} Places(prog: Program, i: nat)
    requires WellFormed(prog) && i < |prog|
    ensures InFragment(prog[i])
    ensures var next := prog[i].pc + prog[i].size;
            && Wrap64(next) == next && IsPlace(prog, next) && Find(prog, next) == i + 1
    ensures Branches(prog[i]) ==>
              && IsPlace(prog, prog[i].target) && Wrap32(Find(prog, prog[i].target)) == Find(prog, prog[i].target)
    ensures |prog| < 0x1_0000_0000
  {
    hide InFragment;
    FindNext(prog, i);
    if Branches(prog[i]) {
      assert IsStart(prog, prog[i].target);
    }
  }

  /** Two effects that differ only as an address and its index do. */
  ghost predicate EffectsRelated(prog: Program, e1: Effect, e2: Effect) {
    && e1.gpr == e2.gpr && e1.flags == e2.flags
    && match e1.control
       case Goto(target) => IsPlace(prog, target) && e2.control.Goto? && e2.control.target == Find(prog, target)
       case _ => e2.control == e1.control
  }

  lemma {:induction false} PerformRelated(prog: Program, r: State, s: State, t: Track, e1: Effect, e2: Effect,
      next: Word, nextIndex: Word)
    requires r.cpu == s.cpu && EffectsRelated(prog, e1, e2)
    requires IsPlace(prog, next) && nextIndex == Find(prog, next)
    requires MemRelated(prog, Stored(r.mem, e1.store), Stored(s.mem, e2.store), t)
    ensures Perform(r, e1, next).status == Perform(s, e2, nextIndex).status
    ensures Related(prog, Perform(r, e1, next).st, Perform(s, e2, nextIndex).st, t)
  {
    hide MemRelated, IsPlace, Stored, Signed, Find;
  }

  /** The step of each machine, once its instruction is known. */
  lemma {:induction false} StepsUnfold(prog: Program, code: Code, r: State, s: State, v1: Word, v2: Word)
    requires WellFormed(prog) && Compiled(code, prog) && s.pc == Find(prog, r.pc) < |prog|
    requires v1 == Loaded(r.mem, RefLoad(prog[s.pc], r.cpu))
    requires code[s.pc].Valid() && v2 == Loaded(s.mem, IrLoad(code[s.pc], s.cpu))
    ensures var insn, next := prog[s.pc], prog[s.pc].pc + prog[s.pc].size;
            && RefStep(prog, r) == Perform(r, RefEffect(insn, r.cpu, v1, next), next)
            && IrStep(code, s) == Perform(s, IrEffect(code[s.pc], s.cpu, v2, s.pc + 1), s.pc + 1)
  {
    hide Perform, RefEffect, IrEffect, RefLoad, IrLoad, Resolve, Loaded, Wrap64, Find;
    Places(prog, s.pc);
  }

  lemma {:induction false} StraightStep(prog: Program, code: Code, r: State, s: State, t: Track)
    requires WellFormed(prog) && Compiled(code, prog) && Related(prog, r, s, t)
    requires StepDisciplined(prog, r, t)
    requires s.pc < |prog| && !IsControl(prog[s.pc])
    ensures StepsAgree(prog, code, r, s, t)
  {
    hide IrEffect, RefEffect, IrLoad, RefLoad, LoadMem, Emit, MemRelated, IsPlace, InFragment, Wrap64, Perform, Find;
    var insn := prog[s.pc];
    var next := insn.pc + insn.size;
    Places(prog, s.pc);
    SameLoad(insn, r.cpu);
    var load := RefLoad(insn, r.cpu);
    LoadUntainted(prog, r.mem, s.mem, t, load);
    var v := Loaded(r.mem, load);
    if load.Load? {
      LoadMemIsLE(r.mem, load.addr, load.w);
    }
    SameEffect(insn, r.cpu, v, s.pc + 1, next);
    var e := RefEffect(insn, r.cpu, v, next);
    StraightControl(insn, r.cpu, v, next);
    if e.store.Store? {
      StoreRelated(prog, r.mem, s.mem, t, e.store.addr, e.store.val, e.store.w);
    }
    StepsUnfold(prog, code, r, s, v, v);
    PerformRelated(prog, r, s, StepTrack(prog, r, t), e, e, next, s.pc + 1);
  }

  lemma {:induction false} StraightControl(insn: Instruction, c: Cpu, v: Word, next: Word)
    requires !IsControl(insn)
    ensures !RefEffect(insn, c, v, next).control.Goto?
  {
  }

  /** The records of control transfers. */
  lemma {:induction false} ResolvedControl(prog: Program, insn: Instruction)
    requires |prog| < 0x1_0000_0000
    ensures
      var t := Find(prog, insn.target);
      && (insn.kind == Jmp ==> Resolve(prog, insn) == Instr(OpJmp, 8, 0, 0, 0, 0, t))
      && (insn.kind == Jcc ==> Resolve(prog, insn) == Instr(OpJcc, 8, 0, 0, insn.cc, 0, t))
      && (insn.kind == Call ==> Resolve(prog, insn) == Instr(OpCall, 8, 0, 0, 0, 0, t))
      && (insn.kind == Ret ==> Resolve(prog, insn) == Instr(OpRet, 8, 0, 0, 0, 0, 0))
  {
    hide Find;
  }

  /** What control transfers do in the IR machine ... */
  lemma {:induction false} IrControl(i: Instr, c: Cpu, v: Word, next: Word)
    requires i.op in {OpJmp, OpJcc, OpCall, OpRet}
    ensures i.Valid() && IrLoad(i, c) == (if i.op == OpRet then Load(c.gpr[RSP], 8) else NoLoad)
    ensures i.op == OpJmp ==> IrEffect(i, c, v, next) == Branch(c, Goto(Wrap32(i.imm)))
    ensures i.op == OpJcc ==>
              IrEffect(i, c, v, next) == Branch(c, if EvalCc(i.aux, c.flags) then Goto(Wrap32(i.imm)) else Next)
    ensures i.op == OpCall ==> IrEffect(i, c, v, next) == PushEffect(c, next, Goto(Wrap32(i.imm)))
    ensures i.op == OpRet ==> IrEffect(i, c, v, next) == ReturnEffect(c, Wrap32(v))
  {
    hide EvalCc, PushEffect, ReturnEffect, Wrap32, Branch;
  }

  /** ... and in the reference machine. */
  lemma {:induction false} RefControl(i: Instruction, c: Cpu, v: Word, next: Word)
    requires IsControl(i)
    ensures RefLoad(i, c) == (if i.kind == Ret then Load(c.gpr[RSP], 8) else NoLoad)
    ensures i.kind == Jmp ==> RefEffect(i, c, v, next) == Branch(c, Goto(i.target))
    ensures i.kind == Jcc ==>
              RefEffect(i, c, v, next) == Branch(c, if EvalCc(i.cc, c.flags) then Goto(i.target) else Next)
    ensures i.kind == Call ==> RefEffect(i, c, v, next) == PushEffect(c, next, Goto(i.target))
    ensures i.kind == Ret ==> RefEffect(i, c, v, next) == ReturnEffect(c, v)
  {
    hide EvalCc, PushEffect, ReturnEffect, Branch;
  }

  /** How control transfers change the track, and what discipline they keep. */
  lemma {:induction false} ControlTrack(prog: Program, r: State, t: Track)
    requires Find(prog, r.pc) < |prog| && IsControl(prog[Find(prog, r.pc)])
    ensures
      var insn, sp := prog[Find(prog, r.pc)], r.cpu.gpr[RSP];
      var slot := Offset(sp, -8);
      && (insn.kind == Jmp || insn.kind == Jcc ==> StepTrack(prog, r, t) == t)
      && (insn.kind == Call ==> StepTrack(prog, r, t) == Track(t.live + {slot}, t.taint + Cells(slot, 8)))
      && (insn.kind == Call && StepDisciplined(prog, r, t) ==> InRange(|r.mem|, slot, 8) && Clear(t.live, slot, 8))
      && (insn.kind == Ret ==> StepTrack(prog, r, t) == Track(t.live - {sp}, t.taint))
      && (insn.kind == Ret && StepDisciplined(prog, r, t) ==> sp in t.live)
  {
    hide RefEffect, RefLoad, Find, Offset, Cells, Clear;
    var insn := prog[Find(prog, r.pc)];
    var next := Wrap64(insn.pc + insn.size);
    RefControl(insn, r.cpu, Loaded(r.mem, RefLoad(insn, r.cpu)), next);
  }

  lemma {:induction false} BranchStep(prog: Program, code: Code, r: State, s: State, t: Track)
    requires WellFormed(prog) && Compiled(code, prog) && Related(prog, r, s, t)
    requires s.pc < |prog| && (prog[s.pc].kind == Jmp || prog[s.pc].kind == Jcc)
    ensures StepsAgree(prog, code, r, s, t)
  {
    hide LoadMem, MemRelated, InFragment, EvalCc, IsPlace, Wrap64, Wrap32, Perform, Find,
         IrEffect, RefEffect, IrLoad, RefLoad, Resolve, StepTrack, StepDisciplined, Cells, Clear;
    ControlTrack(prog, r, t);
    var insn := prog[s.pc];
    var next := insn.pc + insn.size;
    Places(prog, s.pc);
    ResolvedControl(prog, insn);
    IrControl(code[s.pc], r.cpu, 0, s.pc + 1);
    RefControl(insn, r.cpu, 0, next);
    StepsUnfold(prog, code, r, s, 0, 0);
    PerformRelated(prog, r, s, StepTrack(prog, r, t), RefEffect(insn, r.cpu, 0, next),
                   IrEffect(code[s.pc], r.cpu, 0, s.pc + 1), next, s.pc + 1);
  }

  lemma {:induction false} CodeAt(prog: Program, code: Code, i: nat)
    requires Compiled(code, prog) && i < |prog| < 0x1_0000_0000
    ensures i < |code| && code[i] == Resolve(prog, prog[i])
  {
  }

  lemma {:induction false} CallStep(prog: Program, code: Code, r: State, s: State, t: Track)
    requires WellFormed(prog) && Compiled(code, prog) && Related(prog, r, s, t)
    requires StepDisciplined(prog, r, t)
    requires s.pc < |prog| && prog[s.pc].kind == Call
    ensures StepsAgree(prog, code, r, s, t)
  {
    hide LoadMem, MemRelated, InFragment, StoreMem, IsPlace, Wrap64, Wrap32, Offset, Perform, Find,
         IrEffect, RefEffect, IrLoad, RefLoad, Resolve, StepTrack, StepDisciplined, Cells, Clear,
         WellFormed, Compiled, RefStep, IrStep;
    ControlTrack(prog, r, t);
    var insn := prog[s.pc];
    var next := insn.pc + insn.size;
    Places(prog, s.pc);
    CodeAt(prog, code, s.pc);
    ResolvedControl(prog, insn);
    IrControl(code[s.pc], r.cpu, 0, s.pc + 1);
    RefControl(insn, r.cpu, 0, next);
    CallRelated(prog, r.mem, s.mem, t, Offset(r.cpu.gpr[RSP], -8), next);
    StepsUnfold(prog, code, r, s, 0, 0);
    PerformRelated(prog, r, s, StepTrack(prog, r, t), RefEffect(insn, r.cpu, 0, next),
                   IrEffect(code[s.pc], r.cpu, 0, s.pc + 1), next, s.pc + 1);
  }

  lemma {:induction false} LiveSlot(prog: Program, m1: seq<Byte>, m2: seq<Byte>, t: Track, a: int)
    requires MemRelated(prog, m1, m2, t) && a in t.live
    ensures SlotRelated(prog, m1, m2, a)
  {
  }

  lemma {:induction false} RetStep(prog: Program, code: Code, r: State, s: State, t: Track)
    requires WellFormed(prog) && Compiled(code, prog) && Related(prog, r, s, t)
    requires StepDisciplined(prog, r, t)
    requires s.pc < |prog| && prog[s.pc].kind == Ret
    ensures StepsAgree(prog, code, r, s, t)
  {
    hide LoadMem, InFragment, StoreMem, IsPlace, MemRelated, Wrap64, Offset, Perform, Find,
         IrEffect, RefEffect, IrLoad, RefLoad, Resolve, StepTrack, StepDisciplined, Cells, Clear;
    ControlTrack(prog, r, t);
    var insn := prog[s.pc];
    var next := insn.pc + insn.size;
    var sp := r.cpu.gpr[RSP];
    var v1, v2 := LoadMem(r.mem, sp, 8), LoadMem(s.mem, sp, 8);
    Places(prog, s.pc);
    ResolvedControl(prog, insn);
    IrControl(code[s.pc], r.cpu, v2, s.pc + 1);
    RefControl(insn, r.cpu, v1, next);
    LiveSlot(prog, r.mem, s.mem, t, sp);
    RetRelated(prog, r.mem, s.mem, t, sp);
    StepsUnfold(prog, code, r, s, v1, v2);
    PerformRelated(prog, r, s, StepTrack(prog, r, t), RefEffect(insn, r.cpu, v1, next),
                   IrEffect(code[s.pc], r.cpu, v2, s.pc + 1), next, s.pc + 1);
  }

  /** One disciplined step from related states leads to related states, with the
      same registers, the same flags and the same status. */
  lemma {:induction false} StepSimulation(prog: Program, code: Code, r: State, s: State, t: Track)
    requires WellFormed(prog) && Compiled(code, prog) && Related(prog, r, s, t)
    requires StepDisciplined(prog, r, t)
    ensures StepsAgree(prog, code, r, s, t)
  {
    if s.pc < |prog| {
      match prog[s.pc].kind {
        case Jmp | Jcc => BranchStep(prog, code, r, s, t);
        case Call => CallStep(prog, code, r, s, t);
        case Ret => RetStep(prog, code, r, s, t);
        case _ => StraightStep(prog, code, r, s, t);
      }
    }
  }
}
