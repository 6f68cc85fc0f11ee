/** The guest reference machine.
 *
 * It runs decoded instructions directly: its program counter and the return
 * addresses on its stack are guest addresses, and an operand means base plus
 * scaled index plus displacement.  Nothing here mentions the IR.
 */
module Reference {
  import opened Words
  import opened Memory
  import opened StatusFlags
  import opened Machine
  import opened X86

  type Program = seq<Instruction>

  // ---------------------------------------------------------------- control

  /** The index of the instruction at pc, |prog| if there is none. */
  function Find(prog: Program, pc: Word): (i: nat)
    ensures i <= |prog|
    ensures i < |prog| ==> prog[i].pc == pc
  {
    if prog == [] then 0
    else if prog[0].pc == pc then 0
    else 1 + Find(prog[1..], pc)
  }

  predicate IsStart(prog: Program, pc: Word) {
    Find(prog, pc) < |prog|
  }

  predicate Follows(prog: Program, i: nat)
    requires 0 < i < |prog|
  {
    prog[i].pc == prog[i - 1].pc + prog[i - 1].size
  }

  /** Each instruction begins where the one before it ends. */
  predicate GapFree(prog: Program) {
    && |prog| < 0x1_0000_0000
    && (forall i :: 0 <= i < |prog| ==> prog[i].size > 0 && prog[i].pc + prog[i].size < 0x1_0000_0000_0000_0000)
    && (forall i :: 0 < i < |prog| ==> Follows(prog, i))
  }

  /** An instruction start, or the address just past the program. */
  predicate IsPlace(prog: Program, pc: Word) {
    IsStart(prog, pc) || (|prog| > 0 && pc == prog[|prog| - 1].pc + prog[|prog| - 1].size)
  }

  lemma {:induction false} Increasing(prog: Program, i: nat, j: nat)
    requires GapFree(prog) && i < j < |prog|
    ensures prog[i].pc + prog[i].size <= prog[j].pc
    decreases j - i
  {
    assert Follows(prog, j);
    if i + 1 < j {
      Increasing(prog, i, j - 1);
    }
  }

  lemma {:induction false} FindFirst(prog: Program, i: nat)
    requires i < |prog| && forall k :: 0 <= k < i ==> prog[k].pc != prog[i].pc
    ensures Find(prog, prog[i].pc) == i
  {
    if i > 0 {
      FindFirst(prog[1..], i - 1);
    }
  }

  lemma {:induction false} FindNone(prog: Program, pc: Word)
    requires forall k :: 0 <= k < |prog| ==> prog[k].pc != pc
    ensures Find(prog, pc) == |prog|
  {
    if prog != [] {
      FindNone(prog[1..], pc);
    }
  }

  /** Instruction starts and indices correspond one to one. */
  lemma {:induction false} FindPc(prog: Program, i: nat)
    requires GapFree(prog) && i < |prog|
    ensures Find(prog, prog[i].pc) == i
  {
    forall k | 0 <= k < i ensures prog[k].pc != prog[i].pc {
      Increasing(prog, k, i);
    }
    FindFirst(prog, i);
  }

  /** The end of the program is not an instruction start. */
  lemma {:induction false} EndIsNoStart(prog: Program)
    requires GapFree(prog) && prog != []
    ensures var last := prog[|prog| - 1]; Find(prog, last.pc + last.size) == |prog|
  {
    var last := prog[|prog| - 1];
    forall k | 0 <= k < |prog| ensures prog[k].pc != last.pc + last.size {
      if k < |prog| - 1 {
        Increasing(prog, k, |prog| - 1);
      }
    }
    FindNone(prog, last.pc + last.size);
  }

  /** Falling through moves to the next index. */
  lemma {:induction false} FindNext(prog: Program, i: nat)
    requires GapFree(prog) && i < |prog|
    ensures Find(prog, prog[i].pc + prog[i].size) == i + 1
    ensures IsPlace(prog, prog[i].pc + prog[i].size)
  {
    if i + 1 < |prog| {
      FindPc(prog, i + 1);
      assert Follows(prog, i + 1);
    } else {
      EndIsNoStart(prog);
    }
  }

  // ---------------------------------------------------------------- operands and effects

  /** base + index * scale + disp, the base dropped for an absolute operand. */
  function OperandAddr(op: Operand, gpr: Regs): Word {
    var base: int := if op.absSib then 0 else gpr[op.base];
    var index: int := if op.hasSib then gpr[op.index] * op.scale else 0;
    Wrap64(base + index + op.disp)
  }

  function ToIrBinOp(op: BinOp): IrBinOp {
    match op
    case BAdd => Add
    case BSub => Sub
    case BAnd => And
    case BOr => Or
    case BXor => Xor
  }

  /** The address an operand of an instruction names: RIP-relative to the end of
      the instruction, or from registers. */
  function PlaceOf(insn: Instruction, op: Operand, gpr: Regs): Word {
    if op.ripRel then Wrap64(insn.pc + insn.size + op.disp) else OperandAddr(op, gpr)
  }

  /** The width of a move's source. */
  function MoveWidth(insn: Instruction): Width {
    if insn.zext || insn.sext then insn.src.width else insn.dst.width
  }

  /** The load of an operand, if it is in memory. */
  function OperandLoad(insn: Instruction, op: Operand, c: Cpu, w: Width): Load {
    if op.isMem then Load(PlaceOf(insn, op, c.gpr), w) else NoLoad
  }

  function RefLoad(insn: Instruction, c: Cpu): Load {
    match insn.kind
    case MovRegMem => OperandLoad(insn, insn.src, c, MoveWidth(insn))
    case BinOpRegReg => OperandLoad(insn, insn.src, c, insn.dst.width)
    case BinOpRegImm => OperandLoad(insn, insn.dst, c, insn.dst.width)
    case BinOpMemImm => OperandLoad(insn, insn.dst, c, insn.dst.width)
    case BinOpMemReg => OperandLoad(insn, insn.dst, c, insn.dst.width)
    case CmpRegImm => OperandLoad(insn, insn.dst, c, insn.dst.width)
    case CmpRegReg => OperandLoad(insn, if insn.src.isMem then insn.src else insn.dst, c, insn.dst.width)
    case TestRegReg => OperandLoad(insn, insn.dst, c, insn.dst.width)
    case ImulRegMem => OperandLoad(insn, insn.src, c, insn.dst.width)
    case Pop => Load(c.gpr[RSP], 8)
    case Ret => Load(c.gpr[RSP], 8)
    case Leave => Load(c.gpr[RBP], 8)
    case _ => NoLoad
  }

  /** A source of a move, extended as the instruction says. */
  function Extended(insn: Instruction, v: Word): Word {
    if insn.zext then Trunc(v, insn.src.width)
    else if insn.sext then Trunc(Signed(v, insn.src.width), insn.dst.width)
    else Trunc(v, insn.dst.width)
  }

  /** A register after a write at a width: 32 bits clear the upper half, 8 and 16
      bits leave the rest alone. */
  function Merged(before: Word, v: Word, w: Width): Word {
    if w == 1 then before - before % 0x100 + Trunc(v, 1)
    else if w == 2 then before - before % 0x1_0000 + Trunc(v, 2)
    else Trunc(v, w)
  }

  function Put(c: Cpu, r: Reg, v: Word, w: Width): Effect {
    Assign(c, r, Merged(c.gpr[r], v, w))
  }

  function ShiftKind(op: BinOp): Shift {
    if op == BAdd then Left else if op == BSub then Right else Arithmetic
  }

  /** A binary operation into the destination register. */
  function AluPut(insn: Instruction, c: Cpu, r: Word): Effect {
    var l, op, w := c.gpr[insn.dst.reg], ToIrBinOp(insn.binop), insn.dst.width;
    Put(c, insn.dst.reg, AluResult(op, l, r, w), w).(flags := AluFlags(op, l, r, w))
  }

  /** A binary operation on the destination, a register or memory. */
  function AluToDst(insn: Instruction, c: Cpu, v: Word, r: Word): Effect {
    var dst, op := insn.dst, ToIrBinOp(insn.binop);
    if dst.isMem then AluToMem(c, PlaceOf(insn, dst, c.gpr), op, v, r, dst.width) else AluPut(insn, c, r)
  }

  /** What an instruction does, v being the value it loaded and next the address
      of the following instruction. */
  function RefEffect(insn: Instruction, c: Cpu, v: Word, next: Word): Effect {
    var dst, src := insn.dst, insn.src;
    match insn.kind
    case Nop => Plain(c)
    case MovImm =>
      if dst.isMem then
        Effect(c.gpr, c.flags, Store(PlaceOf(insn, dst, c.gpr), Wrap64(dst.imm), dst.width), Next)
      else Put(c, dst.reg, Trunc(dst.imm, dst.width), dst.width)
    case MovRegReg => Put(c, dst.reg, Extended(insn, c.gpr[src.reg]), dst.width)
    case MovRegMem => Put(c, dst.reg, Extended(insn, if src.isMem then v else c.gpr[src.reg]), dst.width)
    case MovMemReg =>
      if dst.isMem then
        Effect(c.gpr, c.flags, Store(PlaceOf(insn, dst, c.gpr), c.gpr[src.reg], dst.width), Next)
      else Put(c, dst.reg, c.gpr[src.reg], dst.width)
    case BinOpRegReg => AluPut(insn, c, if src.isMem then v else c.gpr[src.reg])
    case BinOpRegImm => AluToDst(insn, c, v, Wrap64(src.imm))
    case BinOpMemImm => AluToDst(insn, c, v, Wrap64(src.imm))
    case BinOpMemReg => AluToDst(insn, c, v, c.gpr[src.reg])
    case CmpRegImm => Compare(c, if dst.isMem then v else c.gpr[dst.reg], Wrap64(src.imm), dst.width)
    case CmpRegReg =>
      if src.isMem then Compare(c, c.gpr[dst.reg], v, dst.width)
      else if dst.isMem then Compare(c, v, c.gpr[src.reg], dst.width)
      else Compare(c, c.gpr[dst.reg], c.gpr[src.reg], dst.width)
    case TestRegReg =>
      Effect(c.gpr, AluFlags(And, if dst.isMem then v else c.gpr[dst.reg], c.gpr[src.reg], dst.width), NoStore, Next)
    case Jmp => Branch(c, Goto(insn.target))
    case Jcc => Branch(c, if EvalCc(insn.cc, c.flags) then Goto(insn.target) else Next)
    case Push => PushEffect(c, c.gpr[src.reg], Next)
    case Pop => Effect(c.gpr[RSP := Offset(c.gpr[RSP], 8)][dst.reg := v], c.flags, NoStore, Next)
    case Lea => Put(c, dst.reg, PlaceOf(insn, src, c.gpr), dst.width)
    case Call => PushEffect(c, next, Goto(insn.target))
    case Ret => ReturnEffect(c, v)
    case Leave => LeaveEffect(c, v)
    case Hlt => Branch(c, Halt)
    case Syscall => Branch(c, Trap)
    case ImulRegMem =>
      Put(c, dst.reg, Imul(c.gpr[dst.reg], if src.isMem then v else c.gpr[src.reg], dst.width), dst.width)
    case ShiftRegImm =>
      Put(c, dst.reg, Shifted(ShiftKind(insn.binop), c.gpr[dst.reg], src.imm % 64, dst.width), dst.width)
    case Invalid => Branch(c, Halt)
  }

  /** One step of the reference machine; leaving the program halts it. */
  function RefStep(prog: Program, st: State): Outcome {
    var i := Find(prog, st.pc);
    if i == |prog| then
      Outcome(st.(cpu := st.cpu.(halt := true)), Halted)
    else
      var insn := prog[i];
      var next := Wrap64(insn.pc + insn.size);
      var v := Loaded(st.mem, RefLoad(insn, st.cpu));
      Perform(st, RefEffect(insn, st.cpu, v, next), next)
  }

  // ---------------------------------------------------------------- the supported fragment

  predicate BaseDispOperand(op: Operand) {
    op.isMem && !op.ripRel && !op.hasSib && !op.absSib
  }

  /** A memory operand whose scaled index, if any, survives the encoding of a
      load: scale 1 or 4, or the index register is the base register. */
  predicate LoadOperand(op: Operand) {
    op.isMem && !op.ripRel && (op.absSib ==> op.hasSib) &&
    (op.hasSib ==> op.scale == 1 || op.scale == 4 || op.index == op.base)
  }

  predicate StoreRegOperand(op: Operand) {
    op.isMem && !op.ripRel && (op.absSib ==> op.hasSib) && (op.hasSib ==> op.scale == 1 || op.scale == 4)
  }

  predicate StoreImmOperand(op: Operand) {
    op.isMem && !op.ripRel && (op.absSib ==> op.hasSib) && (op.hasSib ==> op.scale == 2 || op.scale == 8)
  }

  predicate Wide(w: Width) { w == 4 || w == 8 }

  /** The instructions whose IR encoding keeps the operands' meaning. */
  predicate InFragment(insn: Instruction) {
    var dst, src := insn.dst, insn.src;
    match insn.kind
    case Nop => true
    case MovImm => if dst.isMem then StoreImmOperand(dst) && (Wide(dst.width) || dst.width == 1) else Wide(dst.width)
    case MovRegReg => Wide(dst.width) && !insn.zext && (insn.sext ==> src.width == 4 && dst.width == 8)
    case MovRegMem =>
      && LoadOperand(src) && Wide(dst.width) && !(insn.zext && insn.sext) && (insn.zext ==> src.width == 1)
      && (insn.sext ==> src.width == 4 && dst.width == 8 && !src.hasSib)
    case MovMemReg => if dst.isMem then StoreRegOperand(dst) && (Wide(dst.width) || dst.width == 1) else Wide(dst.width)
    case BinOpRegReg => !src.isMem && !dst.isMem && Wide(dst.width)
    case BinOpRegImm => !dst.isMem && Wide(dst.width)
    case BinOpMemImm => BaseDispOperand(dst) && Wide(dst.width)
    case BinOpMemReg => (dst.isMem ==> BaseDispOperand(dst)) && Wide(dst.width)
    case CmpRegImm => (dst.isMem ==> BaseDispOperand(dst)) && Wide(dst.width)
    case CmpRegReg =>
      && Wide(dst.width) && !(src.isMem && dst.isMem)
      && (src.isMem ==> BaseDispOperand(src)) && (dst.isMem ==> BaseDispOperand(dst))
    case TestRegReg => false
    case Jmp => true
    case Jcc => insn.cc < 16 && insn.cc != 0xA && insn.cc != 0xB
    case Push => src.reg != RSP
    case Pop => dst.reg != RSP
    case Lea => (src.ripRel || LoadOperand(src)) && dst.width == 8
    case Call => true
    case Ret => true
    case Leave => true
    case Hlt => true
    case Syscall => true
    case ImulRegMem => Wide(dst.width) && (src.isMem ==> LoadOperand(src))
    case ShiftRegImm => !dst.isMem && dst.width == 8
    case Invalid => false
  }

  predicate Branches(insn: Instruction) {
    insn.kind == Jmp || insn.kind == Jcc || insn.kind == Call
  }

  /** A gap-free program whose branches go to instructions. */
  predicate Closed(prog: Program) {
    && GapFree(prog)
    && (forall i :: 0 <= i < |prog| && Branches(prog[i]) ==> IsStart(prog, prog[i].target))
  }

  /** A closed program in the fragment. */
  predicate WellFormed(prog: Program) {
    Closed(prog) && forall i :: 0 <= i < |prog| ==> InFragment(prog[i])
  }
}
