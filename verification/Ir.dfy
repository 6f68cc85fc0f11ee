/** The intermediate representation: one record per guest instruction. */
module Ir {
  import opened Words
  import opened Memory
  import opened StatusFlags
  import opened Machine

  datatype Opcode =
    | OpNop | OpLoadImm | OpMovReg | OpLoadMem | OpStoreMem
    | OpBinOpReg | OpBinOpImm | OpBinOpMemImm | OpBinOpMem
    | OpCmpReg | OpCmpImm | OpTestReg | OpJmp | OpJcc
    | OpPush | OpPop | OpLea | OpCall | OpRet | OpLeave
    | OpHlt | OpSyscall | OpImulReg | OpShiftRegImm | OpBarrier

  datatype Instr = Instr(op: Opcode, width: Width, dst: Reg, src: Reg, aux: Byte, disp: Half, imm: Int64) {

    /** The operand is a scaled-index one: `(aux & 0xF) == 6`. */
    predicate Sib() { aux % 16 == 6 }

    /** `aux & 0x10` */
    predicate ImmBit() { (aux / 16) % 2 == 1 }

    /** Opcodes that may evaluate a scaled-index address. */
    predicate Addresses() {
      op in {OpLoadMem, OpStoreMem, OpBinOpMem, OpBinOpMemImm, OpLea, OpImulReg}
    }

    /** No operand names a register outside the register file. */
    predicate Valid() {
      Addresses() && Sib() && !ImmBit() ==> 0 <= imm < 16
    }
  }

  type Code = c: seq<Instr> | |c| < 0x1_0000_0000 && forall i :: 0 <= i < |c| ==> c[i].Valid()
    witness []

  /** `static_cast<int32_t>(disp)` */
  function Sext32(d: Half): Int32 {
    if d < 0x8000_0000 then d else d - 0x1_0000_0000
  }

  /** `1 << ((aux >> 4) & 3)` */
  function ScaleOf(aux: Byte): int {
    var bits := (aux / 16) % 4;
    if bits == 0 then 1 else if bits == 1 then 2 else if bits == 2 then 4 else 8
  }

  function IndexReg(ins: Instr): Reg
    requires ins.Valid() && ins.Addresses() && ins.Sib()
  {
    if ins.ImmBit() then ins.src else ins.imm
  }

  /** `eff_addr` */
  function EffAddr(c: Cpu, ins: Instr, base: Reg): Word
    requires ins.Valid() && ins.Addresses()
  {
    if ins.Sib() then
      var scaled := Sext32(ins.disp) + c.gpr[IndexReg(ins)] * ScaleOf(ins.aux);
      Wrap64(if (ins.aux / 64) % 2 == 0 then scaled + c.gpr[base] else scaled)
    else
      BaseDisp(c, base, ins.disp)
  }

  /** `cpu.gpr[base] + static_cast<int32_t>(disp)` */
  function BaseDisp(c: Cpu, base: Reg, disp: Half): Word {
    Wrap64(c.gpr[base] + Sext32(disp))
  }

  function BinOpOf(code: int): IrBinOp {
    match code
    case 0 => Add
    case 1 => Sub
    case 2 => And
    case 3 => Or
    case 4 => Xor
    case _ => Unknown
  }

  /** The address of a store: its SIB, rip-relative or base form. */
  function StoreAddr(c: Cpu, ins: Instr): Word
    requires ins.Valid() && ins.op == OpStoreMem
  {
    if ins.aux == 1 then Wrap64(c.rip + Sext32(ins.disp))
    else if ins.Sib() then EffAddr(c, ins, ins.dst)
    else BaseDisp(c, ins.dst, ins.disp)
  }

  function LoadAddr(c: Cpu, ins: Instr): Word
    requires ins.Valid() && ins.op == OpLoadMem
  {
    if ins.aux == 1 then Wrap64(c.rip + Sext32(ins.disp)) else EffAddr(c, ins, ins.src)
  }

  /** The load an instruction makes, if any. */
  function IrLoad(ins: Instr, c: Cpu): Load
    requires ins.Valid()
  {
    match ins.op
    case OpLoadMem => Load(LoadAddr(c, ins), ins.width)
    case OpBinOpMem => Load(EffAddr(c, ins, ins.dst), ins.width)
    case OpBinOpMemImm => Load(EffAddr(c, ins, ins.dst), ins.width)
    case OpCmpReg =>
      if ins.aux == 7 then Load(BaseDisp(c, ins.src, ins.disp), ins.width)
      else if ins.aux == 8 then Load(BaseDisp(c, ins.dst, ins.disp), ins.width)
      else NoLoad
    case OpCmpImm => if ins.aux == 7 then Load(BaseDisp(c, ins.dst, ins.disp), ins.width) else NoLoad
    case OpTestReg => if ins.aux == 7 then Load(BaseDisp(c, ins.dst, ins.disp), ins.width) else NoLoad
    case OpPop => Load(c.gpr[RSP], 8)
    case OpRet => Load(c.gpr[RSP], 8)
    case OpLeave => Load(c.gpr[RBP], 8)
    case OpImulReg => if ins.aux >= 128 then Load(EffAddr(c, ins, ins.src), ins.width) else NoLoad
    case _ => NoLoad
  }

  function ExtendLoaded(ins: Instr, v: Word): Word {
    if ins.aux == 4 || ins.width == 1 then Trunc(v, 1)
    else if ins.aux == 5 then Wrap64(Signed(v, 4))
    else if ins.width == 4 then Trunc(v, 4)
    else if ins.width == 2 then Trunc(v, 2)
    else v
  }

  /** `TestReg` clears CF and OF, but only ever sets ZF and SF. */
  function TestFlags(f: Flags, l: Word, r: Word, w: Width): Flags {
    var res := Trunc(BitAnd(l, r), w);
    Flags(false, f.zf || res == 0, f.sf || BitAnd(res, SignMask(w)) != 0, false)
  }

  function ShiftOf(aux: Byte): Shift {
    if aux == 2 then Arithmetic else if aux == 1 then Right else Left
  }

  /** What an instruction does, given the value v it loaded and the index of
      the following instruction. */
  function IrEffect(ins: Instr, c: Cpu, v: Word, next: Word): Effect
    requires ins.Valid()
  {
    match ins.op
    case OpNop => Plain(c)
    case OpBarrier => Plain(c)
    case OpLoadImm => Assign(c, ins.dst, Trunc(ins.imm, ins.width))
    case OpMovReg =>
      Assign(c, ins.dst, if ins.aux == 5 then Wrap64(Signed(c.gpr[ins.src], 4))
                         else Trunc(c.gpr[ins.src], ins.width))
    case OpLoadMem => Assign(c, ins.dst, ExtendLoaded(ins, v))
    case OpStoreMem =>
      var val := if ins.ImmBit() then Wrap64(ins.imm) else c.gpr[ins.src];
      Effect(c.gpr, c.flags, Store(StoreAddr(c, ins), val, ins.width), Next)
    case OpBinOpReg => AluToReg(c, ins.dst, BinOpOf(ins.aux), c.gpr[ins.src], ins.width)
    case OpBinOpImm => AluToReg(c, ins.dst, BinOpOf(ins.aux), Wrap64(ins.imm), ins.width)
    case OpBinOpMem =>
      var op := BinOpOf(if ins.Sib() then (ins.aux / 16) % 8 else ins.aux % 16);
      AluToMem(c, EffAddr(c, ins, ins.dst), op, v, c.gpr[ins.src], ins.width)
    case OpBinOpMemImm =>
      AluToMem(c, EffAddr(c, ins, ins.dst), BinOpOf(ins.src), v, Wrap64(ins.imm), ins.width)
    case OpCmpReg =>
      Compare(c, if ins.aux == 8 then v else c.gpr[ins.dst],
              if ins.aux == 7 then v else c.gpr[ins.src], ins.width)
    case OpCmpImm => Compare(c, if ins.aux == 7 then v else c.gpr[ins.dst], Wrap64(ins.imm), ins.width)
    case OpTestReg =>
      Effect(c.gpr, TestFlags(c.flags, if ins.aux == 7 then v else c.gpr[ins.dst], c.gpr[ins.src], ins.width),
             NoStore, Next)
    case OpPush =>
      // the register is read after the stack pointer has moved
      var gpr := c.gpr[RSP := Offset(c.gpr[RSP], -8)];
      PushEffect(c, gpr[ins.src], Next)
    case OpPop => PopEffect(c, ins.dst, v)
    case OpLea =>
      Assign(c, ins.dst, if ins.aux == 3 then Wrap64(ins.imm) else EffAddr(c, ins, ins.src))
    case OpCall => PushEffect(c, next, Goto(Wrap32(ins.imm)))
    case OpRet => ReturnEffect(c, Wrap32(v))
    case OpLeave => LeaveEffect(c, v)
    case OpJmp => Branch(c, Goto(Wrap32(ins.imm)))
    case OpJcc => Branch(c, if EvalCc(ins.aux, c.flags) then Goto(Wrap32(ins.imm)) else Next)
    case OpHlt => Branch(c, Halt)
    case OpSyscall => Branch(c, Trap)
    case OpImulReg =>
      Assign(c, ins.dst, Imul(c.gpr[ins.dst], if ins.aux >= 128 then v else c.gpr[ins.src], ins.width))
    case OpShiftRegImm =>
      Assign(c, ins.dst, Shifted(ShiftOf(ins.aux), c.gpr[ins.dst], ins.imm % 64, ins.width))
  }

  /** One instruction of the IR machine. */
  function IrStep(code: Code, st: State): Outcome {
    if st.pc >= |code| then
      Outcome(st.(cpu := st.cpu.(halt := true)), Halted)
    else
      var ins := code[st.pc];
      var v := Loaded(st.mem, IrLoad(ins, st.cpu));
      Perform(st, IrEffect(ins, st.cpu, v, st.pc + 1), st.pc + 1)
  }

  /** `exec_ir`: up to n instructions, stopping at a halt or a trap. */
  function Exec(code: Code, st: State, n: nat): Outcome
    decreases n
  {
    if n == 0 then Outcome(st, Running)
    else
      var o := IrStep(code, st);
      if o.status.Running? then Exec(code, o.st, n - 1) else o
  }

  /** Running a + b steps is running a steps and then b more, unless the
      first part stopped. */
  lemma {:induction false} ExecCompose(code: Code, st: State, a: nat, b: nat)
    ensures Exec(code, st, a + b) ==
            (var first := Exec(code, st, a);
             if first.status.Running? then Exec(code, first.st, b) else first)
    decreases a
  {
    hide IrStep;
    if a > 0 {
      var o := IrStep(code, st);
      if o.status.Running? {
        ExecCompose(code, o.st, a - 1, b);
      }
    }
  }

  /** What a step leaves alone, and what each status says about the CPU. */
  lemma {:induction false} StepFrame(code: Code, st: State)
    ensures
      var o := IrStep(code, st);
      && |o.st.mem| == |st.mem|
      && (o.st.cpu.halt <==> st.cpu.halt || o.status.Halted?)
      && (o.st.cpu.pending <==> st.cpu.pending || o.status.Trapped?)
      && o.st.cpu.rip == st.cpu.rip && o.st.cpu.ret == st.cpu.ret
  {
    hide IrEffect, IrLoad;
  }
}
