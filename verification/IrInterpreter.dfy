/** The interpreter loop: registers, flags and memory updated in place.
 *
 * `ExecIr` works on a register array and on one vCPU's slice of a byte array,
 * as the kernel and the CPU fallback do.  It is proved to compute `Ir.Exec`.
 */
module IrInterpreter {
  import opened Words
  import opened Memory
  import opened StatusFlags
  import opened Machine
  import opened Ir

  class CpuState {
    const gpr: array<Word>
    var rip: Word
    var flags: Flags
    var halt: bool
    var pending: bool
    var num: Int64
    var ret: Int64

    predicate Valid() {
      gpr.Length == 16
    }

    ghost function Snap(): Cpu
      requires Valid()
      reads this, gpr
    {
      Cpu(gpr[..], rip, flags, halt, pending, num, ret)
    }

    /** All registers 0, only the interrupt flag set. */
    constructor ()
      ensures Valid() && fresh(gpr)
      ensures Snap() == Cpu(seq(16, _ => 0), 0, Flags(false, false, false, false), false, false, 0, 0)
    {
      gpr := new Word[16](_ => 0);
      rip, flags, halt, pending, num, ret := 0, RESET, false, false, 0, 0;
    }

    method CopyFrom(that: CpuState)
      requires Valid() && that.Valid() && gpr != that.gpr
      modifies this, gpr
      ensures Snap() == old(that.Snap())
    {
      forall r | 0 <= r < 16 {
        gpr[r] := that.gpr[r];
      }
      rip, flags, halt := that.rip, that.flags, that.halt;
      pending, num, ret := that.pending, that.num, that.ret;
      assert gpr[..] == old(that.gpr[..]);
    }

    method UpdateFlagsWith(res: Word, l: Word, r: Word, w: Width, op: IrBinOp)
      modifies this`flags
      ensures flags == UpdateFlags(res, l, r, w, op)
    {
      flags := UpdateFlags(res, l, r, w, op);
    }
  }

  /** Register files are distinct, as the source has them by value. */
  ghost predicate Separate(cpus: seq<CpuState>) {
    && (forall i :: 0 <= i < |cpus| ==> cpus[i].Valid())
    && (forall i, j :: 0 <= i < j < |cpus| ==> cpus[i] != cpus[j] && cpus[i].gpr != cpus[j].gpr)
  }

  /** The heap objects of some register files. */
  ghost function Objects(cpus: seq<CpuState>): set<object> {
    (set i | 0 <= i < |cpus| :: cpus[i] as object) + (set i | 0 <= i < |cpus| :: cpus[i].gpr as object)
  }

  /** Everything one vCPU consists of, as a value. */
  ghost function Config(cpu: CpuState, mem: array<Byte>, lo: nat, size: nat, pc: Word): State
    requires cpu.Valid() && lo + size <= mem.Length
    reads cpu, cpu.gpr, mem
  {
    State(cpu.Snap(), mem[lo..lo + size], pc)
  }

  /** Memory outside the slice is as it was. */
  twostate predicate OutsideUnchanged(mem: array<Byte>, lo: nat, size: nat)
    reads mem
  {
    forall a :: 0 <= a < mem.Length && !(lo <= a < lo + size) ==> mem[a] == old(mem[a])
  }

  /** The switch of `exec_ir`: pc has already moved past the instruction. */
  method ExecOp(cpu: CpuState, mem: array<Byte>, lo: nat, size: nat, ins: Instr, pc0: Word)
      returns (status: Status, pc: Word)
    requires cpu.Valid() && ins.Valid() && lo + size <= mem.Length
    modifies cpu, cpu.gpr, mem
    ensures
      var st := old(Config(cpu, mem, lo, size, pc0));
      var v := Loaded(st.mem, IrLoad(ins, st.cpu));
      Outcome(Config(cpu, mem, lo, size, pc), status) == Perform(st, IrEffect(ins, st.cpu, v, pc0), pc0)
    ensures OutsideUnchanged(mem, lo, size)
  {
    hide IrEffect, IrLoad;
    match ins.op {
      case OpNop | OpBarrier | OpLoadImm | OpMovReg | OpLea | OpShiftRegImm =>
        ExecRegisters(cpu, mem, lo, size, ins, pc0);
        return Running, pc0;
      case OpLoadMem =>
        ExecLoad(cpu, mem, lo, size, ins, pc0);
        return Running, pc0;
      case OpStoreMem =>
        ExecStore(cpu, mem, lo, size, ins, pc0);
        return Running, pc0;
      case OpImulReg =>
        ExecImul(cpu, mem, lo, size, ins, pc0);
        return Running, pc0;
      case OpBinOpReg | OpBinOpImm =>
        ExecBinOp(cpu, mem, lo, size, ins, pc0);
        return Running, pc0;
      case OpBinOpMem | OpBinOpMemImm =>
        ExecBinOpMem(cpu, mem, lo, size, ins, pc0);
        return Running, pc0;
      case OpCmpReg =>
        ExecCmpReg(cpu, mem, lo, size, ins, pc0);
        return Running, pc0;
      case OpCmpImm =>
        ExecCmpImm(cpu, mem, lo, size, ins, pc0);
        return Running, pc0;
      case OpTestReg =>
        ExecTest(cpu, mem, lo, size, ins, pc0);
        return Running, pc0;
      case OpPush | OpPop | OpLeave =>
        ExecStack(cpu, mem, lo, size, ins, pc0);
        return Running, pc0;
      case OpCall | OpRet | OpJmp | OpJcc | OpHlt | OpSyscall =>
        status, pc := ExecControl(cpu, mem, lo, size, ins, pc0);
    }
  }

  /** The instruction took its effect and falls through to the next one. */
  twostate predicate Did(cpu: CpuState, mem: array<Byte>, lo: nat, size: nat, ins: Instr, next: Word)
    requires cpu.Valid() && ins.Valid() && lo + size <= mem.Length
    reads cpu, cpu.gpr, mem
  {
    var st := old(Config(cpu, mem, lo, size, 0));
    var e := IrEffect(ins, st.cpu, Loaded(st.mem, IrLoad(ins, st.cpu)), next);
    && e.control == Next
    && cpu.Snap() == st.cpu.(gpr := e.gpr, flags := e.flags)
    && mem[lo..lo + size] == Stored(st.mem, e.store)
    && OutsideUnchanged(mem, lo, size)
  }

  method ExecRegisters(cpu: CpuState, mem: array<Byte>, lo: nat, size: nat, ins: Instr, ghost next: Word)
    requires cpu.Valid() && ins.Valid() && lo + size <= mem.Length
    requires ins.op in {OpNop, OpBarrier, OpLoadImm, OpMovReg, OpLea, OpShiftRegImm}
    modifies cpu.gpr
    ensures Did(cpu, mem, lo, size, ins, next)
  {
    var gpr := cpu.gpr;
    match ins.op {
      case OpLoadImm =>
        if ins.width == 4 {
          gpr[ins.dst] := ins.imm % 0x1_0000_0000;
        } else if ins.width == 2 {
          gpr[ins.dst] := ins.imm % 0x1_0000;
        } else if ins.width == 1 {
          gpr[ins.dst] := ins.imm % 0x100;
        } else {
          gpr[ins.dst] := Wrap64(ins.imm);
        }
      case OpMovReg =>
        if ins.aux == 5 {
          var v := Signed(gpr[ins.src], 4);
          gpr[ins.dst] := Wrap64(v);
        } else {
          gpr[ins.dst] := Trunc(gpr[ins.src], ins.width);
        }
      case OpLea =>
        if ins.aux == 3 {
          gpr[ins.dst] := Wrap64(ins.imm);
        } else if ins.Sib() {
          gpr[ins.dst] := EffAddrOf(cpu, ins, ins.src);
        } else {
          gpr[ins.dst] := Wrap64(gpr[ins.src] + Sext32(ins.disp));
        }
      case OpShiftRegImm =>
        var n := ins.imm % 64;
        if ins.aux == 2 {
          var v := Signed(gpr[ins.dst], ins.width);
          gpr[ins.dst] := Trunc(v / Pow2(n), ins.width);
        } else if ins.aux == 1 {
          gpr[ins.dst] := Trunc(gpr[ins.dst] / Pow2(n), ins.width);
        } else {
          gpr[ins.dst] := Trunc(gpr[ins.dst] * Pow2(n), ins.width);
        }
      case _ =>
    }
  }

  /** `eff_addr` on the live register array. */
  function EffAddrOf(cpu: CpuState, ins: Instr, base: Reg): (addr: Word)
    requires cpu.Valid() && ins.Valid() && ins.Addresses()
    reads cpu, cpu.gpr
    ensures addr == EffAddr(cpu.Snap(), ins, base)
  {
    if ins.Sib() then
      var scaled := Sext32(ins.disp) + cpu.gpr[IndexReg(ins)] * ScaleOf(ins.aux);
      Wrap64(if (ins.aux / 64) % 2 == 0 then scaled + cpu.gpr[base] else scaled)
    else
      Wrap64(cpu.gpr[base] + Sext32(ins.disp))
  }

  method ExecLoad(cpu: CpuState, mem: array<Byte>, lo: nat, size: nat, ins: Instr, ghost next: Word)
    requires cpu.Valid() && ins.Valid() && lo + size <= mem.Length
    requires ins.op == OpLoadMem
    modifies cpu.gpr
    ensures Did(cpu, mem, lo, size, ins, next)
  {
    hide EffAddr, Trunc, Signed, LoadMem;
    var addr := if ins.aux == 1 then Wrap64(cpu.rip + Sext32(ins.disp)) else EffAddrOf(cpu, ins, ins.src);
    var val := LoadFrom(mem, lo, size, addr, ins.width);
    if ins.aux == 4 || ins.width == 1 {
      val := Trunc(val, 1);
    } else if ins.aux == 5 {
      val := Wrap64(Signed(val, 4));
    } else if ins.width == 4 {
      val := Trunc(val, 4);
    } else if ins.width == 2 {
      val := Trunc(val, 2);
    }
    cpu.gpr[ins.dst] := val;
  }

  method ExecStore(cpu: CpuState, mem: array<Byte>, lo: nat, size: nat, ins: Instr, ghost next: Word)
    requires cpu.Valid() && ins.Valid() && lo + size <= mem.Length
    requires ins.op == OpStoreMem
    modifies mem
    ensures Did(cpu, mem, lo, size, ins, next)
  {
    hide StoreMem, EffAddr;
    var addr: Word;
    if ins.aux == 1 {
      addr := Wrap64(cpu.rip + Sext32(ins.disp));
    } else if ins.Sib() {
      addr := EffAddrOf(cpu, ins, ins.dst);
    } else {
      addr := Wrap64(cpu.gpr[ins.dst] + Sext32(ins.disp));
    }
    var val := if ins.ImmBit() then Wrap64(ins.imm) else cpu.gpr[ins.src];
    StoreTo(mem, lo, size, addr, val, ins.width);
  }

  method ExecImul(cpu: CpuState, mem: array<Byte>, lo: nat, size: nat, ins: Instr, ghost next: Word)
    requires cpu.Valid() && ins.Valid() && lo + size <= mem.Length
    requires ins.op == OpImulReg
    modifies cpu.gpr
    ensures Did(cpu, mem, lo, size, ins, next)
  {
    hide EffAddr, Trunc, LoadMem;
    var lhs := cpu.gpr[ins.dst];
    var rhs: Word;
    if ins.aux >= 128 {
      rhs := LoadFrom(mem, lo, size, EffAddrOf(cpu, ins, ins.src), ins.width);
    } else {
      rhs := cpu.gpr[ins.src];
    }
    cpu.gpr[ins.dst] := Trunc(lhs * rhs, ins.width);
  }

  method ExecBinOp(cpu: CpuState, mem: array<Byte>, lo: nat, size: nat, ins: Instr, ghost next: Word)
    requires cpu.Valid() && ins.Valid() && lo + size <= mem.Length
    requires ins.op in {OpBinOpReg, OpBinOpImm}
    modifies cpu`flags, cpu.gpr
    ensures Did(cpu, mem, lo, size, ins, next)
  {
    hide UpdateFlags, BinOpVal, Trunc;
    var op := BinOpOf(ins.aux);
    var lhs := cpu.gpr[ins.dst];
    var rhs := if ins.op == OpBinOpReg then cpu.gpr[ins.src] else Wrap64(ins.imm);
    var res := Trunc(BinOpVal(op, lhs, rhs), ins.width);
    cpu.gpr[ins.dst] := res;
    cpu.UpdateFlagsWith(res, lhs, rhs, ins.width, op);
  }

  method ExecBinOpMem(cpu: CpuState, mem: array<Byte>, lo: nat, size: nat, ins: Instr, ghost next: Word)
    requires cpu.Valid() && ins.Valid() && lo + size <= mem.Length
    requires ins.op in {OpBinOpMem, OpBinOpMemImm}
    modifies cpu`flags, mem
    ensures Did(cpu, mem, lo, size, ins, next)
  {
    hide UpdateFlags, BinOpVal, Trunc, EffAddr, LoadMem, StoreMem;
    var op, rhs;
    if ins.op == OpBinOpMem {
      op := BinOpOf(if ins.Sib() then (ins.aux / 16) % 8 else ins.aux % 16);
      rhs := cpu.gpr[ins.src];
    } else {
      op := BinOpOf(ins.src);
      rhs := Wrap64(ins.imm);
    }
    var addr := EffAddrOf(cpu, ins, ins.dst);
    var lhs := LoadFrom(mem, lo, size, addr, ins.width);
    var res := Trunc(BinOpVal(op, lhs, rhs), ins.width);
    StoreTo(mem, lo, size, addr, res, ins.width);
    cpu.UpdateFlagsWith(res, lhs, rhs, ins.width, op);
  }

  method ExecCmpReg(cpu: CpuState, mem: array<Byte>, lo: nat, size: nat, ins: Instr, ghost next: Word)
    requires cpu.Valid() && ins.Valid() && lo + size <= mem.Length
    requires ins.op == OpCmpReg
    modifies cpu`flags
    ensures Did(cpu, mem, lo, size, ins, next)
  {
    hide UpdateFlags, Trunc, LoadMem;
    var lhs: int := cpu.gpr[ins.dst];
    var rhs: int := cpu.gpr[ins.src];
    if ins.aux == 7 {
      rhs := LoadFrom(mem, lo, size, Wrap64(cpu.gpr[ins.src] + Sext32(ins.disp)), ins.width);
    } else if ins.aux == 8 {
      lhs := LoadFrom(mem, lo, size, Wrap64(cpu.gpr[ins.dst] + Sext32(ins.disp)), ins.width);
    }
    var res := Trunc(Wrap64(lhs - rhs), ins.width);
    cpu.UpdateFlagsWith(res, lhs, rhs, ins.width, Sub);
  }

  method ExecCmpImm(cpu: CpuState, mem: array<Byte>, lo: nat, size: nat, ins: Instr, ghost next: Word)
    requires cpu.Valid() && ins.Valid() && lo + size <= mem.Length
    requires ins.op == OpCmpImm
    modifies cpu`flags
    ensures Did(cpu, mem, lo, size, ins, next)
  {
    hide UpdateFlags, Trunc, LoadMem;
    var lhs: int := cpu.gpr[ins.dst];
    if ins.aux == 7 {
      lhs := LoadFrom(mem, lo, size, Wrap64(cpu.gpr[ins.dst] + Sext32(ins.disp)), ins.width);
    }
    var rhs: int := Wrap64(ins.imm);
    var res := Trunc(Wrap64(lhs - rhs), ins.width);
    cpu.UpdateFlagsWith(res, lhs, rhs, ins.width, Sub);
  }

  method ExecTest(cpu: CpuState, mem: array<Byte>, lo: nat, size: nat, ins: Instr, ghost next: Word)
    requires cpu.Valid() && ins.Valid() && lo + size <= mem.Length
    requires ins.op == OpTestReg
    modifies cpu`flags
    ensures Did(cpu, mem, lo, size, ins, next)
  {
    hide Trunc, LoadMem, BitAnd;
    var lhs := cpu.gpr[ins.dst];
    if ins.aux == 7 {
      lhs := LoadFrom(mem, lo, size, Wrap64(cpu.gpr[ins.dst] + Sext32(ins.disp)), ins.width);
    }
    var res := Trunc(BitAnd(lhs, cpu.gpr[ins.src]), ins.width);
    cpu.flags := cpu.flags.(cf := false, of := false);
    if res == 0 {
      cpu.flags := cpu.flags.(zf := true);
    }
    if BitAnd(res, SignMask(ins.width)) != 0 {
      cpu.flags := cpu.flags.(sf := true);
    }
  }

  method ExecStack(cpu: CpuState, mem: array<Byte>, lo: nat, size: nat, ins: Instr, ghost next: Word)
    requires cpu.Valid() && ins.Valid() && lo + size <= mem.Length
    requires ins.op in {OpPush, OpPop, OpLeave}
    modifies cpu.gpr, mem
    ensures Did(cpu, mem, lo, size, ins, next)
  {
    hide StoreMem, LoadMem, Offset;
    var gpr := cpu.gpr;
    match ins.op {
      case OpPush =>
        gpr[RSP] := Offset(gpr[RSP], -8);
        StoreTo(mem, lo, size, gpr[RSP], gpr[ins.src], 8);
      case OpPop =>
        var v := LoadFrom(mem, lo, size, gpr[RSP], 8);
        gpr[ins.dst] := v;
        gpr[RSP] := Offset(gpr[RSP], 8);
      case OpLeave =>
        gpr[RSP] := gpr[RBP];
        var v := LoadFrom(mem, lo, size, gpr[RSP], 8);
        gpr[RBP] := v;
        gpr[RSP] := Offset(gpr[RSP], 8);
    }
  }

  method ExecControl(cpu: CpuState, mem: array<Byte>, lo: nat, size: nat, ins: Instr, pc0: Word)
      returns (status: Status, pc: Word)
    requires cpu.Valid() && ins.Valid() && lo + size <= mem.Length
    requires ins.op in {OpCall, OpRet, OpJmp, OpJcc, OpHlt, OpSyscall}
    modifies cpu, cpu.gpr, mem
    ensures
      var st := old(Config(cpu, mem, lo, size, pc0));
      var v := Loaded(st.mem, IrLoad(ins, st.cpu));
      Outcome(Config(cpu, mem, lo, size, pc), status) == Perform(st, IrEffect(ins, st.cpu, v, pc0), pc0)
    ensures OutsideUnchanged(mem, lo, size)
  {
    hide StoreMem, LoadMem, Offset, EvalCc, Signed, Wrap32;
    var gpr := cpu.gpr;
    status, pc := Running, pc0;
    match ins.op {
      case OpCall =>
        gpr[RSP] := Offset(gpr[RSP], -8);
        StoreTo(mem, lo, size, gpr[RSP], pc, 8);
        pc := Wrap32(ins.imm);
      case OpRet =>
        var v := LoadFrom(mem, lo, size, gpr[RSP], 8);
        pc := Wrap32(v);
        gpr[RSP] := Offset(gpr[RSP], 8);
      case OpJmp =>
        pc := Wrap32(ins.imm);
      case OpJcc =>
        if EvalCc(ins.aux, cpu.flags) {
          pc := Wrap32(ins.imm);
        }
      case OpHlt =>
        cpu.halt := true;
        status := Halted;
      case OpSyscall =>
        cpu.num := Signed(gpr[0], 8);
        cpu.pending := true;
        status := Trapped;
    }
  }

  /** Fetch and execute one instruction. */
  method StepOnce(cpu: CpuState, mem: array<Byte>, lo: nat, size: nat, code: Code, pc0: Word)
      returns (status: Status, pc: Word)
    requires cpu.Valid() && lo + size <= mem.Length
    modifies cpu, cpu.gpr, mem
    ensures Outcome(Config(cpu, mem, lo, size, pc), status) == IrStep(code, old(Config(cpu, mem, lo, size, pc0)))
    ensures OutsideUnchanged(mem, lo, size)
  {
    hide IrEffect, IrLoad;
    if pc0 >= |code| {
      cpu.halt := true;
      return Halted, pc0;
    }
    status, pc := ExecOp(cpu, mem, lo, size, code[pc0], pc0 + 1);
  }

  /** `exec_ir` */
  method ExecIr(cpu: CpuState, mem: array<Byte>, lo: nat, size: nat, code: Code, pc0: Word, maxSteps: nat)
      returns (status: Status, pc: Word)
    requires cpu.Valid() && lo + size <= mem.Length
    modifies cpu, cpu.gpr, mem
    ensures Outcome(Config(cpu, mem, lo, size, pc), status) ==
            Exec(code, old(Config(cpu, mem, lo, size, pc0)), maxSteps)
    ensures OutsideUnchanged(mem, lo, size)
  {
    hide IrStep;
    pc := pc0;
    ghost var goal := Exec(code, Config(cpu, mem, lo, size, pc0), maxSteps);
    var step := 0;
    while step < maxSteps
      invariant step <= maxSteps
      invariant goal == Exec(code, Config(cpu, mem, lo, size, pc), maxSteps - step)
      invariant OutsideUnchanged(mem, lo, size)
    {
      status, pc := StepOnce(cpu, mem, lo, size, code, pc);
      if status != Running {
        return;
      }
      step := step + 1;
    }
    status := Running;
  }
}
