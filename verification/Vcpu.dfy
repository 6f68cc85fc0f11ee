/** Virtual CPUs and the system calls the host serves for them. */
module Vcpu {
  import opened Words
  import opened StatusFlags
  import opened Machine
  import opened IrInterpreter

  const RAX: Reg := 0
  const RDX: Reg := 2
  const RSI: Reg := 6
  const RDI: Reg := 7

  const ENOSYS: Int64 := -38
  const EFAULT: Int64 := -14

  /** `guest_ptr`: the address if the range is inside RAM, else 0. */
  function GuestPtr(size: Word, addr: Word, len: Word): Word {
    if Wrap64(addr + len) > size then 0 else addr
  }

  /** The return value of `sys_write`; what is printed is not modelled. */
  function SysWrite(size: Word, fd: Int64, buf: Word, len: Word): Int64 {
    if fd != 1 && fd != 2 then ENOSYS
    else if GuestPtr(size, buf, len) == 0 then EFAULT
    else Signed(len, 8)
  }

  /** The return value of `sys_read`: end of file on standard input. */
  function SysRead(fd: Int64): Int64 {
    if fd == 0 then 0 else ENOSYS
  }

  predicate IsExit(nr: Int64) {
    nr == 60 || nr == 231
  }

  function SyscallResult(c: Cpu, size: Word): Int64 {
    var a0 := Signed(c.gpr[RDI], 8);
    match c.num
    case 0 => SysRead(a0)
    case 1 => SysWrite(size, a0, c.gpr[RSI], c.gpr[RDX])
    case 12 => if a0 != 0 then a0 else Signed(size / 2, 8)
    case 60 => a0
    case 231 => a0
    case _ => ENOSYS
  }

  /** `handle_syscall`: only registers and the memory size matter, and guest
      memory is not an argument. */
  function Handle(c: Cpu, size: Word): Cpu {
    var ret := SyscallResult(c, size);
    c.(gpr := c.gpr[RAX := Wrap64(ret)], ret := ret, halt := c.halt || IsExit(c.num), pending := false)
  }

  class VirtualCpu {
    const state: CpuState

    /** A vCPU starts at entry with its stack 0x100 bytes below the end of RAM. */
    constructor (memSize: Word, entry: Word)
      ensures fresh(state) && fresh(state.gpr) && state.Valid()
      ensures state.Snap() ==
              Cpu(seq(16, _ => 0)[RSP := Wrap64(memSize - 0x100)], entry, Flags(false, false, false, false), false,
                  false, 0, 0)
    {
      state := new CpuState();
      new;
      state.rip := entry;
      state.gpr[RSP] := Wrap64(memSize - 0x100);
    }

    /** `dispatch` */
    method HandleSyscall(memSize: Word)
      requires state.Valid()
      modifies state, state.gpr
      ensures state.Snap() == Handle(old(state.Snap()), memSize)
    {
      hide Signed, Wrap64;
      var a0 := Signed(state.gpr[RDI], 8);
      var ret := ENOSYS;
      match state.num {
        case 0 =>
          ret := SysRead(a0);
        case 1 =>
          ret := SysWrite(memSize, a0, state.gpr[RSI], state.gpr[RDX]);
        case 12 =>
          ret := if a0 != 0 then a0 else Signed(memSize / 2, 8);
        case 60 =>
          state.halt := true;
          ret := a0;
        case 231 =>
          state.halt := true;
          ret := a0;
        case _ =>
      }
      state.ret := ret;
      state.gpr[RAX] := Wrap64(ret);
      state.pending := false;
    }
  }
}
