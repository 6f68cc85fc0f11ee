/** What the IR machine and the guest reference machine have in common.
 *
 * An instruction makes at most one load, then updates the registers, makes at
 * most one store and chooses where to go.  Describing both machines by these
 * effects lets memory be reasoned about once, for all instructions.
 */
module Machine {
  import opened Words
  import opened Memory
  import opened StatusFlags

  type Reg = x: int | 0 <= x < 16

  const RSP: Reg := 4
  const RBP: Reg := 5

  type Regs = s: seq<Word> | |s| == 16
    witness [0, 0, 0, 0, 0, 0, 0, 0, 0, 0, 0, 0, 0, 0, 0, 0]

  const ZERO_REGS: Regs := [0, 0, 0, 0, 0, 0, 0, 0, 0, 0, 0, 0, 0, 0, 0, 0]

  /** `x86::CpuState` */
  datatype Cpu = Cpu(gpr: Regs, rip: Word, flags: Flags,
                     halt: bool, pending: bool, num: Int64, ret: Int64)

  /** One vCPU: its registers, its own memory and its program counter. */
  datatype State = State(cpu: Cpu, mem: seq<Byte>, pc: Word)

  datatype Status = Running | Halted | Trapped

  datatype Outcome = Outcome(st: State, status: Status)

  datatype Load = NoLoad | Load(addr: Word, w: Width)
  datatype Store = NoStore | Store(addr: Word, val: Word, w: Width)
  datatype Control = Next | Goto(target: Word) | Halt | Trap
  
  /** The new registers and flags, the store made and the place to go next. */
  datatype Effect = Effect(gpr: Regs, flags: Flags, store: Store, control: Control)

  /** The value loaded, 0 if the instruction loads nothing. */
  function Loaded(mem: seq<Byte>, load: Load): Word {
    match load
    case NoLoad => 0
    case Load(addr, w) => LoadMem(mem, addr, w)
  }

  function Stored(mem: seq<Byte>, store: Store): (mem': seq<Byte>)
    ensures |mem'| == |mem|
  {
    match store
    case NoStore => mem
    case Store(addr, val, w) => StoreMem(mem, addr, val, w)
  }

  /** Carry out an effect; next is the place of the following instruction. */
  function Perform(st: State, e: Effect, next: Word): Outcome {
    var cpu := st.cpu.(gpr := e.gpr, flags := e.flags);
    var mem := Stored(st.mem, e.store);
    match e.control
    case Next => Outcome(State(cpu, mem, next), Running)
    case Goto(target) => Outcome(State(cpu, mem, target), Running)
    case Halt => Outcome(State(cpu.(halt := true), mem, next), Halted)
    case Trap => Outcome(State(cpu.(num := Signed(e.gpr[0], 8), pending := true), mem, next), Trapped)
  }

  // ---------------------------------------------------------------- shared arithmetic

  function Plain(c: Cpu): Effect {
    Effect(c.gpr, c.flags, NoStore, Next)
  }

  function Assign(c: Cpu, r: Reg, v: Word): Effect {
    Effect(c.gpr[r := v], c.flags, NoStore, Next)
  }

  /** `binop_val` masked to the width. */
  function AluResult(op: IrBinOp, l: Word, r: Word, w: Width): Word {
    Trunc(BinOpVal(op, l, r), w)
  }

  function AluFlags(op: IrBinOp, l: Word, r: Word, w: Width): Flags {
    UpdateFlags(AluResult(op, l, r, w), l, r, w, op)
  }

  /** A binary operation into a register. */
  function AluToReg(c: Cpu, d: Reg, op: IrBinOp, r: Word, w: Width): Effect {
    var l := c.gpr[d];
    Effect(c.gpr[d := AluResult(op, l, r, w)], AluFlags(op, l, r, w), NoStore, Next)
  }

  /** A binary operation on memory, v being the value loaded from addr. */
  function AluToMem(c: Cpu, addr: Word, op: IrBinOp, v: Word, r: Word, w: Width): Effect {
    Effect(c.gpr, AluFlags(op, v, r, w), Store(addr, AluResult(op, v, r, w), w), Next)
  }

  function Compare(c: Cpu, l: Word, r: Word, w: Width): Effect {
    Effect(c.gpr, CompareFlags(l, r, w), NoStore, Next)
  }

  function Imul(l: Word, r: Word, w: Width): Word {
    Trunc(l * r, w)
  }

  /** Shift kinds of `ShiftRegImm`. */
  datatype Shift = Left | Right | Arithmetic

  function Shifted(k: Shift, v: Word, n: nat, w: Width): Word {
    match k
    case Left => Trunc(v * Pow2(n), w)
    case Right => Trunc(v / Pow2(n), w)
    case Arithmetic => Trunc(Signed(v, w) / Pow2(n), w)
  }

  /** Push v below the stack pointer. */
  function PushEffect(c: Cpu, v: Word, control: Control): Effect {
    var sp := Offset(c.gpr[RSP], -8);
    Effect(c.gpr[RSP := sp], c.flags, Store(sp, v, 8), control)
  }

  /** Pop v into a register; the stack pointer moves last. */
  function PopEffect(c: Cpu, d: Reg, v: Word): Effect {
    var gpr := c.gpr[d := v];
    Effect(gpr[RSP := Offset(gpr[RSP], 8)], c.flags, NoStore, Next)
  }

  /** Go to target, discarding the stack slot just read. */
  function ReturnEffect(c: Cpu, target: Word): Effect {
    Effect(c.gpr[RSP := Offset(c.gpr[RSP], 8)], c.flags, NoStore, Goto(target))
  }

  /** RSP from RBP, then RBP from the slot it pointed to. */
  function LeaveEffect(c: Cpu, v: Word): Effect {
    Effect(c.gpr[RBP := v][RSP := Offset(c.gpr[RBP], 8)], c.flags, NoStore, Next)
  }

  function Branch(c: Cpu, control: Control): Effect {
    Effect(c.gpr, c.flags, NoStore, control)
  }
}
