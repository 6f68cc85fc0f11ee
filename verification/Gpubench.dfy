/** The showcase guest `gpubench` on the IR machine.
 *
 * The records are those the decoder and translator make of the program's
 * machine code.  Two of their peculiarities show: the pushes of r12, r13 and r15
 * name other registers, and the comparison with ITER is a 32-bit one.
 */
module Gpubench {
  import opened Words
  import opened Memory
  import opened StatusFlags
  import opened Machine
  import opened Ir
  import opened Vcpu
  import opened Schedule
  import opened Translator
  import opened CallDiscipline

  const RBX: Reg := 3
  const R12: Reg := 12
  const R13: Reg := 13
  const R15: Reg := 15

  const SKIP_BANNER: nat := 15
  const OUTER: nat := 18
  const EXIT: nat := 27
  const COUNT: nat := 36

  function Move(d: Reg, s: Reg): Instr { Make(OpMovReg).(dst := d, src := s) }

  function AluReg(op: int, d: Reg, s: Reg): Instr
    requires 0 <= op < 5
  {
    Make(OpBinOpReg).(aux := op, dst := d, src := s)
  }

  function AluImm(op: int, d: Reg, v: Int64): Instr
    requires 0 <= op < 5
  {
    Make(OpBinOpImm).(aux := op, dst := d, imm := v)
  }

  function SetReg(d: Reg, v: Int64): Instr { Make(OpLoadImm).(dst := d, imm := v) }

  /** ITER and the addresses of the banner and its end. */
  datatype Params = Params(iter: Int32, banner: Int64, bannerEnd: Int64)

  /** Record i of the program. */
  function At(p: Params, i: nat): (ins: Instr)
    ensures ins.Valid()
  {
    match i
    case 0 => Make(OpPush).(src := RBP)
    case 1 => Move(RBP, RSP)
    case 2 => Make(OpPush).(src := RBX)
    case 3 => Make(OpPush).(src := RSP)
    case 4 => Make(OpPush).(src := RBP)
    case 5 => Make(OpPush).(src := RDI)
    case 6 => Move(R15, RDI)
    case 7 => Make(OpTestReg).(dst := R15, src := R15)
    case 8 => Make(OpJcc).(aux := 5, imm := SKIP_BANNER)
    case 9 => SetReg(RAX, 1)
    case 10 => SetReg(RDI, 1)
    case 11 => Make(OpLea).(dst := RSI, imm := p.banner, aux := 3)
    case 12 => Make(OpLea).(dst := RDX, imm := p.bannerEnd, aux := 3)
    case 13 => AluReg(1, RDX, RSI)
    case 14 => Make(OpSyscall)
    case 15 => AluReg(4, R12, R12)
    case 16 => Move(R13, R15)
    case 17 => AluReg(4, RBX, RBX)
    case 18 => Make(OpCmpImm).(dst := RBX, imm := p.iter, width := 4)
    case 19 => Make(OpJcc).(aux := 3, imm := EXIT)
    case 20 => Move(RAX, R13)
    case 21 => AluReg(0, RAX, RBX)
    case 22 => AluImm(2, RAX, 7)
    case 23 => AluReg(0, R12, RAX)
    case 24 => AluImm(0, R13, 3)
    case 25 => AluImm(0, RBX, 1)
    case 26 => Make(OpJmp).(imm := OUTER)
    case 27 => Move(RDI, R12)
    case 28 => SetReg(RAX, 60)
    case 29 => Make(OpSyscall)
    case 30 => Make(OpPop).(dst := RDI)
    case 31 => Make(OpPop).(dst := RBP)
    case 32 => Make(OpPop).(dst := RSP)
    case 33 => Make(OpPop).(dst := RBX)
    case 34 => Make(OpPop).(dst := RBP)
    case _ => Make(OpRet)
  }

  function GuestCode(p: Params): (code: Code)
    ensures |code| == COUNT && forall i :: 0 <= i < COUNT ==> code[i] == At(p, i)
  {
    seq(COUNT, i requires 0 <= i < COUNT => At(p, i))
  }

  // ---------------------------------------------------------------- the sum

  /** The sum over k < n of (id + 4 k) mod 8. */
  function Tally(id: Word, n: nat): (t: nat)
    ensures t <= 7 * n
  {
    if n == 0 then 0 else Tally(id, n - 1) + (id + 4 * (n - 1)) % 8
  }

  /** Two iterations add the same amount every time. */
  lemma {:induction false} TallyClosed(id: Word, m: nat)
    ensures Tally(id, 2 * m) == m * (id % 8 + (id + 4) % 8)
  {
    if m > 0 {
      TallyClosed(id, m - 1);
      TwoMore(id, m - 1);
      Distribute(m - 1, id % 8 + (id + 4) % 8);
    }
  }

  lemma {:induction false} TwoMore(id: Word, m: nat)
    ensures Tally(id, 2 * m + 2) == Tally(id, 2 * m) + id % 8 + (id + 4) % 8
  {
    EightMore(id, m);
    EightMore(id + 4, m);
    assert Tally(id, 2 * m + 1) == Tally(id, 2 * m) + (id + 8 * m) % 8;
    assert Tally(id, 2 * m + 2) == Tally(id, 2 * m + 1) + (id + 4 + 8 * m) % 8;
  }

  lemma {:induction false} EightMore(x: nat, m: nat)
    ensures (x + 8 * m) % 8 == x % 8
  {
    ModUnique(x + 8 * m, 8, x / 8 + m, x % 8);
  }

  lemma {:induction false} Distribute(m: nat, c: nat)
    ensures (m + 1) * c == m * c + c
  {
  }

  // ---------------------------------------------------------------- single steps

  /** What one record does: its effect, and where control goes. */
  lemma {:induction false} StepAt(p: Params, st: Guest, i: nat)
    requires i < COUNT && st.pc == i && !st.cpu.halt
    ensures
      IrLoad(At(p, i), st.cpu).NoLoad? ==>
        var e := IrEffect(At(p, i), st.cpu, 0, i + 1);
        var s := Step(GuestCode(p), st);
        (e.control.Next? || e.control.Goto? ==>
           s.cpu == st.cpu.(gpr := e.gpr, flags := e.flags)
           && s.pc == (if e.control.Goto? then e.control.target else i + 1)
           && !StopsNow(GuestCode(p), st))
  {
    hide IrEffect, IrLoad, Step, At, Stored;
    StepIs(GuestCode(p), st);
  }

  // Reaching a state, step by step.

  /** After n instructions, q of which halted or trapped, the vCPU is in state s. */
  predicate Reaches(code: Code, st: Guest, n: nat, s: Guest, q: nat) {
    Alone(code, st, n) == s && Stops(code, st, n) == q
  }

  lemma {:induction false} Begin(code: Code, st: Guest)
    ensures Reaches(code, st, 0, st, 0)
  {
  }

  /** One instruction more. */
  lemma {:induction false} Extend(code: Code, st: Guest, n: nat, s: Guest, q: nat)
    requires Reaches(code, st, n, s, q)
    ensures Reaches(code, st, n + 1, Step(code, s), if StopsNow(code, s) then q + 1 else q)
  {
    hide Turn, StopsNow;
    AloneAdd(code, st, n, 1);
    StopsAdd(code, st, n, 1);
    assert Alone(code, s, 1) == Alone(code, Step(code, s), 0);
    assert Stops(code, s, 1) == (if StopsNow(code, s) then 1 else 0) + Stops(code, Step(code, s), 0);
  }

  /** One part of a run after the other. */
  lemma {:induction false} Join(code: Code, st: Guest, n: nat, s: Guest, q: nat, m: nat, u: Guest, r: nat)
    requires Reaches(code, st, n, s, q) && Reaches(code, s, m, u, r)
    ensures Reaches(code, st, n + m, u, q + r)
  {
    hide Alone, Stops;
    AloneAdd(code, st, n, m);
    StopsAdd(code, st, n, m);
  }

  lemma {:induction false} MoveStep(p: Params, st: Guest, i: nat, d: Reg, s: Reg)
    requires i < COUNT && st.pc == i && !st.cpu.halt && At(p, i) == Move(d, s)
    ensures var t := Step(GuestCode(p), st); t.cpu == st.cpu.(gpr := st.cpu.gpr[d := st.cpu.gpr[s]]) && t.pc == i + 1
    ensures !StopsNow(GuestCode(p), st)
  {
    hide Step, At;
    StepAt(p, st, i);
  }

  lemma {:induction false} SetStep(p: Params, st: Guest, i: nat, d: Reg, v: Int64)
    requires i < COUNT && st.pc == i && !st.cpu.halt && At(p, i) == SetReg(d, v)
    ensures var t := Step(GuestCode(p), st); t.cpu == st.cpu.(gpr := st.cpu.gpr[d := Wrap64(v)]) && t.pc == i + 1
    ensures !StopsNow(GuestCode(p), st)
  {
    hide Step, At;
    StepAt(p, st, i);
  }

  lemma {:induction false} AluRegStep(p: Params, st: Guest, i: nat, op: int, d: Reg, s: Reg)
    requires i < COUNT && st.pc == i && !st.cpu.halt && 0 <= op < 5 && At(p, i) == AluReg(op, d, s)
    ensures
      var t := Step(GuestCode(p), st);
      && t.cpu.gpr == st.cpu.gpr[d := AluResult(BinOpOf(op), st.cpu.gpr[d], st.cpu.gpr[s], 8)]
      && t.pc == i + 1 && !t.cpu.halt && !StopsNow(GuestCode(p), st)
  {
    hide Step, At, AluResult, AluFlags;
    StepAt(p, st, i);
  }

  lemma {:induction false} AluImmStep(p: Params, st: Guest, i: nat, op: int, d: Reg, v: Int64)
    requires i < COUNT && st.pc == i && !st.cpu.halt && 0 <= op < 5 && At(p, i) == AluImm(op, d, v)
    ensures
      var t := Step(GuestCode(p), st);
      && t.cpu.gpr == st.cpu.gpr[d := AluResult(BinOpOf(op), st.cpu.gpr[d], Wrap64(v), 8)]
      && t.pc == i + 1 && !t.cpu.halt && !StopsNow(GuestCode(p), st)
  {
    hide Step, At, AluResult, AluFlags;
    StepAt(p, st, i);
  }

  /** A push moves the stack pointer, which the program never uses again. */
  lemma {:induction false} PushStepAt(p: Params, st: Guest, i: nat)
    requires i < COUNT && st.pc == i && !st.cpu.halt && At(p, i).op == OpPush
    ensures
      var t := Step(GuestCode(p), st);
      && t.cpu == st.cpu.(gpr := t.cpu.gpr) && t.pc == i + 1 && !StopsNow(GuestCode(p), st)
      && forall r: Reg :: r != RSP ==> t.cpu.gpr[r] == st.cpu.gpr[r]
  {
    hide Step, At;
    StepAt(p, st, i);
  }

  lemma {:induction false} AddResult(a: Word, b: Word)
    ensures AluResult(Add, a, b, 8) == Wrap64(a + b)
  {
  }

  lemma {:induction false} XorSelf(a: Word)
    ensures AluResult(Xor, a, a, 8) == 0
  {
    XorBits(a, 64);
  }

  lemma {:induction false} XorBits(a: nat, n: nat)
    ensures BitOp(LXor, a, a, n) == 0
    decreases n
  {
    if n > 0 {
      XorBits(a / 2, n - 1);
    }
  }

  lemma {:induction false} AndSeven(a: Word)
    ensures AluResult(And, a, 7, 8) == a % 8
  {
    assert Pow2(3) == 8;
    AndLowMask(a, 3, 64);
  }

  // ---------------------------------------------------------------- the loop

  /** At the head of the loop after k iterations. */
  predicate InLoop(st: Guest, id: Word, k: nat) {
    && !st.cpu.halt && st.pc == OUTER && k < 0x8000_0000
    && st.cpu.gpr[RBX] == k && st.cpu.gpr[R12] == Tally(id, k) && st.cpu.gpr[R13] == Wrap64(id + 3 * k)
  }

  /** The comparison and the branch: on to the body, or out of the loop. */
  lemma {:induction false} LoopTest(p: Params, st: Guest, id: Word, k: nat)
    requires InLoop(st, id, k) && p.iter >= 0
    ensures
      var t := Step(GuestCode(p), Step(GuestCode(p), st));
      && t.cpu.gpr == st.cpu.gpr && !t.cpu.halt && t.pc == (if k < p.iter then OUTER + 2 else EXIT)
      && Reaches(GuestCode(p), st, 2, t, 0)
  {
    hide Step, EvalCc, CompareFlags, Reaches, StopsNow;
    var code := GuestCode(p);
    Begin(code, st);
    StepAt(p, st, 18);
    Extend(code, st, 0, st, 0);
    var s1 := Step(code, st);
    CompareThenBranch(k, p.iter, 4);
    TruncSmall(k, 4);
    TruncSmall(p.iter, 4);
    StepAt(p, s1, 19);
    Extend(code, st, 1, s1, 0);
  }

  /** None of four steps halts or traps. */
  predicate RunsFour(code: Code, s0: Guest) {
    var s1 := Step(code, s0);
    var s2 := Step(code, s1);
    !StopsNow(code, s0) && !StopsNow(code, s1) && !StopsNow(code, s2) && !StopsNow(code, Step(code, s2))
  }

  lemma {:induction false} FourSteps(code: Code, s0: Guest)
    requires RunsFour(code, s0)
    ensures Reaches(code, s0, 4, Step(code, Step(code, Step(code, Step(code, s0)))), 0)
  {
    hide Step, StopsNow, Reaches;
    var s1 := Step(code, s0);
    var s2 := Step(code, s1);
    Begin(code, s0);
    Extend(code, s0, 0, s0, 0);
    Extend(code, s0, 1, s1, 0);
    Extend(code, s0, 2, s2, 0);
    Extend(code, s0, 3, Step(code, s2), 0);
  }

  /** The first four instructions of the body add (id + 4 k) mod 8 to the tally. */
  lemma {:induction false} AddSteps(p: Params, s0: Guest, id: Word, k: nat)
    requires k < 0x8000_0000 && !s0.cpu.halt && s0.pc == 20
    requires s0.cpu.gpr[RBX] == k && s0.cpu.gpr[R12] == Tally(id, k) && s0.cpu.gpr[R13] == Wrap64(id + 3 * k)
    ensures
      var s4 := Step(GuestCode(p), Step(GuestCode(p), Step(GuestCode(p), Step(GuestCode(p), s0))));
      && !s4.cpu.halt && s4.pc == 24 && RunsFour(GuestCode(p), s0)
      && s4.cpu.gpr[RBX] == k && s4.cpu.gpr[R12] == Tally(id, k + 1) && s4.cpu.gpr[R13] == Wrap64(id + 3 * k)
  {
    hide Step, AluResult, StopsNow;
    var code := GuestCode(p);
    MoveStep(p, s0, 20, RAX, R13);
    var s1 := Step(code, s0);
    AluRegStep(p, s1, 21, 0, RAX, RBX);
    var s2 := Step(code, s1);
    AddResult(s1.cpu.gpr[RAX], k);
    AluImmStep(p, s2, 22, 2, RAX, 7);
    var s3 := Step(code, s2);
    AndSeven(s2.cpu.gpr[RAX]);
    SumModEight(id, k);
    AluRegStep(p, s3, 23, 0, R12, RAX);
    AddResult(Tally(id, k), s3.cpu.gpr[RAX]);
    hide Wrap64;
    TallyFits(id, k);
  }

  lemma {:induction false} LoopAdd(p: Params, s0: Guest, id: Word, k: nat)
    requires k < 0x8000_0000 && !s0.cpu.halt && s0.pc == 20
    requires s0.cpu.gpr[RBX] == k && s0.cpu.gpr[R12] == Tally(id, k) && s0.cpu.gpr[R13] == Wrap64(id + 3 * k)
    ensures
      var s4 := Alone(GuestCode(p), s0, 4);
      && !s4.cpu.halt && s4.pc == 24 && Reaches(GuestCode(p), s0, 4, s4, 0)
      && s4.cpu.gpr[RBX] == k && s4.cpu.gpr[R12] == Tally(id, k + 1) && s4.cpu.gpr[R13] == Wrap64(id + 3 * k)
  {
    hide Step, Tally, RunsFour, Reaches, Alone, Wrap64;
    var code := GuestCode(p);
    AddSteps(p, s0, id, k);
    FourSteps(code, s0);
    Reached(code, s0, 4, Step(code, Step(code, Step(code, Step(code, s0)))), 0);
  }

  lemma {:induction false} Reached(code: Code, st: Guest, n: nat, s: Guest, q: nat)
    requires Reaches(code, st, n, s, q)
    ensures Alone(code, st, n) == s && Stops(code, st, n) == q
  {
  }

  lemma {:induction false} TallyFits(id: Word, k: nat)
    requires k < 0x8000_0000
    ensures Tally(id, k + 1) == Tally(id, k) + (id + 4 * k) % 8
    ensures Wrap64(Tally(id, k) + (id + 4 * k) % 8) == Tally(id, k + 1)
  {
  }

  /** The last three count and jump back. */
  lemma {:induction false} NextSteps(p: Params, s4: Guest, id: Word, k: nat)
    requires k + 1 < 0x8000_0000 && !s4.cpu.halt && s4.pc == 24
    requires s4.cpu.gpr[RBX] == k && s4.cpu.gpr[R12] == Tally(id, k + 1) && s4.cpu.gpr[R13] == Wrap64(id + 3 * k)
    ensures
      var s5 := Step(GuestCode(p), s4);
      var s6 := Step(GuestCode(p), s5);
      && InLoop(Step(GuestCode(p), s6), id, k + 1)
      && !StopsNow(GuestCode(p), s4) && !StopsNow(GuestCode(p), s5) && !StopsNow(GuestCode(p), s6)
  {
    hide Step, AluResult, Tally, StopsNow;
    var code := GuestCode(p);
    AluImmStep(p, s4, 24, 0, R13, 3);
    var s5 := Step(code, s4);
    AddResult(s4.cpu.gpr[R13], 3);
    AluImmStep(p, s5, 25, 0, RBX, 1);
    var s6 := Step(code, s5);
    AddResult(k, 1);
    StepAt(p, s6, 26);
    WrapThree(id, k);
  }

  lemma {:induction false} LoopNext(p: Params, s4: Guest, id: Word, k: nat)
    requires k + 1 < 0x8000_0000 && !s4.cpu.halt && s4.pc == 24
    requires s4.cpu.gpr[RBX] == k && s4.cpu.gpr[R12] == Tally(id, k + 1) && s4.cpu.gpr[R13] == Wrap64(id + 3 * k)
    ensures
      var s7 := Alone(GuestCode(p), s4, 3);
      InLoop(s7, id, k + 1) && Reaches(GuestCode(p), s4, 3, s7, 0)
  {
    hide Step, Tally, InLoop, Reaches, StopsNow, Alone, Wrap64;
    var code := GuestCode(p);
    var s5 := Step(code, s4);
    var s6 := Step(code, s5);
    NextSteps(p, s4, id, k);
    Begin(code, s4);
    Extend(code, s4, 0, s4, 0);
    Extend(code, s4, 1, s5, 0);
    Extend(code, s4, 2, s6, 0);
    Reached(code, s4, 3, Step(code, s6), 0);
  }

  /** (id + 3 k) + k, wrapped, modulo 8. */
  lemma {:induction false} SumModEight(id: Word, k: nat)
    ensures Wrap64(Wrap64(id + 3 * k) + k) % 8 == (id + 4 * k) % 8
  {
    WrapAdd(id + 3 * k, k);
    WrapModEight(id + 4 * k);
  }

  lemma {:induction false} WrapModEight(x: nat)
    ensures Wrap64(x) % 8 == x % 8
  {
    var q, r := x / 0x1_0000_0000_0000_0000, Wrap64(x);
    ModUnique(x, 8, 0x2000_0000_0000_0000 * q + r / 8, r % 8);
  }

  lemma {:induction false} WrapThree(id: Word, k: nat)
    ensures Wrap64(Wrap64(id + 3 * k) + 3) == Wrap64(id + 3 * (k + 1))
  {
  }

  /** n more iterations take 9 n steps, none of which halts or traps. */
  lemma {:induction false} Iterations(p: Params, st: Guest, id: Word, k: nat, n: nat)
    requires InLoop(st, id, k) && k + n <= p.iter
    ensures
      var s := Alone(GuestCode(p), st, 9 * n);
      InLoop(s, id, k + n) && Reaches(GuestCode(p), st, 9 * n, s, 0)
    decreases n
  {
    hide Step, Alone, InLoop, Reaches;
    var code := GuestCode(p);
    if n == 0 {
      Begin(code, st);
      NoSteps(code, st);
    } else {
      var mid := Alone(code, st, 9);
      OneIteration(p, st, id, k);
      Iterations(p, mid, id, k + 1, n - 1);
      var end := Alone(code, mid, 9 * (n - 1));
      Join(code, st, 9, mid, 0, 9 * (n - 1), end, 0);
      Reached(code, st, 9 * n, end, 0);
    }
  }

  lemma {:induction false} OneIteration(p: Params, st: Guest, id: Word, k: nat)
    requires InLoop(st, id, k) && k < p.iter
    ensures
      var s := Alone(GuestCode(p), st, 9);
      InLoop(s, id, k + 1) && Reaches(GuestCode(p), st, 9, s, 0)
  {
    hide Step, Alone, Reaches;
    var code := GuestCode(p);
    LoopTest(p, st, id, k);
    var s2 := Step(code, Step(code, st));
    LoopAdd(p, s2, id, k);
    var s6 := Alone(code, s2, 4);
    LoopNext(p, s6, id, k);
    var s9 := Alone(code, s6, 3);
    Join(code, st, 2, s2, 0, 4, s6, 0);
    Join(code, st, 6, s6, 0, 3, s9, 0);
    Reached(code, st, 9, s9, 0);
  }

  // ---------------------------------------------------------------- before and after

  /** The vCPU has left with the given exit value. */
  predicate Exited(st: Guest, value: int) {
    st.cpu.halt && st.cpu.ret == value && st.cpu.gpr[RAX] == Wrap64(value)
  }

  /** From the end of the loop to the exit: five steps, the last a trap. */
  lemma {:induction false} Leaving(p: Params, st: Guest, id: Word)
    requires p.iter >= 0 && InLoop(st, id, p.iter)
    ensures
      var s := Alone(GuestCode(p), st, 5);
      Exited(s, Tally(id, p.iter)) && exists q: nat :: q <= 1 && Reaches(GuestCode(p), st, 5, s, q)
  {
    hide Step, Alone, Reaches, StopsNow;
    var code := GuestCode(p);
    LoopTest(p, st, id, p.iter);
    var s2 := Step(code, Step(code, st));
    MoveStep(p, s2, 27, RDI, R12);
    Extend(code, st, 2, s2, 0);
    var s3 := Step(code, s2);
    SetStep(p, s3, 28, RAX, 60);
    Extend(code, st, 3, s3, 0);
    var s4 := Step(code, s3);
    ExitStep(p, s4, Tally(id, p.iter));
    Extend(code, st, 4, s4, 0);
    Reached(code, st, 5, Step(code, s4), if StopsNow(code, s4) then 1 else 0);
  }

  /** A system call is served before the next instruction. */
  lemma {:induction false} SyscallStep(p: Params, st: Guest, i: nat)
    requires i < COUNT && st.pc == i && !st.cpu.halt && At(p, i) == Make(OpSyscall)
    ensures
      var s := Step(GuestCode(p), st);
      s.pc == i + 1 && s.cpu == Handle(st.cpu.(num := Signed(st.cpu.gpr[0], 8), pending := true), |st.mem|)
  {
    hide At, Handle;
    OneTurn(GuestCode(p), st);
  }

  lemma {:induction false} ExitStep(p: Params, st: Guest, value: nat)
    requires st.pc == 29 && !st.cpu.halt && st.cpu.gpr[RAX] == 60 && st.cpu.gpr[RDI] == value < 0x8000_0000_0000_0000
    ensures Exited(Step(GuestCode(p), st), value)
  {
    hide Step;
    SyscallStep(p, st, 29);
  }

  /** A vCPU at the start of the program with its id in rdi and no flag set; the
      other registers do not matter. */
  predicate Fresh(st: Guest, id: Word) {
    && !st.cpu.halt && st.pc == 0 && st.cpu.flags == RESET
    && st.cpu.gpr[RDI] == id
  }

  /** The seven instructions before the test: the pushes, and the id into r15. */
  lemma {:induction false} Prologue(p: Params, st: Guest, id: Word)
    requires Fresh(st, id)
    ensures
      var s := Alone(GuestCode(p), st, 7);
      && !s.cpu.halt && s.pc == 7 && s.cpu.flags == RESET && s.cpu.gpr[R15] == id
      && Reaches(GuestCode(p), st, 7, s, 0)
  {
    hide Step, Alone, Reaches, StopsNow;
    var code := GuestCode(p);
    Begin(code, st);
    PushStepAt(p, st, 0);
    Extend(code, st, 0, st, 0);
    var s1 := Step(code, st);
    MoveStep(p, s1, 1, RBP, RSP);
    Extend(code, st, 1, s1, 0);
    var s2 := Step(code, s1);
    PushStepAt(p, s2, 2);
    Extend(code, st, 2, s2, 0);
    var s3 := Step(code, s2);
    PushStepAt(p, s3, 3);
    Extend(code, st, 3, s3, 0);
    var s4 := Step(code, s3);
    PushStepAt(p, s4, 4);
    Extend(code, st, 4, s4, 0);
    var s5 := Step(code, s4);
    PushStepAt(p, s5, 5);
    Extend(code, st, 5, s5, 0);
    var s6 := Step(code, s5);
    MoveStep(p, s6, 6, R15, RDI);
    Extend(code, st, 6, s6, 0);
    Reached(code, st, 7, Step(code, s6), 0);
  }

  /** `test r15, r15; jnz`: vCPU 0 goes on to the banner, the others skip it. */
  lemma {:induction false} TestId(p: Params, st: Guest, id: Word)
    requires !st.cpu.halt && st.pc == 7 && st.cpu.flags == RESET && st.cpu.gpr[R15] == id
    ensures
      var s := Alone(GuestCode(p), st, 2);
      && !s.cpu.halt && s.pc == (if id == 0 then 9 else SKIP_BANNER) && s.cpu.gpr[R15] == id
      && Reaches(GuestCode(p), st, 2, s, 0)
  {
    hide Step, Alone, BitAnd, EvalCc, Reaches, StopsNow;
    var code := GuestCode(p);
    Begin(code, st);
    StepAt(p, st, 7);
    Extend(code, st, 0, st, 0);
    AndSelf(id);
    var s1 := Step(code, st);
    assert s1.cpu.flags.zf <==> id == 0;
    StepAt(p, s1, 8);
    Extend(code, st, 1, s1, 0);
    ZeroTest(s1.cpu.flags);
    Reached(code, st, 2, Step(code, s1), 0);
  }

  lemma {:induction false} ZeroTest(f: Flags)
    ensures EvalCc(5, f) <==> !f.zf
  {
  }

  lemma {:induction false} AndSelf(a: Word)
    ensures BitAnd(a, a) == a
  {
    Pow2Values();
    AndBits(a, 64);
  }

  lemma {:induction false} AndBits(a: nat, n: nat)
    requires a < Pow2(n)
    ensures BitOp(LAnd, a, a, n) == a
    decreases n
  {
    if n > 0 {
      AndBits(a / 2, n - 1);
    }
  }

  /** The six steps of the banner. */
  lemma {:induction false} BannerSteps(p: Params, st: Guest, id: Word)
    requires !st.cpu.halt && st.pc == 9 && st.cpu.gpr[R15] == id
    ensures
      var code := GuestCode(p);
      var s1 := Step(code, st);
      var s2 := Step(code, s1);
      var s3 := Step(code, s2);
      var s4 := Step(code, s3);
      var s5 := Step(code, s4);
      var s6 := Step(code, s5);
      && !s6.cpu.halt && s6.pc == SKIP_BANNER && s6.cpu.gpr[R15] == id
      && !StopsNow(code, st) && !StopsNow(code, s1) && !StopsNow(code, s2) && !StopsNow(code, s3)
      && !StopsNow(code, s4)
  {
    hide Step, AluResult, StopsNow;
    var code := GuestCode(p);
    SetStep(p, st, 9, RAX, 1);
    var s1 := Step(code, st);
    SetStep(p, s1, 10, RDI, 1);
    var s2 := Step(code, s1);
    StepAt(p, s2, 11);
    var s3 := Step(code, s2);
    StepAt(p, s3, 12);
    var s4 := Step(code, s3);
    AluRegStep(p, s4, 13, 1, RDX, RSI);
    var s5 := Step(code, s4);
    SyscallStep(p, s5, 14);
    WriteGoesOn(s5.cpu, |s5.mem|);
  }

  /** The banner's system call changes rax only, and does not halt. */
  lemma {:induction false} Banner(p: Params, st: Guest, id: Word)
    requires !st.cpu.halt && st.pc == 9 && st.cpu.gpr[R15] == id
    ensures
      var s := Alone(GuestCode(p), st, 6);
      && !s.cpu.halt && s.pc == SKIP_BANNER && s.cpu.gpr[R15] == id
      && exists q: nat :: q <= 1 && Reaches(GuestCode(p), st, 6, s, q)
  {
    hide Step, Alone, AluResult, Reaches, StopsNow, GuestCode;
    var code := GuestCode(p);
    BannerSteps(p, st, id);
    Begin(code, st);
    Extend(code, st, 0, st, 0);
    var s1 := Step(code, st);
    Extend(code, st, 1, s1, 0);
    var s2 := Step(code, s1);
    Extend(code, st, 2, s2, 0);
    var s3 := Step(code, s2);
    Extend(code, st, 3, s3, 0);
    var s4 := Step(code, s3);
    Extend(code, st, 4, s4, 0);
    var s5 := Step(code, s4);
    Extend(code, st, 5, s5, 0);
    Reached(code, st, 6, Step(code, s5), if StopsNow(code, s5) then 1 else 0);
  }

  lemma {:induction false} WriteGoesOn(c: Cpu, size: Word)
    requires c.gpr[RAX] == 1 && !c.halt
    ensures
      var c' := Handle(c.(num := Signed(c.gpr[0], 8), pending := true), size);
      !c'.halt && c'.gpr[R15] == c.gpr[R15]
  {
    hide SyscallResult;
  }

  lemma {:induction false} SetupSteps(p: Params, st: Guest, id: Word)
    requires !st.cpu.halt && st.pc == SKIP_BANNER && st.cpu.gpr[R15] == id
    ensures
      var s1 := Step(GuestCode(p), st);
      var s2 := Step(GuestCode(p), s1);
      && InLoop(Step(GuestCode(p), s2), id, 0)
      && !StopsNow(GuestCode(p), st) && !StopsNow(GuestCode(p), s1) && !StopsNow(GuestCode(p), s2)
  {
    hide Step, AluResult, StopsNow;
    XorSelf(st.cpu.gpr[R12]);
    AluRegStep(p, st, 15, 4, R12, R12);
    var s1 := Step(GuestCode(p), st);
    MoveStep(p, s1, 16, R13, R15);
    var s2 := Step(GuestCode(p), s1);
    XorSelf(s2.cpu.gpr[RBX]);
    AluRegStep(p, s2, 17, 4, RBX, RBX);
  }

  /** The loop's registers are set up. */
  lemma {:induction false} LoopSetup(p: Params, st: Guest, id: Word)
    requires !st.cpu.halt && st.pc == SKIP_BANNER && st.cpu.gpr[R15] == id
    ensures
      var s := Alone(GuestCode(p), st, 3);
      InLoop(s, id, 0) && Reaches(GuestCode(p), st, 3, s, 0)
  {
    hide Step, Alone, InLoop, Reaches, StopsNow, GuestCode;
    var code := GuestCode(p);
    SetupSteps(p, st, id);
    Begin(code, st);
    Extend(code, st, 0, st, 0);
    var s1 := Step(code, st);
    Extend(code, st, 1, s1, 0);
    var s2 := Step(code, s1);
    Extend(code, st, 2, s2, 0);
    Reached(code, st, 3, Step(code, s2), 0);
  }

  /** The number of instructions until the exit, linear in ITER. */
  function StepCount(iter: nat, id: Word): nat {
    17 + 9 * iter + (if id == 0 then 6 else 0)
  }

  /** Every vCPU id, in every memory: after 17 + 9 ITER instructions, six more for
      vCPU 0, at most two of which trap, the guest has exited with the sum of
      (id + 4 k) mod 8 for k < ITER. */
  lemma {:induction false} ExitValue(p: Params, st: Guest, id: Word)
    requires Fresh(st, id) && p.iter >= 0
    ensures
      var n := StepCount(p.iter, id);
      Exited(Alone(GuestCode(p), st, n), Tally(id, p.iter)) && Stops(GuestCode(p), st, n) <= 2
  {
    hide Alone, Stops, Fresh, InLoop, Exited, Reaches;
    var code := GuestCode(p);
    Prologue(p, st, id);
    var s1 := Alone(code, st, 7);
    TestId(p, s1, id);
    var s2 := Alone(code, s1, 2);
    Join(code, st, 7, s1, 0, 2, s2, 0);
    var extra := if id == 0 then 6 else 0;
    var s3 := Alone(code, s2, extra);
    if id == 0 {
      Banner(p, s2, id);
    } else {
      Begin(code, s2);
      NoSteps(code, s2);
    }
    var traps: nat :| traps <= 1 && Reaches(code, s2, extra, s3, traps);
    Join(code, st, 9, s2, 0, extra, s3, traps);
    LoopSetup(p, s3, id);
    var s4 := Alone(code, s3, 3);
    Join(code, st, 9 + extra, s3, traps, 3, s4, 0);
    Iterations(p, s4, id, 0, p.iter);
    var s5 := Alone(code, s4, 9 * p.iter);
    Join(code, st, 12 + extra, s4, traps, 9 * p.iter, s5, 0);
    Leaving(p, s5, id);
    var s6 := Alone(code, s5, 5);
    var last: nat :| last <= 1 && Reaches(code, s5, 5, s6, last);
    Join(code, st, 12 + extra + 9 * p.iter, s5, traps, 5, s6, last);
    Reached(code, st, StepCount(p.iter, id), s6, traps + last);
  }

  /** Enough rounds: one for every started 4096 instructions and two for the system
      calls. */
  function RoundBound(iter: nat, id: Word): nat {
    (StepCount(iter, id) + 4095) / 4096 + 2
  }

  /** On either backend: within that many rounds every vCPU halts, and it reports
      ITER/2 * ((id mod 8) + ((id + 4) mod 8)) for an even ITER. */
  lemma {:induction false} BackendExitValue(p: Params, st: Guest, id: Word, rounds: nat)
    requires Fresh(st, id) && p.iter >= 0 && p.iter % 2 == 0
    ensures
      var final := Rounds(GuestCode(p), st, rounds);
      && (rounds >= RoundBound(p.iter, id) ==> final.cpu.halt)
      && (final.cpu.halt ==> final.cpu.ret == (p.iter / 2) * (id % 8 + (id + 4) % 8))
  {
    hide Rounds, Alone, Stops, Fresh;
    var code, n := GuestCode(p), StepCount(p.iter, id);
    ExitValue(p, st, id);
    TallyClosed(id, p.iter / 2);
    if rounds >= RoundBound(p.iter, id) {
      EnoughRounds(code, st, n, rounds);
    }
    if Rounds(code, st, rounds).cpu.halt {
      var j := RoundsAreAlone(code, st, rounds);
      HaltedAlike(code, st, j, n);
    }
  }
}
