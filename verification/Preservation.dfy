/** Whole runs: the IR machine does what the guest program does.
 *
 * `Simulation` relates single steps; here steps are iterated, system calls are
 * served on both sides, and the result is carried to the backends' rounds.
 */
module Preservation {
  import opened Words
  import opened Memory
  import opened Machine
  import opened Ir
  import opened Vcpu
  import opened Schedule
  import opened X86
  import opened Reference
  import opened Simulation

  lemma {:induction false} RefStepFrame(prog: Program, st: State)
    ensures |RefStep(prog, st).st.mem| == |st.mem|
  {
    hide RefEffect, RefLoad;
  }

  /** One guest instruction, its system call served. */
  function RefTurn(prog: Program, st: Guest): Guest {
    if st.cpu.halt then st
    else
      RefStepFrame(prog, st);
      Served(RefStep(prog, st))
  }

  /** k guest instructions. */
  function RefAlone(prog: Program, st: Guest, k: nat): Guest
    decreases k
  {
    if k == 0 then st else RefAlone(prog, RefTurn(prog, st), k - 1)
  }

  /** The first k steps of the guest keep the return-slot discipline. */
  ghost predicate DisciplinedRun(prog: Program, r: Guest, t: Track, k: nat)
    decreases k
  {
    k == 0 || r.cpu.halt ||
    (StepDisciplined(prog, r, t) && DisciplinedRun(prog, RefTurn(prog, r), StepTrack(prog, r, t), k - 1))
  }

  ghost function RunTrack(prog: Program, r: Guest, t: Track, k: nat): Track
    decreases k
  {
    if k == 0 || r.cpu.halt then t
    else RunTrack(prog, RefTurn(prog, r), StepTrack(prog, r, t), k - 1)
  }

  /** How many of the first k guest instructions halt or trap. */
  function RefStops(prog: Program, st: Guest, k: nat): nat
    decreases k
  {
    if k == 0 then 0
    else
      var now := !st.cpu.halt && !RefStep(prog, st).status.Running?;
      (if now then 1 else 0) + RefStops(prog, RefTurn(prog, st), k - 1)
  }

  lemma {:induction false} TurnSimulation(prog: Program, code: Code, r: Guest, s: Guest, t: Track)
    requires WellFormed(prog) && Compiled(code, prog) && Related(prog, r, s, t)
    requires !r.cpu.halt && StepDisciplined(prog, r, t)
    ensures Related(prog, RefTurn(prog, r), Turn(code, s, 1), StepTrack(prog, r, t))
    ensures RefStep(prog, r).status == IrStep(code, s).status
  {
    hide RefStep, IrStep, StepDisciplined, StepTrack, MemRelated, Handle, WellFormed, Compiled, IsPlace;
    StepSimulation(prog, code, r, s, t);
    OneTurn(code, s);
    RefStepFrame(prog, r);
    MemSizes(prog, RefStep(prog, r).st.mem, IrStep(code, s).st.mem, StepTrack(prog, r, t));
  }

  lemma {:induction false} MemSizes(prog: Program, m1: seq<Byte>, m2: seq<Byte>, t: Track)
    requires MemRelated(prog, m1, m2, t)
    ensures |m1| == |m2|
  {
  }

  /** Translation preserves meaning over whole runs: n guest steps match n IR
      steps, system calls included, and halt or trap at the same steps. */
  lemma {:induction false} RunSimulation(prog: Program, code: Code, r: Guest, s: Guest, t: Track, k: nat)
    requires WellFormed(prog) && Compiled(code, prog) && Related(prog, r, s, t)
    requires DisciplinedRun(prog, r, t, k)
    ensures Related(prog, RefAlone(prog, r, k), Alone(code, s, k), RunTrack(prog, r, t, k))
    ensures Stops(code, s, k) == RefStops(prog, r, k)
    decreases k
  {
    hide RefTurn, Turn, RefStep, IrStep, StepDisciplined, StepTrack, MemRelated, WellFormed, Compiled, IsPlace;
    if k > 0 {
      if r.cpu.halt {
        RefHaltedStays(prog, r, k);
        HaltedStays(code, s, k);
      } else {
        TurnSimulation(prog, code, r, s, t);
        RunSimulation(prog, code, RefTurn(prog, r), Turn(code, s, 1), StepTrack(prog, r, t), k - 1);
      }
    }
  }

  lemma {:induction false} RefHaltedStays(prog: Program, st: Guest, k: nat)
    requires st.cpu.halt
    ensures RefAlone(prog, st, k) == st && RefStops(prog, st, k) == 0
    decreases k
  {
    if k > 0 {
      RefHaltedStays(prog, st, k - 1);
    }
  }

  /** Where a guest starts: at an instruction, with no return slots. */
  const NO_SLOTS: Track := Track({}, {})

  lemma {:induction false} StartRelated(prog: Program, cpu: Cpu, mem: seq<Byte>, entry: Word)
    requires IsStart(prog, entry) && |prog| < 0x1_0000_0000
    ensures Related(prog, State(cpu, mem, entry), State(cpu, mem, Find(prog, entry)), NO_SLOTS)
  {
  }

  /** A guest whose reference run halts within k steps, s of which halt or trap,
      halts within ceil(k / 4096) + s rounds on either backend, and ends with the
      registers, flags and exit value of the reference run. */
  lemma {:induction false} BackendRunsGuest(prog: Program, code: Code, cpu: Cpu, mem: seq<Byte>, entry: Word,
                                            k: nat, rounds: nat)
    requires WellFormed(prog) && Compiled(code, prog) && IsStart(prog, entry)
    requires |mem| < 0x1_0000_0000_0000_0000
    requires DisciplinedRun(prog, State(cpu, mem, entry), NO_SLOTS, k)
    requires RefAlone(prog, State(cpu, mem, entry), k).cpu.halt
    ensures
      var r := RefAlone(prog, State(cpu, mem, entry), k);
      var s := Rounds(code, State(cpu, mem, Find(prog, entry)), rounds);
      var t := RunTrack(prog, State(cpu, mem, entry), NO_SLOTS, k);
      && (Suffices(rounds, k, RefStops(prog, State(cpu, mem, entry), k)) ==> s.cpu.halt)
      && (s.cpu.halt ==> s.cpu == r.cpu && MemRelated(prog, r.mem, s.mem, t))
  {
    hide Rounds, RefAlone, Alone, Stops, RefStops, Suffices, WellFormed, Compiled, MemRelated, DisciplinedRun,
         RunTrack, Find, IsPlace;
    CompiledSize(prog, code);
    var r0: Guest, s0: Guest := State(cpu, mem, entry), State(cpu, mem, Find(prog, entry));
    StartRelated(prog, cpu, mem, entry);
    RunSimulation(prog, code, r0, s0, NO_SLOTS, k);
    if Suffices(rounds, k, Stops(code, s0, k)) {
      EnoughRounds(code, s0, k, rounds);
    }
    if Rounds(code, s0, rounds).cpu.halt {
      var j := RoundsAreAlone(code, s0, rounds);
      HaltedAlike(code, s0, j, k);
    }
  }

  lemma {:induction false} CompiledSize(prog: Program, code: Code)
    requires Compiled(code, prog)
    ensures |prog| < 0x1_0000_0000
  {
  }

  // ---------------------------------------------------------------- dead slots

  lemma {:induction false} CallOutcome(prog: Program, code: Code, r: State, s: State, t: Track)
    requires WellFormed(prog) && Compiled(code, prog) && Related(prog, r, s, t)
    requires s.pc < |prog| && prog[s.pc].kind == Call
    ensures
      var slot, next := Offset(r.cpu.gpr[RSP], -8), prog[s.pc].pc + prog[s.pc].size;
      var r1, s1 := RefStep(prog, r).st, IrStep(code, s).st;
      && r1.mem == StoreMem(r.mem, slot, next, 8) && s1.mem == StoreMem(s.mem, slot, s.pc + 1, 8)
      && r1.pc == prog[s.pc].target && r1.cpu.gpr[RSP] == slot
  {
    hide Find, IrEffect, RefEffect, IrLoad, RefLoad, Resolve, MemRelated, IsPlace, StoreMem, Offset, InFragment;
    Places(prog, s.pc);
    ResolvedControl(prog, prog[s.pc]);
    IrControl(code[s.pc], r.cpu, 0, s.pc + 1);
    RefControl(prog[s.pc], r.cpu, 0, prog[s.pc].pc + prog[s.pc].size);
    StepsUnfold(prog, code, r, s, 0, 0);
  }

  lemma {:induction false} ReturnKeepsMemory(st: State, target: Word, next: Word)
    ensures Perform(st, ReturnEffect(st.cpu, target), next).st.mem == st.mem
  {
    hide Offset;
  }

  lemma {:induction false} RetOutcome(prog: Program, code: Code, r: State, s: State, t: Track)
    requires WellFormed(prog) && Compiled(code, prog) && Related(prog, r, s, t)
    requires s.pc < |prog| && prog[s.pc].kind == Ret
    ensures RefStep(prog, r).st.mem == r.mem && IrStep(code, s).st.mem == s.mem
  {
    hide Find, IrEffect, RefEffect, IrLoad, RefLoad, Resolve, MemRelated, IsPlace, LoadMem, Offset, InFragment,
         GapFree, WellFormed, Closed, Signed, Wrap32, Wrap64, Perform, ReturnEffect, RefStep, IrStep;
    var sp := r.cpu.gpr[RSP];
    var v1, v2 := LoadMem(r.mem, sp, 8), LoadMem(s.mem, sp, 8);
    Places(prog, s.pc);
    ResolvedControl(prog, prog[s.pc]);
    IrControl(code[s.pc], r.cpu, v2, s.pc + 1);
    RefControl(prog[s.pc], r.cpu, v1, prog[s.pc].pc + prog[s.pc].size);
    StepsUnfold(prog, code, r, s, v1, v2);
    ReturnKeepsMemory(r, v1, prog[s.pc].pc + prog[s.pc].size);
    ReturnKeepsMemory(s, Wrap32(v2), s.pc + 1);
  }

  /** Forgetting a slot at its Ret would be wrong: right after a Call and its Ret
      no slot is live, yet the two memories still differ where the slot was. */
  lemma {:induction false} DeadSlotDiffers(prog: Program, code: Code, r: State, s: State, t: Track)
    requires WellFormed(prog) && Compiled(code, prog) && Related(prog, r, s, t)
    requires s.pc < |prog| && prog[s.pc].kind == Call && StepDisciplined(prog, r, t)
    requires prog[Find(prog, prog[s.pc].target)].kind == Ret
    requires prog[s.pc].pc + prog[s.pc].size != s.pc + 1
    ensures
      var r1, s1, t1 := RefStep(prog, r).st, IrStep(code, s).st, StepTrack(prog, r, t);
      var r2, s2, t2 := RefStep(prog, r1).st, IrStep(code, s1).st, StepTrack(prog, r1, t1);
      && t2.live == t.live - {r1.cpu.gpr[RSP]}
      && Related(prog, r2, s2, t2)
      && r2.mem != s2.mem
  {
    hide RefStep, IrStep, Find, MemRelated, IsPlace, StoreMem, LoadMem, Offset, InFragment, StepTrack,
        StepDisciplined, Cells, Trunc, Compiled, Clear;
    var slot, next := Offset(r.cpu.gpr[RSP], -8), prog[s.pc].pc + prog[s.pc].size;
    var r1, s1, t1 := RefStep(prog, r).st, IrStep(code, s).st, StepTrack(prog, r, t);
    Places(prog, s.pc);
    StepSimulation(prog, code, r, s, t);
    CallOutcome(prog, code, r, s, t);
    ControlTrack(prog, r, t);
    ControlTrack(prog, r1, t1);
    LiveDisciplined(prog, r1, t1);
    StepSimulation(prog, code, r1, s1, t1);
    RetOutcome(prog, code, r1, s1, t1);
    MemSizes(prog, r.mem, s.mem, t);
    LoadAfterStore(r.mem, slot, next, 8);
    LoadAfterStore(s.mem, slot, s.pc + 1, 8);
    TruncSmall(next, 8);
    TruncSmall(s.pc + 1, 8);
  }

  lemma {:induction false} LiveDisciplined(prog: Program, r: State, t: Track)
    requires Find(prog, r.pc) < |prog| && prog[Find(prog, r.pc)].kind == Ret && r.cpu.gpr[RSP] in t.live
    ensures StepDisciplined(prog, r, t)
  {
    hide RefEffect, RefLoad, Find;
  }
}
