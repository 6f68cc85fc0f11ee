/** A guest of three instructions: a call, a halt, and a return.
 *
 * It meets the conditions of the theorems about whole runs and about calls, at
 * any address, with any registers whose stack pointer leaves room for one slot,
 * and in any memory.
 */
module Example {
  import opened Words
  import opened Memory
  import opened Machine
  import opened Ir
  import opened Schedule
  import opened X86
  import opened Translator
  import opened Reference
  import opened Simulation
  import opened Preservation
  import opened CallDiscipline

  /** call base + 6; hlt; ret */
  function Guest3(base: Word): Program
    requires base + 7 < 0x1_0000_0000_0000_0000
  {
    [NO_INSTRUCTION.(kind := X86.Call, target := base + 6, size := 5, pc := base),
     NO_INSTRUCTION.(kind := X86.Hlt, size := 1, pc := base + 5),
     NO_INSTRUCTION.(kind := X86.Ret, size := 1, pc := base + 6)]
  }

  lemma {:induction false} Guest3Closed(base: Word)
    requires base + 7 < 0x1_0000_0000_0000_0000
    ensures WellFormed(Guest3(base)) && IsStart(Guest3(base), base)
    ensures Find(Guest3(base), base) == 0 && Find(Guest3(base), base + 5) == 1 && Find(Guest3(base), base + 6) == 2
  {
    var prog := Guest3(base);
    assert Reference.Follows(prog, 1) && Reference.Follows(prog, 2);
    assert GapFree(prog);
    FindPc(prog, 0);
    FindPc(prog, 1);
    FindPc(prog, 2);
  }

  /** The first step: the call makes a live slot. */
  lemma {:induction false} Guest3Call(base: Word, st: Guest)
    requires base + 7 < 0x1_0000_0000_0000_0000
    requires !st.cpu.halt && st.pc == base && 8 <= st.cpu.gpr[RSP] <= |st.mem|
    ensures
      var prog, sp := Guest3(base), st.cpu.gpr[RSP];
      var s := RefTurn(prog, st);
      && StepDisciplined(prog, st, NO_SLOTS)
      && !s.cpu.halt && s.pc == base + 6 && s.cpu.gpr[RSP] == sp - 8 && LoadMem(s.mem, sp - 8, 8) == base + 5
      && sp - 8 in StepTrack(prog, st, NO_SLOTS).live
  {
    hide Find, LoadMem, StoreMem, Cells, Trunc, Extended, AluToReg, AluToMem, Compare, AluFlags, Shifted, Imul;
    Guest3Closed(base);
    var sp := st.cpu.gpr[RSP];
    var slot: int := sp - 8;
    LoadAfterStore(st.mem, slot, base + 5, 8);
    TruncSmall(base + 5, 8);
  }

  /** The second: the return uses it. */
  lemma {:induction false} Guest3Ret(base: Word, st: Guest, t: Track)
    requires base + 7 < 0x1_0000_0000_0000_0000
    requires !st.cpu.halt && st.pc == base + 6 && st.cpu.gpr[RSP] in t.live &&
        LoadMem(st.mem, st.cpu.gpr[RSP], 8) == base + 5
    ensures
      var s := RefTurn(Guest3(base), st);
      StepDisciplined(Guest3(base), st, t) && !s.cpu.halt && s.pc == base + 5
  {
    Guest3Closed(base);
    hide Find, LoadMem, StoreMem, Cells;
  }

  /** The third halts. */
  lemma {:induction false} Guest3Hlt(base: Word, st: Guest, t: Track)
    requires base + 7 < 0x1_0000_0000_0000_0000 && !st.cpu.halt && st.pc == base + 5
    ensures StepDisciplined(Guest3(base), st, t) && RefTurn(Guest3(base), st).cpu.halt
  {
    Guest3Closed(base);
    hide Find, LoadMem, StoreMem, Cells;
  }

  /** What `Preservation.BackendRunsGuest` asks for. */
  lemma {:induction false} Guest3Runs(base: Word, cpu: Cpu, mem: seq<Byte>)
    requires base + 7 < 0x1_0000_0000_0000_0000 && |mem| < 0x1_0000_0000_0000_0000
    requires !cpu.halt && 8 <= cpu.gpr[RSP] <= |mem|
    ensures WellFormed(Guest3(base)) && IsStart(Guest3(base), base)
    ensures DisciplinedRun(Guest3(base), State(cpu, mem, base), NO_SLOTS, 3)
    ensures RefAlone(Guest3(base), State(cpu, mem, base), 3).cpu.halt
  {
    var prog := Guest3(base);
    Guest3Closed(base);
    hide RefTurn, StepDisciplined, StepTrack, Guest3, WellFormed, IsStart;
    var s0: Guest := State(cpu, mem, base);
    Guest3Call(base, s0);
    var s1, t1 := RefTurn(prog, s0), StepTrack(prog, s0, NO_SLOTS);
    Guest3Ret(base, s1, t1);
    var s2, t2 := RefTurn(prog, s1), StepTrack(prog, s1, t1);
    Guest3Hlt(base, s2, t2);
    ThreeTurns(prog, s0, s1, t1, s2, t2);
  }

  lemma {:induction false} ThreeTurns(prog: Program, s0: Guest, s1: Guest, t1: Track, s2: Guest, t2: Track)
    requires !s0.cpu.halt && s1 == RefTurn(prog, s0) && t1 == StepTrack(prog, s0, NO_SLOTS)
    requires !s1.cpu.halt && s2 == RefTurn(prog, s1) && t2 == StepTrack(prog, s1, t1)
    requires StepDisciplined(prog, s0, NO_SLOTS) && StepDisciplined(prog, s1, t1) && StepDisciplined(prog, s2, t2)
    ensures DisciplinedRun(prog, s0, NO_SLOTS, 3)
    ensures RefAlone(prog, s0, 3) == RefTurn(prog, s2)
  {
    hide RefTurn, StepDisciplined, StepTrack;
    assert DisciplinedRun(prog, s2, t2, 1) && DisciplinedRun(prog, s1, t1, 2);
    assert RefAlone(prog, s2, 1) == RefAlone(prog, RefTurn(prog, s2), 0);
    assert RefAlone(prog, s1, 2) == RefAlone(prog, s2, 1);
  }

  /** The same guest as IR records. */
  function Code3(): Code {
    [Make(OpCall).(imm := 2), Make(OpHlt), Make(OpRet)]
  }

  /** What `CallDiscipline.CallComesBack` asks for, with an empty body. */
  lemma {:induction false} Guest3Returns(st: Guest)
    requires !st.cpu.halt && st.pc == 0 && 8 <= st.cpu.gpr[RSP] <= |st.mem|
    ensures At(Code3(), st, OpCall) && Room(st) && Balanced(Empty)
    ensures CallDiscipline.Follows(Code3(), Step(Code3(), st), Empty, {Below(st)})
    ensures At(Code3(), End(Code3(), Step(Code3(), st), Empty), OpRet)
  {
    hide Step, StoreMem;
    StepIs(Code3(), st);
  }
}
