/** The showcase run: many `gpubench` guests on the emulator.
 *
 * ITER is 200000.  Any step budget of more than 441 chunks of 4096 is enough: the
 * default of 64 M in `main`, its 256 M, and also one so large that the 32-bit step
 * counter wraps around.
 */
module Showcase {
  import opened Words
  import opened Memory
  import StatusFlags
  import opened Machine
  import opened Ir
  import opened IrInterpreter
  import opened Vcpu
  import opened Schedule
  import opened Device
  import opened Flatten
  import opened Blocks
  import opened Backends
  import opened EndToEnd
  import opened Gpubench
  import opened GpubenchCode

  const ITER: Int32 := 200_000

  /** The rounds a vCPU needs. */
  const ROUNDS_NEEDED: nat := 442

  /** What vCPU i reports. */
  function Checksum(i: nat): (v: nat)
    ensures v < 2_000_000
  {
    100_000 * (i % 8 + (i + 4) % 8)
  }

  /** The emulator's code is gpubench's, translated where it was loaded. */
  ghost predicate RunsGpubench(e: Emulator, f: Fields, base: Word) {
    && f.iter == ITER && base + 114 < 0x1_0000_0000_0000_0000
    && |Entries(Translated(From(f, 0), base))| < 0x1_0000_0000
    && e.code == CodeFor(From(f, 0), base) && e.pcToIdx == IndexMap(Entries(Translated(From(f, 0), base)))
  }

  /** vCPU i starts at the code's first byte, with its number in rdi. */
  ghost predicate Numbered(starts: seq<Guest>) {
    |starts| < 0x1_0000_0000 &&
    forall i :: 0 <= i < |starts| ==>
      !starts[i].cpu.halt && starts[i].cpu.flags == StatusFlags.RESET && starts[i].cpu.gpr[Vcpu.RDI] == i
  }

  /** Each has halted with its checksum. */
  predicate Finished(sts: seq<Guest>) {
    forall i :: 0 <= i < |sts| ==> sts[i].cpu.halt && sts[i].cpu.ret == Checksum(i)
  }

  lemma {:induction false} BoundIs(id: Word)
    ensures RoundBound(ITER, id) == ROUNDS_NEEDED
  {
  }

  /** After any number of rounds that is enough for each, all have finished. */
  lemma {:induction false} AllFinish(e: Emulator, f: Fields, base: Word, starts: seq<Guest>, rounds: nat)
    requires RunsGpubench(e, f, base) && Numbered(starts)
    requires forall i :: 0 <= i < |starts| ==> starts[i].pc == IndexFor(e.pcToIdx, base)
    ensures rounds >= ROUNDS_NEEDED ==> AllHalted(Finals(e.code, starts, rounds))
    ensures AllHalted(Finals(e.code, starts, rounds)) ==> Finished(Finals(e.code, starts, rounds))
  {
    hide From, Translated, Entries, CodeFor, IndexMap, IndexFor, Rounds, RoundBound;
    var sts := Finals(e.code, starts, rounds);
    forall i | 0 <= i < |starts|
      ensures rounds >= ROUNDS_NEEDED ==> sts[i].cpu.halt
      ensures sts[i].cpu.halt ==> sts[i].cpu.ret == Checksum(i)
    {
      var st := starts[i];
      BytesToExitValue(f, base, st.cpu, st.mem, i, rounds);
      BoundIs(i);
      assert st == State(st.cpu, st.mem, IndexFor(e.pcToIdx, base));
    }
  }

  /** Such a run ends, and its end state is finished. */
  lemma {:induction false} RunFinishes(e: Emulator, f: Fields, base: Word, starts: seq<Guest>, maxSteps: Half)
    requires RunsGpubench(e, f, base) && Numbered(starts) && maxSteps > CHUNK * (ROUNDS_NEEDED - 1)
    requires forall i :: 0 <= i < |starts| ==> starts[i].pc == IndexFor(e.pcToIdx, base)
    ensures Ends(e.code, starts, maxSteps)
    ensures AllHalted(EndState(e.code, starts, maxSteps)) && Finished(EndState(e.code, starts, maxSteps))
  {
    hide IndexFor, Finals, AllHalted, Finished, RunsGpubench, Numbered;
    AllFinish(e, f, base, starts, ROUNDS_NEEDED);
    assert AllHalted(Finals(e.code, starts, ROUNDS_NEEDED));
    var k := Bound(e.code, starts, maxSteps);
    AllFinish(e, f, base, starts, k);
  }

  lemma {:induction false} LastFinished(sts: seq<Guest>)
    requires Finished(sts) && sts != []
    ensures LastExit(sts, |sts|) == Checksum(|sts| - 1)
  {
  }

  /** With ITER = 200000, on a device or on the host: the run reports that all vCPUs
      have halted, each leaves 100000 times ((i mod 8) + ((i + 4) mod 8)) as its exit
      value, and the exit code is that of the last. */
  method RunShowcase(e: Emulator, dev: CudaExecutor?, f: Fields, base: Word, maxSteps: Half, ghost starts: seq<Guest>)
      returns (result: RunResult)
    requires e.Valid() && e.Starting(starts) && (dev != null ==> e.Fits(dev))
    requires RunsGpubench(e, f, base) && Numbered(starts)
    requires forall i :: 0 <= i < |e.vcpus| ==> e.vcpus[i].state.rip == base
    requires maxSteps > CHUNK * (ROUNDS_NEEDED - 1)
    modifies e`vcpuMem, e.Footprint(), (if dev == null then {} else {e.mem as object} + dev.Footprint())
    ensures result.halted && result.steps == maxSteps
    ensures |e.vcpus| > 0 ==> result.exitCode == Checksum(|e.vcpus| - 1)
    ensures forall i :: 0 <= i < |e.vcpus| ==>
              e.vcpus[i].state.Valid() && e.vcpus[i].state.halt && e.vcpus[i].state.ret == Checksum(i)
  {
    hide RunsGpubench, Numbered, IndexFor, AllHalted, Finished, EndState, Ends, Objects;
    assert forall i :: 0 <= i < |starts| ==> starts[i].pc == IndexFor(e.pcToIdx, base);
    assert |e.code| > 0 by {
      CodeSize(e, f, base);
    }
    RunFinishes(e, f, base, starts, maxSteps);
    ghost var sts := EndState(e.code, starts, maxSteps);
    result := e.Run(dev, maxSteps, starts);
    if |e.vcpus| > 0 {
      LastFinished(sts);
    }
    FinishedCpus(e, sts);
  }

  lemma {:induction false} CodeSize(e: Emulator, f: Fields, base: Word)
    requires RunsGpubench(e, f, base)
    ensures |e.code| == COUNT
  {
    hide From, Translated, Entries, CodeFor, IndexMap;
    CodeIsProgram(f, base);
  }

  lemma {:induction false} FinishedCpus(e: Emulator, sts: seq<Guest>)
    requires e.Valid() && CpusAre(e.Cpus(), sts) && Finished(sts)
    ensures forall i :: 0 <= i < |e.vcpus| ==>
              e.vcpus[i].state.Valid() && e.vcpus[i].state.halt && e.vcpus[i].state.ret == Checksum(i)
  {
    forall i | 0 <= i < |e.vcpus|
      ensures e.vcpus[i].state.Valid() && e.vcpus[i].state.halt && e.vcpus[i].state.ret == Checksum(i)
    {
      assert e.Cpus()[i] == e.vcpus[i].state;
      assert e.Cpus()[i].Snap() == sts[i].cpu;
    }
  }
}
