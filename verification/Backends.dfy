/** The two backends: `run_cpu` on the host and `run_gpu` on a device.
 *
 * Both are proved to leave every vCPU, and every recorded memory, in the state
 * `Schedule.Rounds` gives it; that is the whole of their agreement.
 */
module Backends {
  import opened Words
  import opened Memory
  import StatusFlags
  import opened Machine
  import opened Ir
  import opened IrInterpreter
  import opened Vcpu
  import opened Schedule
  import opened Device

  /** `ir_index_for` */
  function IndexFor(pcToIdx: map<Word, Half>, pc: Word): Half {
    if pc in pcToIdx then pcToIdx[pc] else 0
  }

  /** The registers of the vCPUs are those of sts. */
  ghost predicate CpusAre(cpus: seq<CpuState>, sts: seq<Guest>)
    requires forall i :: 0 <= i < |cpus| ==> cpus[i].Valid()
    reads Objects(cpus)
  {
    |sts| == |cpus| && forall i :: 0 <= i < |cpus| ==> cpus[i].Snap() == sts[i].cpu
  }

  ghost predicate MemsAre(slices: seq<array<Byte>>, sts: seq<Guest>)
    reads slices
  {
    |sts| == |slices| && forall i :: 0 <= i < |slices| ==> slices[i][..] == sts[i].mem
  }

  predicate PcsAre(pcs: seq<Word>, sts: seq<Guest>) {
    |sts| == |pcs| && forall i :: 0 <= i < |pcs| ==> pcs[i] == sts[i].pc
  }

  /** One vCPU's part of a round of `run_cpu`. */
  method HostTurn(vc: VirtualCpu, slice: array<Byte>, code: Code, pc0: Word, ghost st: Guest)
      returns (running: bool, pc: Word)
    requires vc.state.Valid()
    requires st == Config(vc.state, slice, 0, slice.Length, pc0) && !st.cpu.pending
    modifies vc.state, vc.state.gpr, slice
    ensures Config(vc.state, slice, 0, slice.Length, pc) == Turn(code, st, CHUNK)
    ensures running <==> !st.cpu.halt
  {
    hide Exec, Handle;
    var cpu := vc.state;
    if cpu.halt {
      return false, pc0;
    }
    ExecFrame(code, st, CHUNK);
    var status;
    status, pc := ExecIr(cpu, slice, 0, slice.Length, code, pc0, CHUNK);
    running := true;
    if status == Trapped {
      cpu.pending := true;
      vc.HandleSyscall(slice.Length);
    }
  }

  /** All vCPUs after k rounds, each on its own. */
  function Finals(code: Code, starts: seq<Guest>, k: nat): (sts: seq<Guest>)
    ensures |sts| == |starts| && forall i :: 0 <= i < |sts| ==> sts[i] == Rounds(code, starts[i], k)
  {
    seq(|starts|, i requires 0 <= i < |starts| => Rounds(code, starts[i], k))
  }

  /** The first n vCPUs after one turn each. */
  function Turned(code: Code, sts: seq<Guest>, n: nat): (r: seq<Guest>)
    requires n <= |sts|
    ensures |r| == n && forall i :: 0 <= i < n ==> r[i] == Turn(code, sts[i], CHUNK)
  {
    seq(n, i requires 0 <= i < n => Turn(code, sts[i], CHUNK))
  }

  lemma {:induction false} TurnedNext(code: Code, sts: seq<Guest>, n: nat)
    requires n <= |sts|
    ensures n > 0 ==> Turned(code, sts, n) == Turned(code, sts, n - 1) + [Turn(code, sts[n - 1], CHUNK)]
  {
  }

  lemma {:induction false} AllHaltedAppend(sts: seq<Guest>, st: Guest)
    ensures AllHalted(sts + [st]) <==> AllHalted(sts) && st.cpu.halt
  {
    var r := sts + [st];
    if AllHalted(r) {
      assert r[|sts|] == st;
      assert forall i :: 0 <= i < |sts| ==> r[i] == sts[i];
    }
  }

  predicate AllHalted(sts: seq<Guest>) {
    forall i :: 0 <= i < |sts| ==> sts[i].cpu.halt
  }

  /** Once all have halted, any later number of rounds gives the same. */
  lemma {:induction false} HaltedRounds(code: Code, starts: seq<Guest>, k: nat, more: nat)
    requires AllHalted(Finals(code, starts, k))
    ensures Finals(code, starts, k + more) == Finals(code, starts, k)
  {
    hide Rounds;
    forall i | 0 <= i < |starts| ensures Rounds(code, starts[i], k + more) == Rounds(code, starts[i], k) {
      assert Finals(code, starts, k)[i].cpu.halt;
      RoundsAfterHalt(code, starts[i], k, more);
    }
  }

  lemma {:induction false} NextRound(code: Code, starts: seq<Guest>, k: nat)
    ensures Turned(code, Finals(code, starts, k), |starts|) == Finals(code, starts, k + 1)
    ensures AllHalted(Finals(code, starts, k)) ==> Finals(code, starts, k + 1) == Finals(code, starts, k)
  {
    hide Exec;
  }

  lemma {:induction false} ZeroRounds(code: Code, starts: seq<Guest>)
    ensures Finals(code, starts, 0) == starts
  {
  }

  lemma {:induction false} StayHalted(code: Code, starts: seq<Guest>, k: nat, later: nat)
    requires AllHalted(Finals(code, starts, k)) && k <= later
    ensures AllHalted(Finals(code, starts, later)) && Finals(code, starts, later) == Finals(code, starts, k)
  {
    hide Finals, AllHalted;
    HaltedRounds(code, starts, k, later - k);
  }

  /** A run ends by its step budget, if that leaves room for one more chunk below
      2^32, or because all vCPUs halt. */
  ghost predicate Ends(code: Code, starts: seq<Guest>, maxSteps: Half) {
    maxSteps <= LARGEST || exists k: nat :: AllHalted(Finals(code, starts, k))
  }

  /** Otherwise neither way of leaving the loop is ever taken. */
  lemma {:induction false} EndsIff(code: Code, starts: seq<Guest>, maxSteps: Half)
    ensures Ends(code, starts, maxSteps) <==>
            exists k: nat :: Counter(k) >= maxSteps || AllHalted(Finals(code, starts, k))
  {
    hide Counter, Finals, AllHalted;
    BudgetReached(maxSteps);
  }

  /** A number of rounds at which a run that ends has ended. */
  ghost function Bound(code: Code, starts: seq<Guest>, maxSteps: Half): (k: nat)
    requires Ends(code, starts, maxSteps)
    ensures if maxSteps <= LARGEST then k == RoundCount(maxSteps) else AllHalted(Finals(code, starts, k))
  {
    if maxSteps <= LARGEST then RoundCount(maxSteps)
    else
      var k: nat :| AllHalted(Finals(code, starts, k));
      k
  }

  /** The vCPUs at the end of a run: after as many rounds as the budget asks for, or
      when all have halted. */
  ghost function EndState(code: Code, starts: seq<Guest>, maxSteps: Half): (sts: seq<Guest>)
    requires Ends(code, starts, maxSteps)
    ensures |sts| == |starts|
  {
    Finals(code, starts, Bound(code, starts, maxSteps))
  }

  /** Leaving the loop early, with every vCPU halted, changes nothing. */
  lemma {:induction false} EarlyExit(code: Code, starts: seq<Guest>, k: nat, maxSteps: Half)
    requires Ends(code, starts, maxSteps) && AllHalted(Finals(code, starts, k))
    requires maxSteps <= LARGEST ==> k <= RoundCount(maxSteps)
    ensures Finals(code, starts, k) == EndState(code, starts, maxSteps)
  {
    hide Finals, AllHalted, RoundCount, Ends;
    var bound := Bound(code, starts, maxSteps);
    if k <= bound {
      StayHalted(code, starts, k, bound);
    } else {
      StayHalted(code, starts, bound, k);
    }
  }

  /** Going on after k rounds stays within the bound. */
  lemma {:induction false} GoesOn(code: Code, starts: seq<Guest>, k: nat, maxSteps: Half)
    requires Ends(code, starts, maxSteps) && k <= Bound(code, starts, maxSteps)
    requires if maxSteps <= LARGEST then Counter(k) < maxSteps else !AllHalted(Finals(code, starts, k))
    ensures k + 1 <= Bound(code, starts, maxSteps)
  {
    hide Finals, AllHalted, RoundCount, Counter, Ends;
    if maxSteps <= LARGEST {
      CounterCounts(k, maxSteps);
    }
  }

  /** The budget is used up only if it is small enough, and then at the bound. */
  lemma {:induction false} UsedUp(code: Code, starts: seq<Guest>, k: nat, maxSteps: Half)
    requires Ends(code, starts, maxSteps) && k <= Bound(code, starts, maxSteps) && Counter(k) >= maxSteps
    ensures maxSteps <= LARGEST && k == Bound(code, starts, maxSteps)
  {
    hide Finals, AllHalted, RoundCount, Counter, Ends;
    BudgetReached(maxSteps);
    CounterCounts(k, maxSteps);
  }

  lemma {:induction false} NonePending(code: Code, starts: seq<Guest>, k: nat)
    requires forall i :: 0 <= i < |starts| ==> !starts[i].cpu.pending
    ensures forall i :: 0 <= i < |starts| ==>
              !Finals(code, starts, k)[i].cpu.pending && |Finals(code, starts, k)[i].mem| == |starts[i].mem|
  {
    hide Rounds;
    forall i | 0 <= i < |starts|
      ensures !Rounds(code, starts[i], k).cpu.pending && |Rounds(code, starts[i], k).mem| == |starts[i].mem|
    {
      RoundsFrame(code, starts[i], k);
    }
  }

  /** The emulator once its vCPUs are added and its code is translated. */
  class Emulator {
    const mem: array<Byte>
    const vcpus: seq<VirtualCpu>
    const code: Code
    const pcToIdx: map<Word, Half>
    var vcpuMem: seq<array<Byte>>

    ghost function Cpus(): (r: seq<CpuState>)
      ensures |r| == |vcpus| && forall i :: 0 <= i < |r| ==> r[i] == vcpus[i].state
    {
      seq(|vcpus|, i requires 0 <= i < |vcpus| => vcpus[i].state)
    }

    ghost predicate Valid()
    {
      Separate(Cpus()) && mem.Length < 0x1_0000_0000_0000_0000 && mem !in Footprint()
    }

    ghost function Footprint(): set<object>
    {
      Objects(Cpus())
    }

    /** Where a run starts: every vCPU with its own copy of guest RAM, at the IR
        index of its rip, and no system call pending. */
    ghost predicate Starting(starts: seq<Guest>)
      requires Valid()
      reads *
    {
      && |starts| == |vcpus|
      && forall i :: 0 <= i < |vcpus| ==>
        && starts[i] == State(vcpus[i].state.Snap(), mem[..], IndexFor(pcToIdx, vcpus[i].state.rip))
        && !starts[i].cpu.pending
    }

    method CopySlices() returns (slices: seq<array<Byte>>)
      ensures |slices| == |vcpus|
      ensures forall i :: 0 <= i < |slices| ==> fresh(slices[i]) && slices[i][..] == mem[..]
      ensures forall i, j :: 0 <= i < j < |slices| ==> slices[i] != slices[j]
    {
      slices := [];
      while |slices| < |vcpus|
        invariant |slices| <= |vcpus|
        invariant forall i :: 0 <= i < |slices| ==> fresh(slices[i]) && slices[i][..] == mem[..]
        invariant forall i, j :: 0 <= i < j < |slices| ==> slices[i] != slices[j]
      {
        var slice := new Byte[mem.Length](i requires 0 <= i < mem.Length reads mem => mem[i]);
        assert slice[..] == mem[..];
        slices := slices + [slice];
      }
    }

    method StartPcs() returns (pcs: seq<Word>)
      ensures |pcs| == |vcpus|
      ensures forall i :: 0 <= i < |pcs| ==> pcs[i] == IndexFor(pcToIdx, vcpus[i].state.rip)
    {
      pcs := [];
      while |pcs| < |vcpus|
        invariant |pcs| <= |vcpus|
        invariant forall i :: 0 <= i < |pcs| ==> pcs[i] == IndexFor(pcToIdx, vcpus[i].state.rip)
      {
        pcs := pcs + [IndexFor(pcToIdx, vcpus[|pcs|].state.rip)];
      }
    }

    /** Every register file of the host is in the footprint. */
    lemma {:induction false} InFootprint()
      requires Valid()
      ensures forall j :: 0 <= j < |vcpus| ==>
                vcpus[j].state.Valid() && vcpus[j].state in Footprint() && vcpus[j].state.gpr in Footprint()
      ensures forall j, k :: 0 <= j < |vcpus| && 0 <= k < |vcpus| && j != k ==>
                vcpus[j].state != vcpus[k].state && vcpus[j].state.gpr != vcpus[k].state.gpr
    {
      forall j | 0 <= j < |vcpus|
        ensures vcpus[j].state.Valid() && vcpus[j].state in Footprint() && vcpus[j].state.gpr in Footprint()
      {
        assert Cpus()[j] == vcpus[j].state;
      }
      forall j, k | 0 <= j < |vcpus| && 0 <= k < |vcpus| && j != k
        ensures vcpus[j].state != vcpus[k].state && vcpus[j].state.gpr != vcpus[k].state.gpr
      {
        assert Cpus()[j] == vcpus[j].state && Cpus()[k] == vcpus[k].state;
      }
    }

    /** vCPU i's part of a round. */
    method HostStep(slices: seq<array<Byte>>, pcs0: seq<Word>, ghost sts: seq<Guest>, i: nat)
        returns (running: bool, pcs: seq<Word>)
      requires Valid() && |slices| == |pcs0| == |vcpus| && i < |vcpus|
      requires forall i, j :: 0 <= i < j < |slices| ==> slices[i] != slices[j]
      requires CpusAre(Cpus(), sts) && MemsAre(slices, sts) && PcsAre(pcs0, sts)
      requires !sts[i].cpu.pending
      modifies Footprint(), slices
      ensures CpusAre(Cpus(), sts[i := Turn(code, sts[i], CHUNK)])
      ensures MemsAre(slices, sts[i := Turn(code, sts[i], CHUNK)])
      ensures |pcs| == |pcs0| && PcsAre(pcs, sts[i := Turn(code, sts[i], CHUNK)])
      ensures running <==> !sts[i].cpu.halt
    {
      InFootprint();
      hide Turn, CpuState.Snap, Objects;
      assert Config(vcpus[i].state, slices[i], 0, slices[i].Length, pcs0[i]) == sts[i] by {
        assert slices[i][0..slices[i].Length] == slices[i][..];
        assert Cpus()[i].Snap() == sts[i].cpu;
      }
      var pc;
      running, pc := HostTurn(vcpus[i], slices[i], code, pcs0[i], sts[i]);
      pcs := pcs0[i := pc];
      assert slices[i][0..slices[i].Length] == slices[i][..];
    }

    /** One round: every vCPU that has not halted gets a chunk. */
    method HostRound(slices: seq<array<Byte>>, pcs0: seq<Word>, ghost sts0: seq<Guest>)
        returns (anyRunning: bool, pcs: seq<Word>, ghost sts: seq<Guest>)
      requires Valid() && |slices| == |pcs0| == |vcpus|
      requires forall i, j :: 0 <= i < j < |slices| ==> slices[i] != slices[j]
      requires CpusAre(Cpus(), sts0) && MemsAre(slices, sts0) && PcsAre(pcs0, sts0)
      requires forall i :: 0 <= i < |sts0| ==> !sts0[i].cpu.pending
      modifies Footprint(), slices
      ensures sts == Turned(code, sts0, |sts0|)
      ensures CpusAre(Cpus(), sts) && MemsAre(slices, sts) && PcsAre(pcs, sts)
      ensures |pcs| == |pcs0|
      ensures anyRunning <==> !AllHalted(sts0)
    {
      assert |sts0| == |vcpus|;
      hide Turn, CpusAre, MemsAre, PcsAre, Objects;
      anyRunning, pcs, sts := false, pcs0, sts0;
      var i := 0;
      while i < |vcpus|
        invariant 0 <= i <= |vcpus| && |sts| == |sts0| && |pcs| == |vcpus|
        invariant forall j :: 0 <= j < i ==> sts[j] == Turn(code, sts0[j], CHUNK)
        invariant forall j :: i <= j < |sts| ==> sts[j] == sts0[j]
        invariant CpusAre(Cpus(), sts) && MemsAre(slices, sts) && PcsAre(pcs, sts)
        invariant anyRunning <==> exists j :: 0 <= j < i && !sts0[j].cpu.halt
      {
        var running;
        running, pcs := HostStep(slices, pcs, sts, i);
        sts := sts[i := Turn(code, sts[i], CHUNK)];
        anyRunning := anyRunning || running;
        i := i + 1;
      }
      assert sts == Turned(code, sts0, |sts0|);
    }

    /** The rounds of `run_cpu`: no more than it takes to reach the step budget in
        chunks. */
    method HostRounds(slices: seq<array<Byte>>, pcs0: seq<Word>, maxSteps: Half, ghost starts: seq<Guest>)
        returns (ghost k: nat)
      requires Valid() && |slices| == |pcs0| == |vcpus|
      requires forall i, j :: 0 <= i < j < |slices| ==> slices[i] != slices[j]
      requires CpusAre(Cpus(), starts) && MemsAre(slices, starts) && PcsAre(pcs0, starts)
      requires forall i :: 0 <= i < |starts| ==> !starts[i].cpu.pending
      requires Ends(code, starts, maxSteps)
      modifies Footprint(), slices
      ensures CpusAre(Cpus(), EndState(code, starts, maxSteps))
      ensures MemsAre(slices, EndState(code, starts, maxSteps))
      ensures maxSteps <= LARGEST ==> k <= RoundCount(maxSteps)
    {
      hide Turn, RoundCount, Finals, CpusAre, MemsAre, PcsAre, Turned, AllHalted, Objects, Counter, Ends, Bound;
      var pcs := pcs0;
      ghost var sts, bound := starts, Bound(code, starts, maxSteps);
      var total: Half := 0;
      k := 0;
      ZeroRounds(code, starts);
      CounterValue(0);
      while total < maxSteps
        invariant total == Counter(k) && k <= bound
        invariant sts == Finals(code, starts, k) && |pcs| == |vcpus|
        invariant CpusAre(Cpus(), sts) && MemsAre(slices, sts) && PcsAre(pcs, sts)
        decreases bound - k
      {
        NonePending(code, starts, k);
        var anyRunning;
        anyRunning, pcs, sts := HostRound(slices, pcs, sts);
        NextRound(code, starts, k);
        total := Wrap32(total + 4096);
        if !anyRunning {
          EarlyExit(code, starts, k, maxSteps);
          if maxSteps <= LARGEST {
            GoesOn(code, starts, k, maxSteps);
          }
          k := k + 1;
          return;
        }
        CounterNext(k);
        GoesOn(code, starts, k, maxSteps);
        k := k + 1;
      }
      UsedUp(code, starts, k, maxSteps);
    }

    /** `run_cpu` */
    method RunCpu(maxSteps: Half, ghost starts: seq<Guest>)
      requires Valid() && Starting(starts) && Ends(code, starts, maxSteps)
      modifies this`vcpuMem, Footprint()
      ensures mem[..] == old(mem[..])
      ensures CpusAre(Cpus(), EndState(code, starts, maxSteps))
      ensures MemsAre(vcpuMem, EndState(code, starts, maxSteps)) && fresh(vcpuMem)
    {
      hide Turn, RoundCount, Finals, Ends, EndState;
      var slices := CopySlices();
      var pcs := StartPcs();
      ghost var rounds := HostRounds(slices, pcs, maxSteps, starts);
      vcpuMem := slices;
    }

    /** A device made for this emulator, sharing nothing with the host. */
    ghost predicate Fits(dev: CudaExecutor)
      requires Valid()
    {
      && dev.Valid() && |dev.cpus| == |vcpus| && dev.memSize == mem.Length && dev.code == code
      && Footprint() !! dev.Footprint() && mem !in dev.Footprint() && dev.mem !in Footprint() && dev.pcs !in Footprint()
    }

    /** The host's other vCPUs keep their registers. */
    twostate predicate OthersKept(i: nat)
      requires Valid()
      reads *
    {
      forall j :: 0 <= j < |vcpus| && j != i ==> vcpus[j].state.Snap() == old(vcpus[j].state.Snap())
    }

    /** Host and device objects are apart. */
    lemma {:induction false} Apart(dev: CudaExecutor)
      requires Valid() && Fits(dev)
      ensures forall j :: 0 <= j < |vcpus| ==>
                && vcpus[j].state in Footprint() && vcpus[j].state.gpr in Footprint()
                && vcpus[j].state !in dev.Footprint() && vcpus[j].state.gpr !in dev.Footprint()
                && dev.cpus[j] in dev.Footprint() && dev.cpus[j].gpr in dev.Footprint()
                && dev.cpus[j] !in Footprint() && dev.cpus[j].gpr !in Footprint()
                && vcpus[j].state.Valid() && dev.cpus[j].Valid()
      ensures forall j, k :: 0 <= j < |vcpus| && 0 <= k < |vcpus| && j != k ==>
                vcpus[j].state != vcpus[k].state && vcpus[j].state.gpr != vcpus[k].state.gpr
      ensures dev.mem in dev.Footprint() && dev.pcs in dev.Footprint()
      ensures mem !in Footprint() && mem !in dev.Footprint() && dev.mem !in Footprint() && dev.pcs !in Footprint()
    {
      InFootprint();
    }

    /** Upload everything and set the program counters. */
    method UploadAll(dev: CudaExecutor, ghost starts: seq<Guest>)
      requires Valid() && Fits(dev) && Starting(starts)
      modifies dev.Footprint()
      ensures dev.Holds(starts)
    {
      InFootprint();
      hide dev.Thread, CpuState.Snap, Separate;
      var i := 0;
      while i < |vcpus|
        invariant 0 <= i <= |vcpus|
        invariant Starting(starts)
        invariant forall j :: 0 <= j < i ==> dev.Thread(j) == starts[j]
      {
        assert dev.cpus[i] in dev.Footprint() && dev.cpus[i].gpr in dev.Footprint();
        dev.Upload(i, vcpus[i].state, mem);
        dev.SetPc(i, IndexFor(pcToIdx, vcpus[i].state.rip));
        i := i + 1;
      }
    }

    lemma {:induction false} PendingOf(cpu: CpuState)
      requires cpu.Valid()
      ensures cpu.Snap().pending == cpu.pending && cpu.Snap().halt == cpu.halt && cpu.Snap().ret == cpu.ret
    {
    }

    /** What downloading vCPU i relies on. */
    lemma {:induction false} ApartAt(dev: CudaExecutor, i: nat)
      requires Valid() && Fits(dev) && i < |vcpus|
      ensures dev.Valid() && i < |dev.cpus| && dev.memSize == mem.Length && mem != dev.mem
      ensures vcpus[i].state.Valid() && dev.cpus[i].Valid()
      ensures vcpus[i].state != dev.cpus[i] && vcpus[i].state.gpr != dev.cpus[i].gpr && vcpus[i].state.gpr != dev.pcs
      ensures forall j :: 0 <= j < |vcpus| ==> vcpus[j].state.Valid()
      ensures forall j :: 0 <= j < |vcpus| && j != i ==>
                vcpus[j].state != vcpus[i].state && vcpus[j].state.gpr != vcpus[i].state.gpr
    {
      Apart(dev);
      hide Objects;
    }

    /** Download vCPU i into the host's state and RAM. */
    method Fetch(dev: CudaExecutor, i: nat)
      requires Valid() && Fits(dev) && i < |vcpus|
      modifies vcpus[i].state, vcpus[i].state.gpr, mem
      ensures vcpus[i].state.Snap() == dev.Thread(i).cpu && mem[..] == dev.Thread(i).mem
      ensures OthersKept(i)
    {
      hide dev.Thread, CpuState.Snap, Objects, Separate, Footprint, dev.Footprint, Valid, Fits, dev.Valid;
      ApartAt(dev, i);
      var cpu := new CpuState();
      dev.Download(i, cpu, mem);
      vcpus[i].state.CopyFrom(cpu);
    }

    /** Download vCPU i; if it trapped, serve the call and upload it again. */
    method Collect(dev: CudaExecutor, i: nat, ghost st: Guest)
      requires Valid() && Fits(dev) && i < |vcpus|
      requires dev.Thread(i) == st
      modifies vcpus[i].state, vcpus[i].state.gpr, mem, dev.cpus[i], dev.cpus[i].gpr, dev.mem
      ensures dev.Thread(i) == Collected(st) && dev.OthersKept(i) && OthersKept(i)
      ensures vcpus[i].state.Snap() == Collected(st).cpu && mem[..] == st.mem == Collected(st).mem
    {
      Apart(dev);
      hide Handle, dev.Thread, CpuState.Snap, Objects, Separate, Footprint, dev.Footprint, Fits;
      Fetch(dev, i);
      PendingOf(vcpus[i].state);
      if vcpus[i].state.pending {
        vcpus[i].HandleSyscall(mem.Length);
        dev.Upload(i, vcpus[i].state, mem);
      }
    }

    /** Midway through a round: the first |sts| vCPUs are collected, the others
        only launched. */
    ghost predicate Midway(dev: CudaExecutor, sts0: seq<Guest>, sts: seq<Guest>)
      requires Valid() && Fits(dev)
      reads Footprint(), dev.Footprint()
    {
      && |sts| <= |sts0| == |vcpus|
      && (forall j :: 0 <= j < |sts| ==> dev.Thread(j) == sts[j] && vcpus[j].state.Snap() == sts[j].cpu)
      && (forall j :: |sts| <= j < |vcpus| ==> dev.Thread(j) == Launched(code, sts0[j], CHUNK))
    }

    method CollectNext(dev: CudaExecutor, ghost sts0: seq<Guest>, i: nat, ghost sts: seq<Guest>)
        returns (ghost sts': seq<Guest>)
      requires Valid() && Fits(dev) && Midway(dev, sts0, sts) && |sts| == i < |vcpus|
      requires !sts0[i].cpu.pending
      modifies Footprint(), mem, dev.Footprint()
      ensures Midway(dev, sts0, sts') && sts' == sts + [Turn(code, sts0[i], CHUNK)]
      ensures mem[..] == sts'[i].mem
    {
      Apart(dev);
      hide Turn, Launched, Collected, dev.Thread, CpuState.Snap, Footprint, dev.Footprint, Separate, Objects, Fits,
          dev.Valid;
      Collect(dev, i, Launched(code, sts0[i], CHUNK));
      LaunchThenCollect(code, sts0[i], CHUNK);
      sts' := sts + [Turn(code, sts0[i], CHUNK)];
    }

    /** One round on the device: a launch, then the host collects. */
    method DeviceRound(dev: CudaExecutor, ghost sts0: seq<Guest>)
        returns (anyRunning: bool, ghost sts: seq<Guest>)
      requires Valid() && Fits(dev) && dev.Holds(sts0)
      requires forall i :: 0 <= i < |sts0| ==> !sts0[i].cpu.pending
      modifies Footprint(), mem, dev.Footprint()
      ensures sts == Turned(code, sts0, |sts0|)
      ensures dev.Holds(sts) && CpusAre(Cpus(), sts)
      ensures mem[..] == LastMem(sts, 1, old(mem[..]))
      ensures anyRunning <==> !AllHalted(sts)
    {
      hide Turn, Launched, dev.Thread;
      dev.Launch(CHUNK, sts0);
      assert Midway(dev, sts0, []);
      anyRunning, sts := CollectAll(dev, sts0);
      MidwayDone(dev, sts0, sts);
    }

    /** One vCPU's turn of any length on the shared buffer. */
    method DeviceTurn(dev: CudaExecutor, i: nat, steps: nat, ghost sts: seq<Guest>)
      requires Valid() && Fits(dev) && dev.Holds(sts) && i < |vcpus|
      requires !sts[i].cpu.pending
      modifies Footprint(), mem, dev.Footprint()
      ensures dev.Holds(sts[i := Turn(code, sts[i], steps)])
    {
      Apart(dev);
      hide Turn, Launched, Collected, dev.Thread, CpuState.Snap, Separate, Objects;
      dev.Kernel(i, steps);
      LaunchThenCollect(code, sts[i], steps);
      Collect(dev, i, Launched(code, sts[i], steps));
    }

    /** Any schedule, any vCPU for any number of steps at a time, carried out turn by
        turn on the one buffer that holds all vCPUs' memories: the threads end as
        `Schedule.Run` leaves them. */
    method DeviceSchedule(dev: CudaExecutor, schedule: seq<Decision>, ghost sts0: seq<Guest>)
      requires Valid() && Fits(dev) && dev.Holds(sts0)
      requires forall i :: 0 <= i < |sts0| ==> !sts0[i].cpu.pending
      modifies Footprint(), mem, dev.Footprint()
      ensures dev.Holds(Schedule.Run(code, sts0, schedule))
    {
      hide Turn, dev.Thread, Objects;
      var rest := schedule;
      ghost var sts: seq<Guest> := sts0;
      while rest != []
        invariant dev.Holds(sts) && forall i :: 0 <= i < |sts| ==> !sts[i].cpu.pending
        invariant Schedule.Run(code, sts, rest) == Schedule.Run(code, sts0, schedule)
        decreases |rest|
      {
        var d := rest[0];
        if d.id < |vcpus| {
          ServedFrame(code, sts[d.id], d.steps);
          DeviceTurn(dev, d.id, d.steps, sts);
          sts := sts[d.id := Turn(code, sts[d.id], d.steps)];
        }
        rest := rest[1..];
      }
    }

    lemma {:induction false} MidwayDone(dev: CudaExecutor, sts0: seq<Guest>, sts: seq<Guest>)
      requires Valid() && Fits(dev) && Midway(dev, sts0, sts) && |sts| == |vcpus|
      ensures dev.Holds(sts) && CpusAre(Cpus(), sts)
    {
      hide dev.Thread, CpuState.Snap;
    }

    method HasHalted(dev: CudaExecutor, ghost sts0: seq<Guest>, i: nat, ghost sts: seq<Guest>) returns (halted: bool)
      requires Valid() && Fits(dev) && Midway(dev, sts0, sts) && i < |sts|
      ensures halted == sts[i].cpu.halt
    {
      halted := vcpus[i].state.halt;
      assert vcpus[i].state.Snap().halt == vcpus[i].state.halt;
    }

    /** The first i vCPUs have been collected. */
    ghost predicate Progress(dev: CudaExecutor, sts0: seq<Guest>, i: nat, sts: seq<Guest>, running: bool,
        before: seq<Byte>)
      requires Valid() && Fits(dev)
      reads Footprint(), mem, dev.Footprint()
    {
      && |sts0| == |vcpus| && i <= |vcpus|
      && Midway(dev, sts0, sts) && sts == Turned(code, sts0, i)
      && mem[..] == LastMem(sts, 1, before)
      && (running <==> !AllHalted(sts))
    }

    lemma {:induction false} ProgressStart(dev: CudaExecutor, sts0: seq<Guest>)
      requires Valid() && Fits(dev) && Midway(dev, sts0, []) && |sts0| == |vcpus|
      ensures Progress(dev, sts0, 0, [], false, mem[..])
    {
    }

    method CollectStep(dev: CudaExecutor, ghost sts0: seq<Guest>, i: nat, ghost sts: seq<Guest>, running: bool,
                       ghost before: seq<Byte>)
        returns (running': bool, ghost sts': seq<Guest>)
      requires Valid() && Fits(dev) && i < |vcpus|
      requires Progress(dev, sts0, i, sts, running, before)
      requires forall i :: 0 <= i < |sts0| ==> !sts0[i].cpu.pending
      modifies Footprint(), mem, dev.Footprint()
      ensures Progress(dev, sts0, i + 1, sts', running', before)
    {
      hide Turn, Midway, AllHalted;
      sts' := CollectNext(dev, sts0, i, sts);
      AllHaltedAppend(sts, sts'[i]);
      var halted := HasHalted(dev, sts0, i, sts');
      running' := running || !halted;
      TurnedNext(code, sts0, i + 1);
    }

    /** The host's part of a round. */
    method CollectAll(dev: CudaExecutor, ghost sts0: seq<Guest>)
        returns (anyRunning: bool, ghost sts: seq<Guest>)
      requires Valid() && Fits(dev) && Midway(dev, sts0, []) && |sts0| == |vcpus|
      requires forall i :: 0 <= i < |sts0| ==> !sts0[i].cpu.pending
      modifies Footprint(), mem, dev.Footprint()
      ensures Progress(dev, sts0, |vcpus|, sts, anyRunning, old(mem[..]))
    {
      hide *;
      anyRunning, sts := false, [];
      var i := 0;
      ProgressStart(dev, sts0);
      while i < |vcpus|
        invariant 0 <= i <= |vcpus|
        invariant Progress(dev, sts0, i, sts, anyRunning, old(mem[..]))
      {
        anyRunning, sts := CollectStep(dev, sts0, i, sts, anyRunning, old(mem[..]));
        i := i + 1;
      }
    }

    lemma {:induction false} StartingCpus(starts: seq<Guest>)
      requires Valid() && Starting(starts)
      ensures CpusAre(Cpus(), starts) && forall i :: 0 <= i < |starts| ==> !starts[i].cpu.pending
    {
    }

    /** The launches of `run_gpu`: no more than the budget asks for either. */
    method DeviceRounds(dev: CudaExecutor, maxSteps: Half, ghost starts: seq<Guest>) returns (ghost k: nat)
      requires Valid() && Fits(dev) && dev.Holds(starts) && CpusAre(Cpus(), starts)
      requires forall i :: 0 <= i < |starts| ==> !starts[i].cpu.pending
      requires Ends(code, starts, maxSteps)
      modifies Footprint(), mem, dev.Footprint()
      ensures dev.Holds(EndState(code, starts, maxSteps))
      ensures CpusAre(Cpus(), EndState(code, starts, maxSteps))
      ensures mem[..] == LastMem(EndState(code, starts, maxSteps), maxSteps, old(mem[..]))
      ensures maxSteps <= LARGEST ==> k <= RoundCount(maxSteps)
    {
      hide Turn, RoundCount, Finals, CpusAre, dev.Holds, Turned, AllHalted, Objects, Counter, Ends, Bound;
      ghost var sts, bound := starts, Bound(code, starts, maxSteps);
      var total: Half := 0;
      k := 0;
      ZeroRounds(code, starts);
      CounterValue(0);
      while total < maxSteps
        invariant total == Counter(k) && k <= bound && (k == 0 ==> total == 0)
        invariant sts == Finals(code, starts, k) && |sts| == |starts|
        invariant dev.Holds(sts) && CpusAre(Cpus(), sts)
        invariant mem[..] == LastMem(sts, k, old(mem[..]))
        decreases bound - k
      {
        NonePending(code, starts, k);
        var anyRunning;
        anyRunning, sts := DeviceRound(dev, sts);
        NextRound(code, starts, k);
        total := Wrap32(total + 4096);
        CounterNext(k);
        if maxSteps <= LARGEST {
          GoesOn(code, starts, k, maxSteps);
        }
        k := k + 1;
        if !anyRunning {
          EarlyExit(code, starts, k, maxSteps);
          return;
        }
        if k > bound {
          StayHalted(code, starts, bound, k);
        }
      }
      UsedUp(code, starts, k, maxSteps);
    }

    /** `run_gpu` */
    method RunGpu(dev: CudaExecutor, maxSteps: Half, ghost starts: seq<Guest>)
      requires Valid() && Fits(dev) && Starting(starts) && Ends(code, starts, maxSteps)
      modifies this`vcpuMem, Footprint(), mem, dev.Footprint()
      ensures CpusAre(Cpus(), EndState(code, starts, maxSteps))
      ensures MemsAre(vcpuMem, EndState(code, starts, maxSteps)) && fresh(vcpuMem)
      ensures |vcpuMem| == |vcpus|
      ensures mem[..] == if maxSteps > 0 && |vcpus| > 0 then vcpuMem[|vcpus| - 1][..] else old(mem[..])
    {
      hide Turn, RoundCount, Finals, CpusAre, MemsAre, dev.Holds, Ends, EndState;
      StartingCpus(starts);
      UploadAll(dev, starts);
      ghost var rounds := DeviceRounds(dev, maxSteps, starts);
      vcpuMem := DownloadAll(dev, EndState(code, starts, maxSteps));
      LastOf(vcpuMem, EndState(code, starts, maxSteps));
    }

    lemma {:induction false} LastOf(slices: seq<array<Byte>>, sts: seq<Guest>)
      requires MemsAre(slices, sts)
      ensures |slices| == |sts| && (|sts| > 0 ==> slices[|sts| - 1][..] == sts[|sts| - 1].mem)
    {
    }

    /** The final downloads, each into a fresh buffer. */
    method DownloadAll(dev: CudaExecutor, ghost sts: seq<Guest>) returns (slices: seq<array<Byte>>)
      requires Valid() && Fits(dev) && dev.Holds(sts)
      modifies Footprint()
      ensures CpusAre(Cpus(), sts) && MemsAre(slices, sts) && fresh(slices)
    {
      slices := [];
      assert dev.Holds(sts) && |sts| == |vcpus|;
      assert Downloaded(sts, slices);
      hide Downloaded, dev.Holds, Objects, CpuState.Snap, Fits;
      while |slices| < |vcpus|
        invariant |slices| <= |vcpus| == |sts| && dev.Holds(sts)
        invariant Downloaded(sts, slices) && fresh(slices)
      {
        slices := DownloadStep(dev, sts, slices);
      }
      AllDownloaded(sts, slices);
    }

    lemma {:induction false} AllDownloaded(sts: seq<Guest>, slices: seq<array<Byte>>)
      requires Valid() && |slices| == |vcpus| == |sts| && Downloaded(sts, slices)
      ensures CpusAre(Cpus(), sts) && MemsAre(slices, sts)
    {
      hide Objects, CpuState.Snap;
    }

    /** One more download. */
    method DownloadStep(dev: CudaExecutor, ghost sts: seq<Guest>, slices: seq<array<Byte>>)
        returns (slices': seq<array<Byte>>)
      requires Valid() && Fits(dev) && dev.Holds(sts) && |slices| < |vcpus| == |sts| && Downloaded(sts, slices)
      modifies Footprint()
      ensures |slices'| == |slices| + 1 && slices'[..|slices|] == slices && fresh(slices'[|slices|])
      ensures Downloaded(sts, slices') && dev.Holds(sts)
    {
      InFootprint();
      hide dev.Holds, Objects, CpuState.Snap, Fits;
      var host := DownloadNext(dev, sts, |slices|);
      slices' := slices + [host];
    }

    ghost predicate Downloaded(sts: seq<Guest>, slices: seq<array<Byte>>)
      requires Valid() && |slices| <= |vcpus| == |sts|
      reads Footprint(), slices
    {
      && (forall j :: 0 <= j < |slices| ==> slices[j][..] == sts[j].mem)
      && (forall j :: 0 <= j < |slices| ==> vcpus[j].state.Snap() == sts[j].cpu)
    }

    method DownloadNext(dev: CudaExecutor, ghost sts: seq<Guest>, i: nat) returns (host: array<Byte>)
      requires Valid() && Fits(dev) && dev.Holds(sts) && i < |vcpus| == |sts|
      modifies vcpus[i].state, vcpus[i].state.gpr
      ensures fresh(host) && host[..] == sts[i].mem && dev.Holds(sts)
      ensures vcpus[i].state.Snap() == sts[i].cpu && OthersKept(i)
    {
      Apart(dev);
      hide dev.Thread, Objects;
      host := new Byte[mem.Length];
      dev.Download(i, vcpus[i].state, host);
    }

    /** `handle_traps`: serve every system call still pending. */
    method HandleTraps()
      requires Valid()
      modifies Footprint()
      ensures
        forall j :: 0 <= j < |vcpus| ==>
          var before := old(vcpus[j].state.Snap());
          && vcpus[j].state.Valid()
          && vcpus[j].state.Snap() == if before.pending then Handle(before, mem.Length) else before
    {
      InFootprint();
      hide Objects, Handle, CpuState.Snap;
      var i := 0;
      while i < |vcpus|
        invariant 0 <= i <= |vcpus|
        invariant
          forall j :: 0 <= j < i ==>
            var before := old(vcpus[j].state.Snap());
            vcpus[j].state.Snap() == if before.pending then Handle(before, mem.Length) else before
        invariant forall j :: i <= j < |vcpus| ==> vcpus[j].state.Snap() == old(vcpus[j].state.Snap())
      {
        PendingOf(vcpus[i].state);
        if vcpus[i].state.pending {
          vcpus[i].HandleSyscall(mem.Length);
        }
        i := i + 1;
      }
    }

    /** Register files are neither the emulator nor memory. */
    lemma {:induction false} FilesOnly(that: Emulator, slices: seq<array<Byte>>)
      ensures that !in Footprint() && forall i :: 0 <= i < |slices| ==> slices[i] !in Footprint()
    {
    }

    /** `run`: on the device if there is one, else on the host; then what the
        vCPUs report. */
    method Run(dev: CudaExecutor?, maxSteps: Half, ghost starts: seq<Guest>) returns (result: RunResult)
      requires Valid() && Starting(starts) && (dev != null ==> Fits(dev))
      requires |code| > 0 ==> Ends(code, starts, maxSteps)
      modifies this`vcpuMem, Footprint(), (if dev == null then {} else {mem as object} + dev.Footprint())
      ensures |code| == 0 ==> CpusAre(Cpus(), starts) && result == RunResult(false, 0, 0)
      ensures |code| > 0 ==>
                && CpusAre(Cpus(), EndState(code, starts, maxSteps))
                && MemsAre(vcpuMem, EndState(code, starts, maxSteps)) && fresh(vcpuMem)
                && result == ResultOf(EndState(code, starts, maxSteps), maxSteps)
    {
      hide Turn, RoundCount, Finals, CpusAre, MemsAre, Objects, Handle, Ends, Bound;
      if |code| == 0 {
        StartingCpus(starts);
        return RunResult(false, 0, 0);
      }
      if dev != null {
        RunGpu(dev, maxSteps, starts);
      } else {
        RunCpu(maxSteps, starts);
      }
      ghost var sts := EndState(code, starts, maxSteps);
      assert forall i :: 0 <= i < |starts| ==> !starts[i].cpu.pending;
      NonePending(code, starts, Bound(code, starts, maxSteps));
      FilesOnly(this, vcpuMem);
      ServeAndKeep(sts);
      var allHalted, exitCode := Report(sts);
      result := RunResult(allHalted, exitCode, maxSteps);
    }

    /** At the end of a run no call is pending, so `handle_traps` has no effect. */
    method ServeAndKeep(ghost sts: seq<Guest>)
      requires Valid() && CpusAre(Cpus(), sts)
      requires forall i :: 0 <= i < |sts| ==> !sts[i].cpu.pending
      modifies Footprint()
      ensures CpusAre(Cpus(), sts)
    {
      hide Objects, CpuState.Snap, Handle;
      assert forall j :: 0 <= j < |vcpus| ==> Cpus()[j] == vcpus[j].state;
      HandleTraps();
    }

    /** Whether all have halted, and the exit value of the last that has. */
    method Report(ghost sts: seq<Guest>) returns (allHalted: bool, exitCode: Int64)
      requires Valid() && CpusAre(Cpus(), sts)
      ensures allHalted == AllHalted(sts) && exitCode == LastExit(sts, |sts|) && CpusAre(Cpus(), sts)
    {
      allHalted, exitCode := true, 0;
      var i := 0;
      while i < |vcpus|
        invariant 0 <= i <= |vcpus|
        invariant allHalted <==> forall j :: 0 <= j < i ==> sts[j].cpu.halt
        invariant exitCode == LastExit(sts, i)
      {
        assert Cpus()[i].Snap() == sts[i].cpu;
        if !vcpus[i].state.halt {
          allHalted := false;
        }
        if vcpus[i].state.halt {
          exitCode := vcpus[i].state.ret;
        }
        i := i + 1;
      }
    }
  }

  /** `add_vcpu`: one more vCPU at entry, with the given initial registers but its
      own stack pointer. */
  method AddVcpu(vcpus: seq<VirtualCpu>, memSize: Word, entry: Word, initial: CpuState?)
      returns (vcpus': seq<VirtualCpu>)
    requires initial != null ==> initial.Valid()
    ensures |vcpus'| == |vcpus| + 1 && vcpus'[..|vcpus|] == vcpus
    ensures
      var vc := vcpus'[|vcpus|];
      var sp := Wrap64(memSize - 0x100);
      && fresh(vc.state) && fresh(vc.state.gpr) && vc.state.Valid()
      && vc.state.Snap() ==
         if initial == null then
           Cpu(seq(16, _ => 0)[RSP := sp], entry, StatusFlags.Flags(false, false, false, false), false, false, 0, 0)
         else old(initial.Snap()).(rip := entry, gpr := old(initial.Snap()).gpr[RSP := sp])
  {
    var vc := new VirtualCpu(memSize, entry);
    if initial != null {
      var rsp := vc.state.gpr[RSP];
      vc.state.CopyFrom(initial);
      vc.state.rip := entry;
      vc.state.gpr[RSP] := rsp;
      assert vc.state.gpr[..] == old(initial.gpr[..])[RSP := rsp];
    }
    vcpus' := vcpus + [vc];
  }

  datatype RunResult = RunResult(halted: bool, exitCode: Int64, steps: Half)

  /** What a run reports about the vCPUs' final states. */
  function ResultOf(sts: seq<Guest>, maxSteps: Half): RunResult {
    RunResult(AllHalted(sts), LastExit(sts, |sts|), maxSteps)
  }

  /** The report: halted if every vCPU is, the exit value of the last vCPU that has
      halted, 0 if none has, and for the steps the budget. */
  lemma {:induction false} ResultIs(sts: seq<Guest>, maxSteps: Half)
    ensures
      var result := ResultOf(sts, maxSteps);
      && (result.halted <==> forall i :: 0 <= i < |sts| ==> sts[i].cpu.halt) && result.steps == maxSteps
      && ((forall i :: 0 <= i < |sts| ==> !sts[i].cpu.halt) ==> result.exitCode == 0)
      && forall i :: 0 <= i < |sts| && sts[i].cpu.halt && (forall j :: i < j < |sts| ==> !sts[j].cpu.halt) ==>
           result.exitCode == sts[i].cpu.ret
  {
    forall i | 0 <= i < |sts| && sts[i].cpu.halt && (forall j :: i < j < |sts| ==> !sts[j].cpu.halt)
      ensures LastExit(sts, |sts|) == sts[i].cpu.ret
    {
      LastHalted(sts, i, |sts|);
    }
    if forall i :: 0 <= i < |sts| ==> !sts[i].cpu.halt {
      NoneHalted(sts, |sts|);
    }
  }

  lemma {:induction false} LastHalted(sts: seq<Guest>, i: nat, n: nat)
    requires i < n <= |sts| && sts[i].cpu.halt && forall j :: i < j < |sts| ==> !sts[j].cpu.halt
    ensures LastExit(sts, n) == sts[i].cpu.ret
  {
    if i < n - 1 {
      LastHalted(sts, i, n - 1);
    }
  }

  lemma {:induction false} NoneHalted(sts: seq<Guest>, n: nat)
    requires n <= |sts| && forall i :: 0 <= i < |sts| ==> !sts[i].cpu.halt
    ensures LastExit(sts, n) == 0
  {
    if n > 0 {
      NoneHalted(sts, n - 1);
    }
  }

  /** The exit value of the last of the first n vCPUs that has halted. */
  function LastExit(sts: seq<Guest>, n: nat): Int64
    requires n <= |sts|
  {
    if n == 0 then 0
    else if sts[n - 1].cpu.halt then sts[n - 1].cpu.ret
    else LastExit(sts, n - 1)
  }

  lemma {:induction false} OnlyRam(dev: CudaExecutor, that: Emulator, slices: seq<array<Byte>>)
    requires dev.Valid()
    ensures that !in dev.Footprint()
    ensures forall i :: 0 <= i < |slices| && slices[i] in dev.Footprint() ==> slices[i] == dev.mem
  {
  }

  /** Two emulators with equal registers and equal vCPU memories. */
  ghost predicate SameEnd(e1: Emulator, e2: Emulator)
    requires e1.Valid() && e2.Valid()
    reads *
  {
    && |e1.vcpus| == |e2.vcpus| == |e1.vcpuMem| == |e2.vcpuMem|
    && (forall i :: 0 <= i < |e1.vcpus| ==> e1.Cpus()[i].Snap() == e2.Cpus()[i].Snap())
    && (forall i :: 0 <= i < |e1.vcpus| ==> e1.vcpuMem[i][..] == e2.vcpuMem[i][..])
  }

  lemma {:induction false} AlikeEnd(e1: Emulator, e2: Emulator, sts: seq<Guest>)
    requires e1.Valid() && e2.Valid()
    requires CpusAre(e1.Cpus(), sts) && CpusAre(e2.Cpus(), sts) && MemsAre(e1.vcpuMem, sts) && MemsAre(e2.vcpuMem, sts)
    ensures SameEnd(e1, e2)
  {
    hide CpuState.Snap, Objects;
  }

  /** The two backends agree: two emulators with the same guest, one run on the
      host and one on a device, end with equal registers, equal vCPU memories and
      equal results. */
  method RunBoth(host: Emulator, other: Emulator, dev: CudaExecutor, maxSteps: Half, ghost starts: seq<Guest>)
      returns (onHost: RunResult, onDevice: RunResult)
    requires host.Valid() && other.Valid() && other.Fits(dev)
    requires host.Starting(starts) && other.Starting(starts) && host.code == other.code && |host.code| > 0
    requires host.Footprint() !! other.Footprint() && host.Footprint() !! dev.Footprint() && host != other
    requires host.mem !in other.Footprint() && other.mem !in host.Footprint() && host.mem != other.mem
    requires host.mem !in dev.Footprint() && Ends(host.code, starts, maxSteps)
    modifies host`vcpuMem, other`vcpuMem, host.Footprint(), other.Footprint(), other.mem, dev.Footprint()
    ensures onHost == onDevice && SameEnd(host, other)
  {
    hide Turn, RoundCount, Finals, CpuState.Snap, Objects, MemsAre, SameEnd, Ends, EndState;
    ghost var sts := EndState(host.code, starts, maxSteps);
    host.InFootprint();
    other.InFootprint();
    onHost := host.Run(null, maxSteps, starts);
    other.FilesOnly(host, host.vcpuMem);
    OnlyRam(dev, host, host.vcpuMem);
    onDevice := other.Run(dev, maxSteps, starts);
    AlikeEnd(host, other, sts);
  }

  /** Guest RAM after the device has been used: the last vCPU's memory, once a
      launch has been collected. */
  function LastMem(sts: seq<Guest>, rounds: nat, before: seq<Byte>): seq<Byte> {
    if rounds > 0 && |sts| > 0 then sts[|sts| - 1].mem else before
  }
}
