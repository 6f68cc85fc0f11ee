/** The device: vCPU states, program counters and one buffer of memory slices.
 *
 * `CudaExecutor` keeps the state of thread i at place i and its memory at
 * [i * memSize, (i + 1) * memSize) of one buffer.
 */
module Device {
  import opened Words
  import opened Memory
  import opened Machine
  import opened Ir
  import opened IrInterpreter
  import opened Vcpu
  import opened Schedule

  /** What one thread does in a launch of n steps; a trap is left pending for the
      host. */
  function Launched(code: Code, st: Guest, n: nat): Guest {
    if st.cpu.halt then st
    else
      ExecFrame(code, st, n);
      Exec(code, st, n).st
  }

  /** What the host makes of a downloaded vCPU. */
  function Collected(st: Guest): Guest {
    if st.cpu.pending then st.(cpu := Handle(st.cpu, |st.mem|)) else st
  }

  /** Launching and then serving the trap is one turn. */
  lemma {:induction false} LaunchThenCollect(code: Code, st: Guest, n: nat)
    requires !st.cpu.pending
    ensures Collected(Launched(code, st, n)) == Turn(code, st, n)
    ensures |Launched(code, st, n).mem| == |st.mem|
  {
    hide Exec, Handle;
    ExecFrame(code, st, n);
  }

  /** Slices of different threads do not overlap. */
  lemma {:induction false} SlicesApart(i: nat, j: nat, size: nat)
    requires i < j
    ensures i * size + size <= j * size
  {
    var d := j - i;
    assert (i + d) * size == i * size + d * size;
    assert d * size == (d - 1) * size + size;
    assert (d - 1) * size >= 0;
  }

  lemma {:induction false} SliceFits(i: nat, n: nat, size: nat)
    requires i < n
    ensures i * size + size <= n * size
  {
    SlicesApart(i, n, size);
  }

  /** The thread numbers of a launch. */
  function Ids(n: nat): (ids: set<nat>)
    ensures forall i: nat :: i in ids <==> i < n
  {
    if n == 0 then {} else Ids(n - 1) + {n - 1}
  }

  /** Copy a whole host buffer into a slice of device memory. */
  method CopyIn(mem: array<Byte>, lo: nat, host: array<Byte>)
    requires lo + host.Length <= mem.Length && mem != host
    modifies mem
    ensures mem[lo..lo + host.Length] == host[..]
    ensures OutsideUnchanged(mem, lo, host.Length)
  {
    forall a | 0 <= a < host.Length {
      mem[lo + a] := host[a];
    }
  }

  /** Copy a slice of device memory into a host buffer. */
  method CopyOut(mem: array<Byte>, lo: nat, host: array<Byte>)
    requires lo + host.Length <= mem.Length && mem != host
    modifies host
    ensures host[..] == mem[lo..lo + host.Length]
  {
    forall a | 0 <= a < host.Length {
      host[a] := mem[lo + a];
    }
  }

  class CudaExecutor {
    const cpus: seq<CpuState>
    const mem: array<Byte>
    const pcs: array<Word>
    const memSize: nat
    const code: Code

    ghost predicate Valid() {
      && Separate(cpus)
      && memSize < 0x1_0000_0000_0000_0000
      && mem.Length == |cpus| * memSize
      && pcs.Length == |cpus|
      && forall i :: 0 <= i < |cpus| ==> cpus[i].gpr != pcs
    }

    ghost function Footprint(): set<object> {
      Objects(cpus) + {mem as object, pcs as object}
    }

    ghost function Lo(i: nat): (lo: nat)
      requires Valid() && i < |cpus|
      ensures lo == i * memSize && lo + memSize <= mem.Length
    {
      SliceFits(i, |cpus|, memSize);
      i * memSize
    }

    /** The vCPU of thread i. */
    ghost function Thread(i: nat): Guest
      requires Valid() && i < |cpus|
      reads cpus[i], cpus[i].gpr, mem, pcs
    {
      Config(cpus[i], mem, Lo(i), memSize, pcs[i])
    }

    ghost predicate Holds(sts: seq<Guest>)
      requires Valid()
      reads Footprint()
    {
      |sts| == |cpus| && forall i :: 0 <= i < |cpus| ==> Thread(i) == sts[i]
    }

    lemma {:induction false} Apart(i: nat, j: nat)
      requires Valid() && i < |cpus| && j < |cpus| && i != j
      ensures Lo(i) + memSize <= Lo(j) || Lo(j) + memSize <= Lo(i)
    {
      if i < j {
        SlicesApart(i, j, memSize);
      } else {
        SlicesApart(j, i, memSize);
      }
    }

    /** Threads other than i keep their state. */
    twostate predicate OthersKept(i: nat)
      requires Valid()
      reads *
    {
      forall j :: 0 <= j < |cpus| && j != i ==> Thread(j) == old(Thread(j))
    }

    twostate lemma {:induction false} SliceWrite(i: nat)
      requires Valid() && i < |cpus|
      requires OutsideUnchanged(mem, Lo(i), memSize)
      requires forall j :: 0 <= j < |cpus| && j != i ==> cpus[j].Snap() == old(cpus[j].Snap()) && pcs[j] == old(pcs[j])
      ensures OthersKept(i)
    {
      forall j | 0 <= j < |cpus| && j != i ensures Thread(j) == old(Thread(j)) {
        Apart(i, j);
        assert mem[Lo(j)..Lo(j) + memSize] == old(mem[Lo(j)..Lo(j) + memSize]);
      }
    }

    /** `vcpu_run_kernel` for one thread. */
    method Kernel(id: nat, steps: nat)
      requires Valid() && id < |cpus|
      modifies cpus[id], cpus[id].gpr, mem, pcs
      ensures Thread(id) == Launched(code, old(Thread(id)), steps)
      ensures OthersKept(id)
    {
      hide Exec;
      if cpus[id].halt {
        return;
      }
      SliceFits(id, |cpus|, memSize);
      ExecFrame(code, Thread(id), steps);
      var status, pc := ExecIr(cpus[id], mem, id * memSize, memSize, code, pcs[id], steps);
      pcs[id] := pc;
      SliceWrite(id);
    }

    /** `run`: the threads take their slice in no particular order. */
    method Launch(steps: nat, ghost sts: seq<Guest>)
      requires Valid() && Holds(sts)
      modifies Footprint()
      ensures forall i :: 0 <= i < |cpus| ==> Thread(i) == Launched(code, sts[i], steps)
    {
      hide Launched, Thread;
      var todo := Ids(|cpus|);
      while todo != {}
        invariant forall i :: i in todo ==> i < |cpus|
        invariant forall i :: 0 <= i < |cpus| ==>
                    Thread(i) == if i in todo then sts[i] else Launched(code, sts[i], steps)
        decreases todo
      {
        var id :| id in todo;
        Kernel(id, steps);
        todo := todo - {id};
      }
    }

    method Upload(idx: nat, cpu: CpuState, host: array<Byte>)
      requires Valid() && idx < |cpus|
      requires cpu.Valid() && cpu.gpr != cpus[idx].gpr && host != mem && host.Length == memSize
      modifies cpus[idx], cpus[idx].gpr, mem
      ensures Thread(idx) == State(old(cpu.Snap()), old(host[..]), old(pcs[idx]))
      ensures OthersKept(idx)
    {
      SliceFits(idx, |cpus|, memSize);
      cpus[idx].CopyFrom(cpu);
      CopyIn(mem, idx * memSize, host);
      SliceWrite(idx);
    }

    method SetPc(idx: nat, pc: Word)
      requires Valid() && idx < |cpus|
      modifies pcs
      ensures Thread(idx) == old(Thread(idx)).(pc := pc)
      ensures OthersKept(idx)
    {
      pcs[idx] := pc;
    }

    method Download(idx: nat, cpu: CpuState, host: array<Byte>)
      requires Valid() && idx < |cpus|
      requires cpu.Valid() && cpu.gpr != cpus[idx].gpr && host != mem && host.Length == memSize
      modifies cpu, cpu.gpr, host
      ensures cpu.Snap() == old(Thread(idx)).cpu && host[..] == old(Thread(idx)).mem
    {
      SliceFits(idx, |cpus|, memSize);
      cpu.CopyFrom(cpus[idx]);
      CopyOut(mem, idx * memSize, host);
    }
  }
}
