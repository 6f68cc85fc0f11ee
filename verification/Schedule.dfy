/** Running many vCPUs: every schedule gives every vCPU the same result.
 *
 * A turn is what one vCPU does when it is scheduled: nothing if it has halted,
 * otherwise up to n IR instructions, ending early at a halt or at a system
 * call, which is served at once.
 */
module Schedule {
  import opened Words
  import opened StatusFlags
  import opened Machine
  import opened Ir
  import opened Vcpu

  /** A vCPU whose memory size is a machine word. */
  type Guest = st: State | |st.mem| < 0x1_0000_0000_0000_0000
    witness State(Cpu([0, 0, 0, 0, 0, 0, 0, 0, 0, 0, 0, 0, 0, 0, 0, 0], 0, RESET, false, false, 0, 0), [], 0)

  function Served(o: Outcome): Guest
    requires |o.st.mem| < 0x1_0000_0000_0000_0000
  {
    if o.status.Trapped? then o.st.(cpu := Handle(o.st.cpu, |o.st.mem|)) else o.st
  }

  function Turn(code: Code, st: Guest, n: nat): Guest {
    if st.cpu.halt then st
    else
      ExecFrame(code, st, n);
      Served(Exec(code, st, n))
  }

  /** k turns of one IR instruction: the vCPU running alone. */
  function Alone(code: Code, st: Guest, k: nat): Guest
    decreases k
  {
    if k == 0 then st else Alone(code, Turn(code, st, 1), k - 1)
  }

  lemma {:induction false} ExecFrame(code: Code, st: State, n: nat)
    ensures
      var o := Exec(code, st, n);
      && |o.st.mem| == |st.mem|
      && (o.st.cpu.halt <==> st.cpu.halt || o.status.Halted?)
      && (o.st.cpu.pending <==> st.cpu.pending || o.status.Trapped?)
      && o.st.cpu.rip == st.cpu.rip
    decreases n
  {
    hide IrStep;
    if n > 0 {
      StepFrame(code, st);
      var o := IrStep(code, st);
      if o.status.Running? {
        ExecFrame(code, o.st, n - 1);
      }
    }
  }

  lemma {:induction false} ServedFrame(code: Code, st: Guest, n: nat)
    requires !st.cpu.pending
    ensures !Turn(code, st, n).cpu.pending
    ensures |Turn(code, st, n).mem| == |st.mem| && Turn(code, st, n).cpu.rip == st.cpu.rip
  {
    hide Exec;
    ExecFrame(code, st, n);
  }

  lemma {:induction false} AloneAdd(code: Code, st: Guest, j: nat, k: nat)
    ensures Alone(code, st, j + k) == Alone(code, Alone(code, st, j), k)
    decreases j
  {
    hide Turn;
    if j > 0 {
      AloneAdd(code, Turn(code, st, 1), j - 1, k);
    }
  }

  lemma {:induction false} HaltedStays(code: Code, st: Guest, k: nat)
    requires st.cpu.halt
    ensures Alone(code, st, k) == st && Stops(code, st, k) == 0
    decreases k
  {
    if k > 0 {
      HaltedStays(code, st, k - 1);
    }
  }

  /** A turn of one instruction is one step, its trap served. */
  lemma {:induction false} OneTurn(code: Code, st: Guest)
    requires !st.cpu.halt
    ensures |IrStep(code, st).st.mem| == |st.mem| && Turn(code, st, 1) == Served(IrStep(code, st))
  {
    hide IrStep;
    var o := IrStep(code, st);
    StepFrame(code, st);
    assert Exec(code, st, 1) == (if o.status.Running? then Exec(code, o.st, 0) else o);
  }

  /** The next instruction halts or traps. */
  predicate StopsNow(code: Code, st: Guest) {
    !st.cpu.halt && !IrStep(code, st).status.Running?
  }

  /** How many of the first j single instructions halt or trap. */
  function Stops(code: Code, st: Guest, j: nat): nat
    decreases j
  {
    if j == 0 then 0 else (if StopsNow(code, st) then 1 else 0) + Stops(code, Turn(code, st, 1), j - 1)
  }

  lemma {:induction false} StopsAdd(code: Code, st: Guest, j: nat, k: nat)
    ensures Stops(code, st, j + k) == Stops(code, st, j) + Stops(code, Alone(code, st, j), k)
    decreases j
  {
    hide Turn, StopsNow;
    if j > 0 {
      StopsAdd(code, Turn(code, st, 1), j - 1, k);
    }
  }

  /** A turn of n instructions is some number of single-instruction turns: all n,
      unless one of them halts or traps. */
  lemma {:induction false} TurnIsAlone(code: Code, st: Guest, n: nat) returns (k: nat)
    ensures k <= n && Turn(code, st, n) == Alone(code, st, k)
    ensures st.cpu.halt || k == n || Stops(code, st, k) >= 1
    decreases n
  {
    hide IrStep;
    if st.cpu.halt || n == 0 {
      return 0;
    }
    var o := IrStep(code, st);
    StepFrame(code, st);
    OneTurn(code, st);
    if o.status.Running? {
      k := TurnIsAlone(code, o.st, n - 1);
      k := k + 1;
      assert Exec(code, st, n) == Exec(code, o.st, n - 1);
      assert Stops(code, st, k) == Stops(code, o.st, k - 1);
    } else {
      k := 1;
      assert Alone(code, st, 1) == Alone(code, Turn(code, st, 1), 0);
      assert Stops(code, st, 1) == 1 + Stops(code, Turn(code, st, 1), 0);
    }
  }

  // ---------------------------------------------------------------- system calls

  /** What a guest is answered: number nr, arguments a, b and c. */
  predicate Answer(nr: int, a: int, b: Word, c: Word, size: Word, ret: int) {
    && (nr == 0 ==> ret == if a == 0 then 0 else -38)
    && (nr == 1 && a != 1 && a != 2 ==> ret == -38)
    && (nr == 1 && (a == 1 || a == 2) ==>
          ret == if b == 0 || (b + c) % 0x1_0000_0000_0000_0000 > size then -14
                 else if c < 0x8000_0000_0000_0000 then c else c - 0x1_0000_0000_0000_0000)
    && (nr == 12 ==> ret == if a != 0 then a else size / 2)
    && (nr == 60 || nr == 231 ==> ret == a)
    && (nr != 0 && nr != 1 && nr != 12 && nr != 60 && nr != 231 ==> ret == -38)
  }

  /** A SYSCALL: read gives end of file on standard input, write the length, -14 for
      a range that is refused (a buffer at address 0 too) and -38 for another file,
      brk its argument or half of RAM, 60 and 231 halt with their argument, and
      anything else gives -38.  The answer is in rax and recorded; no other register
      and no byte of memory changes. */
  lemma {:induction false} SyscallTurn(code: Code, st: Guest)
    requires !st.cpu.halt && st.pc < |code| && code[st.pc].op == OpSyscall
    ensures
      var st', c := Turn(code, st, 1), st.cpu;
      var nr, ret := Signed(c.gpr[0], 8), st'.cpu.ret;
      && Answer(nr, Signed(c.gpr[7], 8), c.gpr[6], c.gpr[2], |st.mem|, ret)
      && st' == State(c.(gpr := c.gpr[0 := ret % 0x1_0000_0000_0000_0000], num := nr, ret := ret,
                         halt := nr == 60 || nr == 231, pending := false), st.mem, st.pc + 1)
  {
    OneTurn(code, st);
  }

  /** A HLT, and running off the end of the code: the vCPU halts with its registers
      and its memory as they are, and no later turn changes it. */
  lemma {:induction false} HaltTurn(code: Code, st: Guest, n: nat)
    requires !st.cpu.halt && (st.pc >= |code| || code[st.pc].op == OpHlt) && n > 0
    ensures
      var st' := Turn(code, st, n);
      && st' == State(st.cpu.(halt := true), st.mem, if st.pc >= |code| then st.pc else st.pc + 1)
      && Turn(code, st', n) == st'
  {
  }

  // ---------------------------------------------------------------- schedules

  /** One scheduling decision: which vCPU runs, and for how many instructions. */
  datatype Decision = Decision(id: nat, steps: nat)

  function Run(code: Code, sts: seq<Guest>, schedule: seq<Decision>): (r: seq<Guest>)
    ensures |r| == |sts|
    decreases |schedule|
  {
    if schedule == [] then sts
    else
      var d := schedule[0];
      var sts' := if d.id < |sts| then sts[d.id := Turn(code, sts[d.id], d.steps)] else sts;
      Run(code, sts', schedule[1..])
  }

  /** Under any schedule, vCPU i is where it gets alone after some number of steps. */
  lemma {:induction false} RunIsAlone(code: Code, sts: seq<Guest>, schedule: seq<Decision>, i: nat) returns (k: nat)
    requires i < |sts|
    ensures Run(code, sts, schedule)[i] == Alone(code, sts[i], k)
    decreases |schedule|
  {
    hide Turn;
    if schedule == [] {
      return 0;
    }
    var d := schedule[0];
    var sts' := if d.id < |sts| then sts[d.id := Turn(code, sts[d.id], d.steps)] else sts;
    k := RunIsAlone(code, sts', schedule[1..], i);
    if d.id == i {
      var j := TurnIsAlone(code, sts[i], d.steps);
      AloneAdd(code, sts[i], j, k);
      k := j + k;
    }
  }

  /** If a vCPU halts both under a schedule and alone, it halts in the same state. */
  lemma {:induction false} SameAsAlone(code: Code, sts: seq<Guest>, schedule: seq<Decision>, i: nat, k: nat)
    requires i < |sts|
    requires Run(code, sts, schedule)[i].cpu.halt && Alone(code, sts[i], k).cpu.halt
    ensures Run(code, sts, schedule)[i] == Alone(code, sts[i], k)
  {
    hide Turn, Run;
    var j := RunIsAlone(code, sts, schedule, i);
    HaltedAlike(code, sts[i], j, k);
  }

  /** Schedule independence: two interleavings under which every vCPU halts end
      with the same registers and the same memories. */
  lemma {:induction false} ScheduleIndependence(code: Code, sts: seq<Guest>, s1: seq<Decision>, s2: seq<Decision>)
    requires forall i :: 0 <= i < |sts| ==> Run(code, sts, s1)[i].cpu.halt
    requires forall i :: 0 <= i < |sts| ==> Run(code, sts, s2)[i].cpu.halt
    ensures Run(code, sts, s1) == Run(code, sts, s2)
  {
    forall i | 0 <= i < |sts| ensures Run(code, sts, s1)[i] == Run(code, sts, s2)[i] {
      var k := RunIsAlone(code, sts, s2, i);
      SameAsAlone(code, sts, s1, i, k);
    }
  }

  /** A vCPU is not affected by the others: its state depends only on its own
      turns. */
  lemma {:induction false} Isolation(code: Code, sts: seq<Guest>, schedule: seq<Decision>, i: nat)
    requires i < |sts|
    ensures Run(code, sts, schedule)[i] == Run(code, [sts[i]], OwnTurns(schedule, i))[0]
    decreases |schedule|
  {
    hide Turn;
    if schedule != [] {
      var d := schedule[0];
      var sts' := if d.id < |sts| then sts[d.id := Turn(code, sts[d.id], d.steps)] else sts;
      Isolation(code, sts', schedule[1..], i);
      if d.id == i {
        var own := OwnTurns(schedule, i);
        assert own[1..] == OwnTurns(schedule[1..], i);
        assert [sts[i]][0 := Turn(code, sts[i], d.steps)] == [sts'[i]];
      }
    }
  }

  /** The decisions concerning vCPU i, for a machine that has only that vCPU. */
  function OwnTurns(schedule: seq<Decision>, i: nat): seq<Decision>
    decreases |schedule|
  {
    if schedule == [] then []
    else
      var rest := OwnTurns(schedule[1..], i);
      if schedule[0].id == i then [Decision(0, schedule[0].steps)] + rest else rest
  }

  // ---------------------------------------------------------------- rounds

  const CHUNK: nat := 4096

  /** k turns of a whole chunk. */
  function Rounds(code: Code, st: Guest, k: nat): Guest
    decreases k
  {
    if k == 0 then st else Turn(code, Rounds(code, st, k - 1), CHUNK)
  }

  /** k rounds are some number of single instructions. */
  lemma {:induction false} RoundsAreAlone(code: Code, st: Guest, k: nat) returns (j: nat)
    ensures Rounds(code, st, k) == Alone(code, st, j)
    decreases k
  {
    hide Turn;
    if k == 0 {
      return 0;
    }
    j := RoundsAreAlone(code, st, k - 1);
    var i := TurnIsAlone(code, Rounds(code, st, k - 1), CHUNK);
    AloneAdd(code, st, j, i);
    j := j + i;
  }

  /** After r rounds a vCPU has halted, or it has used up r chunks: a round makes a
      whole chunk of steps, except where a step halts or traps. */
  lemma {:induction false} RoundsProgress(code: Code, st: Guest, r: nat) returns (j: nat)
    ensures Rounds(code, st, r) == Alone(code, st, j)
    ensures Rounds(code, st, r).cpu.halt || j + CHUNK * Stops(code, st, j) >= CHUNK * r
    decreases r
  {
    hide Turn, Stops;
    if r == 0 {
      return 0;
    }
    j := RoundsProgress(code, st, r - 1);
    var before := Rounds(code, st, r - 1);
    var i := TurnIsAlone(code, before, CHUNK);
    if before.cpu.halt {
      HaltedStays(code, before, i);
    }
    AloneAdd(code, st, j, i);
    StopsAdd(code, st, j, i);
    j := j + i;
  }

  /** Enough rounds for k steps with s stops: one chunk for every started 4096
      steps, and one for every stop. */
  predicate Suffices(rounds: nat, k: nat, s: nat) {
    CHUNK * rounds >= k + CHUNK * s
  }

  /** A vCPU that halts alone within k steps, s of which halt or trap, halts within
      ceil(k / 4096) + s rounds, in the same state. */
  lemma {:induction false} EnoughRounds(code: Code, st: Guest, k: nat, rounds: nat)
    requires Alone(code, st, k).cpu.halt && Suffices(rounds, k, Stops(code, st, k))
    ensures Rounds(code, st, rounds) == Alone(code, st, k)
  {
    hide Turn, Stops;
    var j := RoundsProgress(code, st, rounds);
    if j >= k {
      AloneAdd(code, st, k, j - k);
      HaltedStays(code, Alone(code, st, k), j - k);
    } else {
      StopsAdd(code, st, j, k - j);
      HaltedAlike(code, st, j, k);
    }
  }

  /** The least number of rounds that suffices. */
  lemma {:induction false} SufficesFrom(rounds: nat, k: nat, s: nat)
    ensures Suffices(rounds, k, s) <==> rounds >= (k + CHUNK - 1) / CHUNK + s
  {
  }

  /** Two numbers of steps that both halt give the same state. */
  lemma {:induction false} HaltedAlike(code: Code, st: Guest, j: nat, k: nat)
    requires Alone(code, st, j).cpu.halt && Alone(code, st, k).cpu.halt
    ensures Alone(code, st, j) == Alone(code, st, k)
  {
    if j <= k {
      AloneAdd(code, st, j, k - j);
      HaltedStays(code, Alone(code, st, j), k - j);
    } else {
      AloneAdd(code, st, k, j - k);
      HaltedStays(code, Alone(code, st, k), j - k);
    }
  }

  /** Once halted, further rounds change nothing. */
  lemma {:induction false} RoundsAfterHalt(code: Code, st: Guest, k: nat, more: nat)
    requires Rounds(code, st, k).cpu.halt
    ensures Rounds(code, st, k + more) == Rounds(code, st, k)
    decreases more
  {
    hide Exec;
    if more > 0 {
      RoundsAfterHalt(code, st, k, more - 1);
    }
  }

  /** No system call is pending at a round boundary. */
  lemma {:induction false} RoundsFrame(code: Code, st: Guest, k: nat)
    requires !st.cpu.pending
    ensures !Rounds(code, st, k).cpu.pending
    ensures |Rounds(code, st, k).mem| == |st.mem| && Rounds(code, st, k).cpu.rip == st.cpu.rip
    decreases k
  {
    hide Turn;
    if k > 0 {
      RoundsFrame(code, st, k - 1);
      ServedFrame(code, Rounds(code, st, k - 1), CHUNK);
    }
  }

  /** The number of rounds after which the step counter reaches the maximum. */
  function RoundCount(maxSteps: nat): (r: nat)
    ensures (r - 1) * CHUNK < maxSteps <= r * CHUNK || maxSteps == r == 0
  {
    (maxSteps + CHUNK - 1) / CHUNK
  }

  /** The 32-bit step counter after k rounds. */
  function Counter(k: nat): Half {
    Wrap32(k * CHUNK)
  }

  lemma {:induction false} CounterValue(k: nat)
    ensures Counter(k) == 4096 * (k % 0x10_0000)
  {
    ModUnique(k * 4096, 0x1_0000_0000, k / 0x10_0000, 4096 * (k % 0x10_0000));
  }

  lemma {:induction false} CounterNext(k: nat)
    ensures Wrap32(Counter(k) + CHUNK) == Counter(k + 1)
  {
    var q, c := k * 4096 / 0x1_0000_0000, Counter(k);
    assert k * 4096 == 0x1_0000_0000 * q + c;
    if c + 4096 < 0x1_0000_0000 {
      ModUnique((k + 1) * 4096, 0x1_0000_0000, q, c + 4096);
    } else {
      ModUnique((k + 1) * 4096, 0x1_0000_0000, q + 1, c + 4096 - 0x1_0000_0000);
    }
  }

  /** The largest budget that leaves room for one more chunk below 2^32. */
  const LARGEST: Half := 0xFFFF_F000

  /** Up to that budget the counter counts. */
  lemma {:induction false} CounterCounts(k: nat, maxSteps: Half)
    requires maxSteps <= LARGEST && k <= RoundCount(maxSteps)
    ensures Counter(k) < maxSteps <==> k < RoundCount(maxSteps)
  {
  }

  /** The counter reaches the step budget, whatever the guests do, exactly when
      the budget leaves room for one more chunk below 2^32. */
  lemma {:induction false} BudgetReached(maxSteps: Half)
    ensures (exists k: nat :: Counter(k) >= maxSteps) <==> maxSteps <= LARGEST
  {
    hide Counter;
    if maxSteps <= LARGEST {
      CounterValue(0xF_FFFF);
      assert Counter(0xF_FFFF) >= maxSteps;
    } else {
      forall k: nat ensures Counter(k) < maxSteps {
        CounterValue(k);
      }
    }
  }
}
