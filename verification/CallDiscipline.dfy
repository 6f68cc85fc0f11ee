/** Nested calls on the IR machine.
 *
 * A trace is the shape of a run: calls and returns, pushes and pops, and frames
 * set up by push-rbp/mov-rbp-rsp and undone by leave, nested in each other to
 * any depth.  A run of such a shape that writes over no protected slot comes
 * back to where it was called from, with the stack pointer it had.
 */
module CallDiscipline {
  import opened Words
  import opened Memory
  import opened Machine
  import opened Ir
  import opened Vcpu
  import opened Schedule
  import opened Simulation

  datatype Trace =
    | Empty
    | Quiet(rest: Trace)                  // the stack pointer stays
    | Lower(rest: Trace)                  // the stack pointer may move down
    | Pushed(body: Trace, rest: Trace)    // push, body, pop
    | Called(body: Trace, rest: Trace)    // call, body, ret
    | Framed(body: Trace, rest: Trace)    // push rbp, mov rbp rsp, body, leave

  /** One instruction of the running vCPU, its system call served. */
  function Step(code: Code, st: Guest): Guest {
    Turn(code, st, 1)
  }

  /** The state at the end of a trace. */
  function End(code: Code, st: Guest, t: Trace): Guest
    decreases t
  {
    match t
    case Empty => st
    case Quiet(rest) => End(code, Step(code, st), rest)
    case Lower(rest) => End(code, Step(code, st), rest)
    case Pushed(body, rest) => End(code, Step(code, End(code, Step(code, st), body)), rest)
    case Called(body, rest) => End(code, Step(code, End(code, Step(code, st), body)), rest)
    case Framed(body, rest) => End(code, Step(code, End(code, Step(code, Step(code, st)), body)), rest)
  }

  function Length(t: Trace): nat {
    match t
    case Empty => 0
    case Quiet(rest) => 1 + Length(rest)
    case Lower(rest) => 1 + Length(rest)
    case Pushed(body, rest) => 2 + Length(body) + Length(rest)
    case Called(body, rest) => 2 + Length(body) + Length(rest)
    case Framed(body, rest) => 3 + Length(body) + Length(rest)
  }

  /** Outside frames, everything pushed is popped again. */
  predicate Balanced(t: Trace) {
    match t
    case Empty => true
    case Quiet(rest) => Balanced(rest)
    case Lower(_) => false
    case Pushed(_, rest) => Balanced(rest)
    case Called(_, rest) => Balanced(rest)
    case Framed(_, rest) => Balanced(rest)
  }

  // ---------------------------------------------------------------- following a trace

  function Sp(st: Guest): Word { st.cpu.gpr[RSP] }

  /** The slot below the stack pointer. */
  function Below(st: Guest): Word { Offset(Sp(st), -8) }

  /** The vCPU is running and its next instruction has this opcode. */
  predicate At(code: Code, st: Guest, op: Opcode) {
    !st.cpu.halt && st.pc < |code| && code[st.pc].op == op
  }

  predicate Room(st: Guest) {
    InRange(|st.mem|, Below(st), 8)
  }

  /** Any other instruction: it does not halt, stores into no protected slot, and
      does not raise the stack pointer. */
  ghost predicate Ordinary(code: Code, st: Guest, prot: set<Word>) {
    && !st.cpu.halt && st.pc < |code|
    && code[st.pc].op !in {OpPush, OpPop, OpCall, OpRet, OpLeave}
    && !Step(code, st).cpu.halt
    && var e := IrEffect(code[st.pc], st.cpu, Loaded(st.mem, IrLoad(code[st.pc], st.cpu)), st.pc + 1);
       (e.store.Store? ==> Clear(prot, e.store.addr, e.store.w)) && e.gpr[RSP] <= Sp(st)
  }

  predicate IsFrameStart(code: Code, st: Guest) {
    At(code, st, OpPush) && code[st.pc].src == RBP
  }

  predicate IsFrameMove(code: Code, st: Guest) {
    At(code, st, OpMovReg) && code[st.pc].dst == RBP && code[st.pc].src == RSP && code[st.pc].width == 8 &&
    code[st.pc].aux != 5
  }

  /** The run from st has the shape t and writes over no slot in prot, nor over the
      return slots and saved frame pointers of the calls and frames inside it. */
  ghost predicate Follows(code: Code, st: Guest, t: Trace, prot: set<Word>)
    decreases t
  {
    match t
    case Empty => true
    case Quiet(rest) =>
      Ordinary(code, st, prot) && Sp(Step(code, st)) == Sp(st) && Follows(code, Step(code, st), rest, prot)
    case Lower(rest) =>
      Ordinary(code, st, prot) && Follows(code, Step(code, st), rest, prot)
    case Pushed(body, rest) =>
      var s1 := Step(code, st);
      var s2 := End(code, s1, body);
      && At(code, st, OpPush) && Room(st)
      && Follows(code, s1, body, prot) && Balanced(body)
      && At(code, s2, OpPop) && code[s2.pc].dst != RSP
      && Follows(code, Step(code, s2), rest, prot)
    case Called(body, rest) =>
      var s1 := Step(code, st);
      var s2 := End(code, s1, body);
      && At(code, st, OpCall) && Room(st)
      && Follows(code, s1, body, prot + {Below(st)}) && Balanced(body)
      && At(code, s2, OpRet)
      && Follows(code, Step(code, s2), rest, prot)
    case Framed(body, rest) =>
      var s1 := Step(code, st);
      var s2 := Step(code, s1);
      var s3 := End(code, s2, body);
      && IsFrameStart(code, st) && Room(st) && IsFrameMove(code, s1)
      && Follows(code, s2, body, prot + {Below(st)})
      && At(code, s3, OpLeave) && s3.cpu.gpr[RBP] == s2.cpu.gpr[RBP]
      && Follows(code, Step(code, s3), rest, prot)
  }

  // ---------------------------------------------------------------- single instructions

  /** Memory m2 still has the contents of the protected slots of m1. */
  ghost predicate Kept(prot: set<Word>, m1: seq<Byte>, m2: seq<Byte>) {
    |m1| == |m2| && forall a :: a in prot ==> LoadMem(m2, a, 8) == LoadMem(m1, a, 8)
  }

  /** The slots are at or above the stack pointer. */
  ghost predicate Above(prot: set<Word>, st: Guest) {
    forall a :: a in prot ==> Sp(st) <= a
  }

  /** A step that neither halts nor traps is the effect of its instruction. */
  lemma {:induction false} StepIs(code: Code, st: Guest)
    requires !st.cpu.halt && st.pc < |code|
    ensures
      var e := IrEffect(code[st.pc], st.cpu, Loaded(st.mem, IrLoad(code[st.pc], st.cpu)), st.pc + 1);
      var s := Step(code, st);
      && s.mem == Stored(st.mem, e.store)
      && (e.control.Next? || e.control.Goto? ==>
            && s.cpu == st.cpu.(gpr := e.gpr, flags := e.flags)
            && s.pc == (if e.control.Goto? then e.control.target else st.pc + 1)
            && !StopsNow(code, st))
      && s.cpu.gpr[RSP] == e.gpr[RSP]
  {
    hide IrEffect, IrLoad, SyscallResult, Wrap64;
    OneTurn(code, st);
  }

  /** The slot fits below the stack pointer without wrapping. */
  lemma {:induction false} RoomBelow(st: Guest)
    requires Room(st)
    ensures Below(st) + 8 == Sp(st) && Offset(Below(st), 8) == Sp(st)
  {
  }

  /** Pushing onto the stack leaves the slots above alone. */
  lemma {:induction false} PushKeeps(st: Guest, val: Word, prot: set<Word>)
    requires Room(st) && Above(prot, st)
    ensures Kept(prot, st.mem, StoreMem(st.mem, Below(st), val, 8))
    ensures LoadMem(StoreMem(st.mem, Below(st), val, 8), Below(st), 8) == val
  {
    hide LoadMem, StoreMem;
    RoomBelow(st);
    forall a | a in prot ensures LoadMem(StoreMem(st.mem, Below(st), val, 8), a, 8) == LoadMem(st.mem, a, 8) {
      StoreElsewhere(st.mem, Below(st), val, 8, a);
    }
    LoadAfterStore(st.mem, Below(st), val, 8);
    TruncSmall(val, 8);
  }

  lemma {:induction false} OrdinaryKeeps(code: Code, st: Guest, prot: set<Word>)
    requires Ordinary(code, st, prot)
    ensures Kept(prot, st.mem, Step(code, st).mem) && Sp(Step(code, st)) <= Sp(st)
  {
    hide LoadMem, StoreMem, IrEffect, IrLoad, Step;
    StepIs(code, st);
    var e := IrEffect(code[st.pc], st.cpu, Loaded(st.mem, IrLoad(code[st.pc], st.cpu)), st.pc + 1);
    if e.store.Store? {
      forall a | a in prot ensures LoadMem(Stored(st.mem, e.store), a, 8) == LoadMem(st.mem, a, 8) {
        StoreElsewhere(st.mem, e.store.addr, e.store.val, e.store.w, a);
      }
    }
  }

  lemma {:induction false} PushStep(code: Code, st: Guest, prot: set<Word>)
    requires At(code, st, OpPush) && Room(st) && Above(prot, st)
    ensures
      var s := Step(code, st);
      && Sp(s) == Below(st) && s.pc == st.pc + 1 && Kept(prot, st.mem, s.mem)
      && (forall r: Reg :: r != RSP ==> s.cpu.gpr[r] == st.cpu.gpr[r])
      && (code[st.pc].src != RSP ==> LoadMem(s.mem, Below(st), 8) == st.cpu.gpr[code[st.pc].src])
  {
    hide LoadMem, StoreMem, Step, Offset;
    StepIs(code, st);
    var gpr := st.cpu.gpr[RSP := Below(st)];
    PushKeeps(st, gpr[code[st.pc].src], prot);
  }

  lemma {:induction false} CallStepIs(code: Code, st: Guest, prot: set<Word>)
    requires At(code, st, OpCall) && Room(st) && Above(prot, st)
    ensures
      var s := Step(code, st);
      Sp(s) == Below(st) && Kept(prot, st.mem, s.mem) && LoadMem(s.mem, Below(st), 8) == st.pc + 1
  {
    hide LoadMem, StoreMem, Step, Offset, Wrap32;
    StepIs(code, st);
    PushKeeps(st, st.pc + 1, prot);
  }

  lemma {:induction false} PopStep(code: Code, st: Guest)
    requires At(code, st, OpPop) && code[st.pc].dst != RSP
    ensures var s := Step(code, st); Sp(s) == Offset(Sp(st), 8) && s.mem == st.mem && s.pc == st.pc + 1
  {
    hide LoadMem, Step, Offset;
    StepIs(code, st);
  }

  lemma {:induction false} RetStepIs(code: Code, st: Guest)
    requires At(code, st, OpRet)
    ensures var s := Step(code, st);
            Sp(s) == Offset(Sp(st), 8) && s.mem == st.mem && s.pc == Wrap32(LoadMem(st.mem, Sp(st), 8))
  {
    hide LoadMem, Step, Offset, Wrap32;
    StepIs(code, st);
  }

  lemma {:induction false} FrameMoveStep(code: Code, st: Guest)
    requires IsFrameMove(code, st)
    ensures var s := Step(code, st); Sp(s) == Sp(st) && s.mem == st.mem && s.cpu.gpr[RBP] == Sp(st) && s.pc == st.pc + 1
  {
    hide Step;
    StepIs(code, st);
  }

  lemma {:induction false} LeaveStep(code: Code, st: Guest)
    requires At(code, st, OpLeave)
    ensures
      var s, rbp := Step(code, st), st.cpu.gpr[RBP];
      Sp(s) == Offset(rbp, 8) && s.mem == st.mem && s.cpu.gpr[RBP] == LoadMem(st.mem, rbp, 8) && s.pc == st.pc + 1
  {
    hide LoadMem, Step, Offset;
    StepIs(code, st);
  }

  // ---------------------------------------------------------------- nesting

  /** What a run of a given shape keeps. */
  ghost predicate Nested(code: Code, st: Guest, t: Trace, prot: set<Word>) {
    var e := End(code, st, t);
    Kept(prot, st.mem, e.mem) && Sp(e) <= Sp(st) && (Balanced(t) ==> Sp(e) == Sp(st))
  }

  /** At any depth: a run that follows a trace keeps the protected slots, never
      ends above where it started, and if it is balanced ends exactly there. */
  lemma {:induction false} Nesting(code: Code, st: Guest, t: Trace, prot: set<Word>)
    requires Follows(code, st, t, prot) && Above(prot, st)
    ensures Nested(code, st, t, prot)
    decreases t, 0
  {
    hide Step, At, Ordinary, LoadMem, Offset, IsFrameStart, IsFrameMove;
    match t {
      case Empty =>
      case Quiet(rest) =>
        OrdinaryKeeps(code, st, prot);
        Nesting(code, Step(code, st), rest, prot);
      case Lower(rest) =>
        OrdinaryKeeps(code, st, prot);
        Nesting(code, Step(code, st), rest, prot);
      case Pushed(body, rest) =>
        PushReturns(code, st, body, prot);
        Nesting(code, Step(code, End(code, Step(code, st), body)), rest, prot);
      case Called(body, rest) =>
        CallReturns(code, st, body, prot);
        Nesting(code, Step(code, End(code, Step(code, st), body)), rest, prot);
      case Framed(body, rest) =>
        LeaveUndoes(code, st, body, prot);
        Nesting(code, Step(code, End(code, Step(code, Step(code, st)), body)), rest, prot);
    }
  }

  lemma {:induction false} PushReturns(code: Code, st: Guest, body: Trace, prot: set<Word>)
    requires At(code, st, OpPush) && Room(st) && Above(prot, st)
    requires Follows(code, Step(code, st), body, prot) && Balanced(body)
    requires var s := End(code, Step(code, st), body); At(code, s, OpPop) && code[s.pc].dst != RSP
    ensures var s := Step(code, End(code, Step(code, st), body)); Sp(s) == Sp(st) && Kept(prot, st.mem, s.mem)
    decreases body, 1
  {
    hide Step, At, LoadMem, Offset, Follows, End;
    RoomBelow(st);
    PushStep(code, st, prot);
    Nesting(code, Step(code, st), body, prot);
    PopStep(code, End(code, Step(code, st), body));
  }

  /** A call returns: from a Call at index i, a balanced body that keeps the return
      slot, at any depth of nesting, ends at its Ret with pc = i + 1 and the stack
      pointer it had. */
  lemma {:induction false} CallReturns(code: Code, st: Guest, body: Trace, prot: set<Word>)
    requires At(code, st, OpCall) && Room(st) && Above(prot, st)
    requires Follows(code, Step(code, st), body, prot + {Below(st)}) && Balanced(body)
    requires At(code, End(code, Step(code, st), body), OpRet)
    ensures
      var s := Step(code, End(code, Step(code, st), body));
      s.pc == st.pc + 1 && Sp(s) == Sp(st) && Kept(prot, st.mem, s.mem)
    decreases body, 1
  {
    ReturnIndex(code, st);
    hide Step, At, LoadMem, Offset, Follows, End, Kept, Room, Below, Wrap32;
    RoomBelow(st);
    CallStepIs(code, st, prot);
    var s1 := Step(code, st);
    var s2 := End(code, s1, body);
    StillAbove(st, s1, prot);
    Nesting(code, s1, body, prot + {Below(st)});
    KeptBoth(prot, Below(st), st.mem, s1.mem, s2.mem);
    RetStepIs(code, s2);
  }

  /** Leave undoes push-rbp/mov-rbp-rsp around any body that leaves RBP and the
      saved slot alone, whatever it does to the stack pointer. */
  lemma {:induction false} LeaveUndoes(code: Code, st: Guest, body: Trace, prot: set<Word>)
    requires IsFrameStart(code, st) && Room(st) && Above(prot, st) && IsFrameMove(code, Step(code, st))
    requires Follows(code, Step(code, Step(code, st)), body, prot + {Below(st)})
    requires var s2 := Step(code, Step(code, st));
             var s3 := End(code, s2, body);
             At(code, s3, OpLeave) && s3.cpu.gpr[RBP] == s2.cpu.gpr[RBP]
    ensures
      var s := Step(code, End(code, Step(code, Step(code, st)), body));
      Sp(s) == Sp(st) && s.cpu.gpr[RBP] == st.cpu.gpr[RBP] && Kept(prot, st.mem, s.mem)
    decreases body, 1
  {
    hide Step, At, LoadMem, Offset, Follows, End, IsFrameMove, Kept, Room, Below;
    FrameStart(code, st);
    RoomBelow(st);
    PushStep(code, st, prot);
    var s2 := Step(code, Step(code, st));
    FrameMoveStep(code, Step(code, st));
    StillAbove(st, s2, prot);
    Nesting(code, s2, body, prot + {Below(st)});
    var s3 := End(code, s2, body);
    KeptBoth(prot, Below(st), st.mem, s2.mem, s3.mem);
    LeaveStep(code, s3);
  }

  /** The next index fits the 32 bits a Ret takes from the stack. */
  lemma {:induction false} ReturnIndex(code: Code, st: Guest)
    requires At(code, st, OpCall)
    ensures Wrap32(st.pc + 1) == st.pc + 1
  {
  }

  lemma {:induction false} StillAbove(st: Guest, s1: Guest, prot: set<Word>)
    requires Room(st) && Above(prot, st) && Sp(s1) == Below(st)
    ensures Above(prot + {Below(st)}, s1)
  {
    RoomBelow(st);
    hide Below;
  }

  lemma {:induction false} KeptBoth(prot: set<Word>, slot: Word, m1: seq<Byte>, m2: seq<Byte>, m3: seq<Byte>)
    requires Kept(prot, m1, m2) && Kept(prot + {slot}, m2, m3)
    ensures Kept(prot, m1, m3) && LoadMem(m3, slot, 8) == LoadMem(m2, slot, 8)
  {
    hide LoadMem;
    assert slot in prot + {slot};
  }

  lemma {:induction false} FrameStart(code: Code, st: Guest)
    requires IsFrameStart(code, st)
    ensures At(code, st, OpPush) && code[st.pc].src == RBP
  {
  }

  /** The end of a trace is where the vCPU is after that many instructions. */
  lemma {:induction false} EndIsAlone(code: Code, st: Guest, t: Trace)
    ensures End(code, st, t) == Alone(code, st, Length(t))
    decreases Length(t), 0
  {
    hide Step, Alone;
    var s1 := Step(code, st);
    match t {
      case Empty =>
        NoSteps(code, st);
      case Quiet(rest) =>
        EndIsAlone(code, s1, rest);
        OneMore(code, st, Length(rest));
      case Lower(rest) =>
        EndIsAlone(code, s1, rest);
        OneMore(code, st, Length(rest));
      case Pushed(body, rest) =>
        Around(code, st, body, rest);
      case Called(body, rest) =>
        Around(code, st, body, rest);
      case Framed(body, rest) =>
        Around(code, s1, body, rest);
        OneMore(code, st, 2 + Length(body) + Length(rest));
    }
  }

  lemma {:induction false} NoSteps(code: Code, st: Guest)
    ensures Alone(code, st, 0) == st
  {
  }

  lemma {:induction false} OneMore(code: Code, st: Guest, k: nat)
    ensures Alone(code, st, 1 + k) == Alone(code, Step(code, st), k)
  {
    hide Turn;
  }

  lemma {:induction false} Around(code: Code, st: Guest, body: Trace, rest: Trace)
    ensures End(code, Step(code, End(code, Step(code, st), body)), rest) ==
            Alone(code, st, 2 + Length(body) + Length(rest))
    decreases 1 + Length(body) + Length(rest), 1
  {
    hide Step, End, Length, Alone;
    var s1 := Step(code, st);
    var s2 := End(code, s1, body);
    EndIsAlone(code, s1, body);
    EndIsAlone(code, Step(code, s2), rest);
    AloneAdd(code, s1, Length(body), 1 + Length(rest));
    OneMore(code, s2, Length(rest));
    OneMore(code, st, 1 + Length(body) + Length(rest));
  }

  /** Counted in instructions: the vCPU, run alone from the Call for the length of
      its body and two more, is back at the next instruction with the stack
      pointer and the protected slots it had. */
  lemma {:induction false} CallComesBack(code: Code, st: Guest, body: Trace, prot: set<Word>)
    requires At(code, st, OpCall) && Room(st) && Above(prot, st)
    requires Follows(code, Step(code, st), body, prot + {Below(st)}) && Balanced(body)
    requires At(code, End(code, Step(code, st), body), OpRet)
    ensures var s := Alone(code, st, 2 + Length(body));
            s.pc == st.pc + 1 && Sp(s) == Sp(st) && Kept(prot, st.mem, s.mem)
  {
    hide Step, Follows, Alone, Kept, At, Room, Balanced;
    CallReturns(code, st, body, prot);
    Around(code, st, body, Empty);
    var s := Step(code, End(code, Step(code, st), body));
    assert End(code, s, Empty) == s;
  }
}
