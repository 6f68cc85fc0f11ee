/** The machine code of `gpubench`, from its bytes to its exit value.
 *
 * The program's instructions are encoded as an assembler encodes them.  The
 * bytes are decoded, translated block by block, flattened and run.
 */
module GpubenchCode {
  import opened Words
  import opened Memory
  import StatusFlags
  import opened Machine
  import opened Ir
  import opened Schedule
  import opened X86
  import opened DecoderSpec
  import opened DecoderFacts
  import opened ModRm
  import opened Linking
  import opened Translator
  import opened Reference
  import opened Simulation
  import opened Flatten
  import opened Blocks
  import opened Backends
  import opened EndToEnd
  import opened Gpubench

  /** ITER and the two relocated displacements of the banner's addresses. */
  datatype Fields = Fields(iter: Int32, banner: Int32, bannerEnd: Int32)

  function Imm(v: int): (bs: seq<Byte>)
    ensures |bs| == 4
  {
    Bytes(Wrap32(v), 4)
  }

  /** The bytes of instruction i. */
  function Chunk(f: Fields, i: nat): seq<Byte> {
    match i
    case 0 => [0x55]
    case 1 => [0x48, 0x89, 0xE5]
    case 2 => [0x53]
    case 3 => [0x41, 0x54]
    case 4 => [0x41, 0x55]
    case 5 => [0x41, 0x57]
    case 6 => [0x49, 0x89, 0xFF]
    case 7 => [0x4D, 0x85, 0xFF]
    case 8 => [0x75, 0x21]
    case 9 => [0x48, 0xC7, 0xC0] + Imm(1)
    case 10 => [0x48, 0xC7, 0xC7] + Imm(1)
    case 11 => [0x48, 0x8D, 0x35] + Imm(f.banner)
    case 12 => [0x48, 0x8D, 0x15] + Imm(f.bannerEnd)
    case 13 => [0x48, 0x29, 0xF2]
    case 14 => [0x0F, 0x05]
    case 15 => [0x4D, 0x31, 0xE4]
    case 16 => [0x4D, 0x89, 0xFD]
    case 17 => [0x48, 0x31, 0xDB]
    case 18 => [0x48, 0x81, 0xFB] + Imm(f.iter)
    case 19 => [0x73, 0x17]
    case 20 => [0x4C, 0x89, 0xE8]
    case 21 => [0x48, 0x01, 0xD8]
    case 22 => [0x48, 0x83, 0xE0, 0x07]
    case 23 => [0x49, 0x01, 0xC4]
    case 24 => [0x49, 0x83, 0xC5, 0x03]
    case 25 => [0x48, 0x83, 0xC3, 0x01]
    case 26 => [0xEB, 0xE0]
    case 27 => [0x4C, 0x89, 0xE7]
    case 28 => [0x48, 0xC7, 0xC0] + Imm(60)
    case 29 => [0x0F, 0x05]
    case 30 => [0x41, 0x5F]
    case 31 => [0x41, 0x5D]
    case 32 => [0x41, 0x5C]
    case 33 => [0x5B]
    case 34 => [0x5D]
    case _ => [0xC3]
  }

  /** Where instruction i begins. */
  function Start(i: nat): nat {
    match i
    case 0 => 0
    case 1 => 1
    case 2 => 4
    case 3 => 5
    case 4 => 7
    case 5 => 9
    case 6 => 11
    case 7 => 14
    case 8 => 17
    case 9 => 19
    case 10 => 26
    case 11 => 33
    case 12 => 40
    case 13 => 47
    case 14 => 50
    case 15 => 52
    case 16 => 55
    case 17 => 58
    case 18 => 61
    case 19 => 68
    case 20 => 70
    case 21 => 73
    case 22 => 76
    case 23 => 80
    case 24 => 83
    case 25 => 87
    case 26 => 91
    case 27 => 93
    case 28 => 96
    case 29 => 103
    case 30 => 105
    case 31 => 107
    case 32 => 109
    case 33 => 111
    case 34 => 112
    case 35 => 113
    case _ => 114
  }

  /** The code from instruction i on. */
  function From(f: Fields, i: nat): seq<Byte>
    requires i <= COUNT
    decreases COUNT - i
  {
    if i == COUNT then [] else Chunk(f, i) + From(f, i + 1)
  }

  /** The parameters of the IR program for code at base. */
  function ParamsFor(f: Fields, base: Word): Params {
    Params(f.iter, Signed(base + 40 + f.banner, 8), Signed(base + 47 + f.bannerEnd, 8))
  }

  // ---------------------------------------------------------------- single instructions

  /** s decodes, without running out of bytes, to one instruction of its length
      whose record is ins, and which is not a branch. */
  ghost predicate Plainly(s: seq<Byte>, pc: Word, ins: Instr) {
    var d := Decode(s, pc);
    && d.Done? && d.clean && d.insn.size == |s|
    && !Branches(d.insn) && Emit(d.insn) == ins
  }

  /** The same for a branch, whose record carries the target's address. */
  ghost predicate AsBranch(s: seq<Byte>, pc: Word, op: Opcode, aux: Byte, target: Word) {
    var d := Decode(s, pc);
    && d.Done? && d.clean && d.insn.size == |s|
    && Branches(d.insn) && d.insn.target == target && Emit(d.insn) == Make(op).(aux := aux, imm := Signed(target, 8))
  }

  lemma {:induction false} PushPop(s: seq<Byte>, pc: Word)
    requires |s| == 1 && 0x50 <= s[0] <= 0x5F
    ensures Plainly(s, pc, if s[0] < 0x58 then Make(OpPush).(src := s[0] - 0x50) else Make(OpPop).(dst := s[0] - 0x58))
  {
    FetchByte(s, Cursor(0, true));
    hide Fetch, Signed, DecodeGroup, DecodeMovImm, DecodeShift, DecodeIncDec, DecodeRm, DecodeBranch, Decode0f, RmForm,
         EncodeMemAddr, WithSource;
  }

  /** With the prefix 41 the register is the same: REX.B is not used here. */
  lemma {:induction false} RexPushPop(s: seq<Byte>, pc: Word)
    requires |s| == 2 && s[0] == 0x41 && 0x50 <= s[1] <= 0x5F
    ensures Plainly(s, pc, if s[1] < 0x58 then Make(OpPush).(src := s[1] - 0x50) else Make(OpPop).(dst := s[1] - 0x58))
  {
    FetchByte(s, Cursor(1, true));
    hide Fetch, Signed, DecodeGroup, DecodeMovImm, DecodeShift, DecodeIncDec, DecodeRm, DecodeBranch, Decode0f, RmForm,
         EncodeMemAddr, WithSource;
  }

  lemma {:induction false} Return(s: seq<Byte>, pc: Word)
    requires s == [0xC3]
    ensures Plainly(s, pc, Make(OpRet))
  {
    FetchByte(s, Cursor(0, true));
    hide Fetch, Signed, DecodeGroup, DecodeMovImm, DecodeShift, DecodeIncDec, DecodeRm, DecodeBranch, Decode0f, RmForm,
         EncodeMemAddr, WithSource;
  }

  lemma {:induction false} SystemCall(s: seq<Byte>, pc: Word)
    requires s == [0x0F, 0x05]
    ensures Plainly(s, pc, Make(OpSyscall))
  {
    FetchByte(s, Cursor(0, true));
    FetchByte(s, Cursor(1, true));
    hide Fetch, Signed, DecodeGroup, DecodeMovImm, DecodeShift, DecodeIncDec, DecodeRm, DecodeBranch, RmForm,
         EncodeMemAddr, WithSource;
  }

  /** The registers of a ModR/M byte with mod 3. */
  function RegField(rex: Byte, modrm: Byte): Reg { DecodeReg((modrm / 8) % 8, rex, false) }
  function RmField(rex: Byte, modrm: Byte): Reg { DecodeReg(modrm % 8, rex, true) }

  /** An opcode on two registers, the r/m one being the destination. */
  lemma {:induction false} RegisterForm(s: seq<Byte>, pc: Word, f: Form)
    requires |s| == 3 && s[0] / 16 == 4 && s[2] / 64 == 3
    requires s[1] in {0x89, 0x01, 0x29, 0x31, 0x85} && f == RmForm(s[1], true)
    ensures f.Form?
    ensures
      var d := Decode(s, pc);
      && d.Done? && d.clean && d.insn.size == 3 && d.insn.kind == f.kind && d.insn.binop == f.binop
      && !d.insn.dst.isMem && d.insn.dst.reg == RmField(s[0], s[2]) && d.insn.src.reg == RegField(s[0], s[2])
      && d.insn.dst.width == 8
  {
    FetchByte(s, Cursor(1, true));
    hide Fetch, Signed, DecodeReg, ParseSib, ParseDisp, DecodeGroup, DecodeMovImm, DecodeShift, DecodeIncDec,
         DecodeBranch, Decode0f;
  }

  lemma {:induction false} TwoRegisters(s: seq<Byte>, pc: Word)
    requires |s| == 3 && s[0] / 16 == 4 && s[1] in {0x89, 0x01, 0x29, 0x31, 0x85} && s[2] / 64 == 3
    ensures
      var d, r := RmField(s[0], s[2]), RegField(s[0], s[2]);
      && (s[1] == 0x89 ==> Plainly(s, pc, Move(d, r)))
      && (s[1] == 0x01 ==> Plainly(s, pc, AluReg(0, d, r)))
      && (s[1] == 0x29 ==> Plainly(s, pc, AluReg(1, d, r)))
      && (s[1] == 0x31 ==> Plainly(s, pc, AluReg(4, d, r)))
      && (s[1] == 0x85 ==> Plainly(s, pc, Make(OpTestReg).(dst := d, src := r)))
  {
    hide Decode, DecodeReg, EncodeMemAddr, WithSource, Signed;
    RegisterForm(s, pc, RmForm(s[1], true));
  }

  lemma {:induction false} ImmFetched(s: seq<Byte>, head: seq<Byte>, v: int)
    requires s == head + Imm(v) && -0x8000_0000 <= v < 0x8000_0000
    ensures Signed(Fetch(s, Cursor(|head|, true), 4).v, 4) == v
    ensures Fetch(s, Cursor(|head|, true), 4).cur == Cursor(|head| + 4, true)
  {
    hide Fetch, Bytes;
    assert s[|head|..|head| + 4] == Imm(v);
    FetchNumber(Wrap32(v), 4, s, Cursor(|head|, true));
  }

  lemma {:induction false} MoveImm(s: seq<Byte>, pc: Word, modrm: Byte, v: Int32)
    requires s == [0x48, 0xC7, modrm] + Imm(v) && modrm / 8 == 24
    ensures Plainly(s, pc, SetReg(modrm % 8, v))
  {
    FetchByte(s, Cursor(1, true));
    ImmFetched(s, [0x48, 0xC7, modrm], v);
    hide Fetch, Signed, Imm, EncodeMemAddr, WithSource;
    assert s[2] == modrm;
  }

  lemma {:induction false} CompareImm(s: seq<Byte>, pc: Word, modrm: Byte, v: Int32)
    requires s == [0x48, 0x81, modrm] + Imm(v) && modrm / 8 == 31
    ensures Plainly(s, pc, Make(OpCmpImm).(dst := modrm % 8, imm := v, width := 4))
  {
    FetchByte(s, Cursor(1, true));
    ImmFetched(s, [0x48, 0x81, modrm], v);
    hide Fetch, Signed, Imm, EncodeMemAddr, WithSource, GroupOp;
    assert s[2] == modrm;
  }

  /** ADD and AND of an 8-bit immediate. */
  lemma {:induction false} SmallImm(s: seq<Byte>, pc: Word)
    requires |s| == 4 && s[0] / 16 == 4 && s[1] == 0x83 && (s[2] / 8 == 24 || s[2] / 8 == 28) && s[3] < 0x80
    ensures Plainly(s, pc, AluImm(if s[2] / 8 == 24 then 0 else 2, RmField(s[0], s[2]), s[3]))
  {
    FetchByte(s, Cursor(1, true));
    FetchByte(s, Cursor(3, true));
    hide Fetch, DecodeReg, EncodeMemAddr, WithSource;
  }

  lemma {:induction false} LeaImm(s: seq<Byte>, pc: Word, modrm: Byte, v: Int32)
    requires s == [0x48, 0x8D, modrm] + Imm(v) && modrm / 64 == 0 && modrm % 8 == 5
    ensures Plainly(s, pc, Make(OpLea).(dst := RegField(0x48, modrm), imm := Signed(pc + 7 + v, 8), aux := 3))
  {
    hide Decode, Fetch, Signed, Imm, DecodeReg, WithSource, EncodeMemAddr, LoadMem;
    ImmFetched(s, [0x48, 0x8D, modrm], v);
    FieldFetched(s, Cursor(3, true));
    LeaDecoded(s, pc);
  }

  /** A short branch. */
  lemma {:induction false} ShortBranch(s: seq<Byte>, pc: Word)
    requires |s| == 2 && (s[0] == 0xEB || 0x70 <= s[0] <= 0x7F)
    ensures
      var target := Wrap64(pc + 2 + Signed(s[1], 1));
      if s[0] == 0xEB then AsBranch(s, pc, OpJmp, 0, target) else AsBranch(s, pc, OpJcc, s[0] - 0x70, target)
  {
    FetchByte(s, Cursor(0, true));
    FetchByte(s, Cursor(1, true));
    hide Fetch, Signed, DecodeGroup, DecodeMovImm, DecodeShift, DecodeIncDec, DecodeRm, Decode0f, RmForm, EncodeMemAddr,
         WithSource;
  }

  // ---------------------------------------------------------------- the whole program

  /** The target of a branch, as an instruction number. */
  function TargetOf(i: nat): nat {
    if i == 8 then SKIP_BANNER else if i == 19 then EXIT else OUTER
  }

  predicate IsBranch(i: nat) { i == 8 || i == 19 || i == 26 }

  /** Instruction i of the program. */
  ghost predicate DecodesTo(f: Fields, base: Word, i: nat) {
    var pc: Word := Wrap64(base + Start(i));
    if IsBranch(i) then
      AsBranch(Chunk(f, i), pc, At(ParamsFor(f, base), i).op, At(ParamsFor(f, base), i).aux,
               Wrap64(base + Start(TargetOf(i))))
    else Plainly(Chunk(f, i), pc, At(ParamsFor(f, base), i))
  }

  /** Pushes, pops, returns, system calls and branches. */
  lemma {:induction false} StackAndBranches(f: Fields, base: Word, i: nat)
    requires i < COUNT && base + 114 < 0x1_0000_0000_0000_0000
    requires i in {0, 2, 3, 4, 5, 8, 14, 19, 26, 29, 30, 31, 32, 33, 34, 35}
    ensures DecodesTo(f, base, i)
  {
    hide Plainly, AsBranch;
    var s, pc: Word := Chunk(f, i), base + Start(i);
    match i {
      case 0 | 2 | 33 | 34 => PushPop(s, pc);
      case 3 | 4 | 5 | 30 | 31 | 32 => RexPushPop(s, pc);
      case 14 | 29 => SystemCall(s, pc);
      case 35 => Return(s, pc);
      case _ => ShortBranch(s, pc);
    }
  }

  lemma {:induction false} Moves(f: Fields, base: Word, i: nat)
    requires i < COUNT && base + 114 < 0x1_0000_0000_0000_0000
    requires i in {1, 6, 7, 13, 15, 16, 17, 20, 21, 23, 27}
    ensures DecodesTo(f, base, i)
  {
    hide Plainly, AsBranch;
    if i < 15 {
      EarlyMoves(f, base, i);
    } else {
      TwoRegisters(Chunk(f, i), base + Start(i));
    }
  }

  lemma {:induction false} EarlyMoves(f: Fields, base: Word, i: nat)
    requires base + 114 < 0x1_0000_0000_0000_0000
    requires i in {1, 6, 7, 13}
    ensures DecodesTo(f, base, i)
  {
    hide Plainly, AsBranch;
    TwoRegisters(Chunk(f, i), base + Start(i));
  }

  lemma {:induction false} Immediates(f: Fields, base: Word, i: nat)
    requires i < COUNT && base + 114 < 0x1_0000_0000_0000_0000
    requires i in {9, 10, 11, 12, 18, 22, 24, 25, 28}
    ensures DecodesTo(f, base, i)
  {
    hide Plainly, AsBranch, Imm, Signed;
    var s, pc: Word := Chunk(f, i), base + Start(i);
    match i {
      case 9 => MoveImm(s, pc, 0xC0, 1);
      case 10 => MoveImm(s, pc, 0xC7, 1);
      case 28 => MoveImm(s, pc, 0xC0, 60);
      case 11 => LeaImm(s, pc, 0x35, f.banner);
      case 12 => LeaImm(s, pc, 0x15, f.bannerEnd);
      case 18 => CompareImm(s, pc, 0xFB, f.iter);
      case _ => SmallImm(s, pc);
    }
  }

  lemma {:induction false} EachDecodes(f: Fields, base: Word, i: nat)
    requires i < COUNT && base + 114 < 0x1_0000_0000_0000_0000
    ensures DecodesTo(f, base, i)
  {
    hide DecodesTo;
    if i in {1, 6, 7, 13, 15, 16, 17, 20, 21, 23, 27} {
      Moves(f, base, i);
    } else if i in {9, 10, 11, 12, 18, 22, 24, 25, 28} {
      Immediates(f, base, i);
    } else {
      StackAndBranches(f, base, i);
    }
  }

  lemma {:induction false} ChunkSize(f: Fields, i: nat)
    requires i < COUNT
    ensures |Chunk(f, i)| == Start(i + 1) - Start(i) > 0
  {
    hide Imm;
  }

  lemma {:induction false} FromSize(f: Fields, i: nat)
    requires i <= COUNT
    ensures |From(f, i)| == 114 - Start(i)
    decreases COUNT - i
  {
    hide Chunk, Start;
    if i == COUNT {
      LastStart();
    } else {
      ChunkSize(f, i);
      FromSize(f, i + 1);
    }
  }

  lemma {:induction false} LastStart()
    ensures Start(COUNT) == 114 && Start(0) == 0
  {
  }

  /** What the decoder makes of instruction i, in front of any other bytes. */
  function Insn(f: Fields, base: Word, i: nat): Instruction {
    var d := Decode(Chunk(f, i), Wrap64(base + Start(i)));
    if d.Done? then d.insn else NO_INSTRUCTION
  }

  /** The code from instruction i on is one sweep of the program's tail. */
  ghost predicate SweepsTo(f: Fields, base: Word, i: nat)
    requires i <= COUNT
  {
    var insns := Sweep(From(f, i), Wrap64(base + Start(i)));
    && |insns| == COUNT - i && Extent(insns) == |From(f, i)|
    && forall k :: 0 <= k < |insns| ==> insns[k] == Insn(f, base, i + k)
  }

  lemma {:induction false} SweepFrom(f: Fields, base: Word, i: nat)
    requires i <= COUNT && base + 114 < 0x1_0000_0000_0000_0000
    ensures SweepsTo(f, base, i)
    decreases COUNT - i
  {
    hide SweepsTo, From, Insn, Start, Chunk, Sweep, Extent, Wrap64;
    if i == COUNT {
      SweepEnd(f, base);
    } else {
      SweepFrom(f, base, i + 1);
      SweepOne(f, base, i);
      SweepLonger(f, base, i);
    }
  }

  lemma {:induction false} SweepEnd(f: Fields, base: Word)
    ensures SweepsTo(f, base, COUNT)
  {
    hide Start, Decode, Sweep, Stop, Wrap64;
    var pc := Wrap64(base + Start(COUNT));
    UnfoldSweep([], pc);
    NothingDecodes(pc);
  }

  /** One decode peels one instruction off the code. */
  lemma {:induction false} SweepOne(f: Fields, base: Word, i: nat)
    requires i < COUNT && base + 114 < 0x1_0000_0000_0000_0000
    ensures
      var insns, rest := Sweep(From(f, i), Wrap64(base + Start(i))), Sweep(From(f, i + 1), Wrap64(base + Start(i + 1)));
      && insns == [Insn(f, base, i)] + rest && Extent(insns) == |Chunk(f, i)| + Extent(rest)
  {
    hide Chunk, Start, Decode, Sweep, Wrap64, Stop, AsBranch, Plainly, Extent, Insn, DecodesTo;
    var s, pc, c := From(f, i), Wrap64(base + Start(i)), Chunk(f, i);
    ChunkSize(f, i);
    EachDecodes(f, base, i);
    ChunkDecoded(f, base, i);
    SelfDelimiting(c, s, pc);
    assert s[..|c|] == c && c[..|c|] == c && s[|c|..] == From(f, i + 1);
    UnfoldSweep(s, pc);
    WrapAdd(base + Start(i), |c|);
  }

  lemma {:induction false} SweepLonger(f: Fields, base: Word, i: nat)
    requires i < COUNT && SweepsTo(f, base, i + 1)
    requires
      var insns, rest := Sweep(From(f, i), Wrap64(base + Start(i))), Sweep(From(f, i + 1), Wrap64(base + Start(i + 1)));
      insns == [Insn(f, base, i)] + rest && Extent(insns) == |Chunk(f, i)| + Extent(rest)
    ensures SweepsTo(f, base, i)
  {
    hide Chunk, Start, Sweep, Wrap64, Extent, Insn;
  }

  lemma {:induction false} NothingDecodes(pc: Word)
    ensures Decode([], pc).Fail?
  {
  }

  lemma {:induction false} ChunkDecoded(f: Fields, base: Word, i: nat)
    requires DecodesTo(f, base, i)
    ensures
      var d := Decode(Chunk(f, i), Wrap64(base + Start(i)));
      d.Done? && d.clean && d.insn.size == |Chunk(f, i)| && d.insn == Insn(f, base, i)
  {
    hide Chunk, Start, Decode, Wrap64;
  }

  /** Instruction i stands at its address; the branches go to instructions. */
  lemma {:induction false} ProgramClosed(f: Fields, base: Word)
    requires base + 114 < 0x1_0000_0000_0000_0000
    ensures
      var prog := Sweep(From(f, 0), base);
      && |prog| == COUNT && Closed(prog) && prog[0].pc == base
      && (forall i :: 0 <= i < COUNT ==> prog[i] == Insn(f, base, i) && prog[i].pc == base + Start(i))
  {
    hide From, Start, Sweep, Chunk, DecodesTo, Insn, Find, Wrap64, Emit;
    FromSize(f, 0);
    LastStart();
    WrapInside(base, 0, 114);
    SweepFrom(f, base, 0);
    SweepFollows(From(f, 0), base);
    var prog := Sweep(From(f, 0), base);
    forall i | 0 <= i < COUNT ensures prog[i].pc == base + Start(i) {
      PcIs(f, base, i);
    }
    forall i | 0 <= i < COUNT && Branches(prog[i]) ensures IsStart(prog, prog[i].target) {
      EachDecodes(f, base, i);
      BranchTarget(f, base, i);
      FindPc(prog, TargetOf(i));
    }
  }

  lemma {:induction false} PcIs(f: Fields, base: Word, i: nat)
    requires i < COUNT && base + 114 < 0x1_0000_0000_0000_0000
    ensures Insn(f, base, i).pc == base + Start(i)
  {
    hide Chunk, Decode;
    EachDecodes(f, base, i);
    hide DecodesTo;
    ChunkDecoded(f, base, i);
    DecodedPc(Chunk(f, i), Wrap64(base + Start(i)));
  }

  lemma {:induction false} BranchTarget(f: Fields, base: Word, i: nat)
    requires i < COUNT && base + 114 < 0x1_0000_0000_0000_0000 && DecodesTo(f, base, i)
    ensures Branches(Insn(f, base, i)) <==> IsBranch(i)
    ensures IsBranch(i) ==> TargetOf(i) < COUNT && Insn(f, base, i).target == base + Start(TargetOf(i))
    ensures IsBranch(i) ==> Emit(Insn(f, base, i)) ==
                            Make(At(ParamsFor(f, base), i).op).(aux := At(ParamsFor(f, base), i).aux,
                                                                imm := Signed(base + Start(TargetOf(i)), 8))
    ensures !IsBranch(i) ==> Emit(Insn(f, base, i)) == At(ParamsFor(f, base), i)
  {
    hide Chunk, Decode, At, Emit;
  }

  /** Record i of the flattened code is record i of the IR program. */
  lemma {:induction false} RecordIs(f: Fields, base: Word, i: nat)
    requires i < COUNT && base + 114 < 0x1_0000_0000_0000_0000
    ensures
      var prog := Sweep(From(f, 0), base);
      |prog| == COUNT && Resolve(prog, prog[i]) == At(ParamsFor(f, base), i)
  {
    hide From, Start, Sweep, Chunk, DecodesTo, Insn, Find, Wrap64, Emit;
    ProgramClosed(f, base);
    var prog := Sweep(From(f, 0), base);
    EachDecodes(f, base, i);
    BranchTarget(f, base, i);
    if IsBranch(i) {
      FindPc(prog, TargetOf(i));
    }
  }

  /** The bytes decode to their end, into 36 instructions whose branches go to
      instructions. */
  lemma {:induction false} CodeIsClosed(f: Fields, base: Word)
    requires base + 114 < 0x1_0000_0000_0000_0000
    ensures
      var s := From(f, 0);
      && |s| == 114 && FullyDecodes(s, base) && Closed(Sweep(s, base)) && |Sweep(s, base)| == COUNT
      && IsStart(Sweep(s, base), base) && Find(Sweep(s, base), base) == 0
  {
    hide From, Start, Sweep, Chunk, DecodesTo, Insn, Find, Wrap64, Extent, Emit;
    FromSize(f, 0);
    LastStart();
    SweepFrom(f, base, 0);
    WrapInside(base, 0, 114);
    ProgramClosed(f, base);
    FindPc(Sweep(From(f, 0), base), 0);
  }

  /** What the emulator makes of them is the IR program. */
  lemma {:induction false} CodeIsProgram(f: Fields, base: Word)
    requires base + 114 < 0x1_0000_0000_0000_0000
    ensures |From(f, 0)| == 114 && |Entries(Translated(From(f, 0), base))| < 0x1_0000_0000
    ensures CodeFor(From(f, 0), base) == GuestCode(ParamsFor(f, base))
    ensures IndexFor(IndexMap(Entries(Translated(From(f, 0), base))), base) == 0
  {
    hide From, Sweep, CodeFor, IsStart, Find, Closed, FullyDecodes, Entries, Translated, IndexMap, At, Resolve,
        IndexFor;
    var s, prog := From(f, 0), Sweep(From(f, 0), base);
    CodeIsClosed(f, base);
    BytesAreCompiled(s, base);
    assert IndexFor(IndexMap(Entries(Translated(s, base))), base) == 0;
    var code := CodeFor(s, base);
    forall i | 0 <= i < COUNT ensures code[i] == At(ParamsFor(f, base), i) {
      RecordIs(f, base, i);
    }
  }

  /** From bytes to exit value: load the machine code anywhere, set up a vCPU with
      its id in rdi, and run it on either backend.  Within ceil(instructions / 4096)
      + 2 rounds it halts, and it reports ITER/2 * ((id mod 8) + ((id + 4) mod 8))
      for an even ITER, whatever is in its memory. */
  lemma {:induction false} BytesToExitValue(f: Fields, base: Word, cpu: Cpu, mem: seq<Byte>, id: Word, rounds: nat)
    requires base + 114 < 0x1_0000_0000_0000_0000 && |mem| < 0x1_0000_0000_0000_0000
    requires f.iter >= 0 && f.iter % 2 == 0
    requires !cpu.halt && cpu.flags == StatusFlags.RESET && cpu.gpr[7] == id
    ensures
      (CodeIsProgram(f, base);
       var entry := IndexFor(IndexMap(Entries(Translated(From(f, 0), base))), base);
       var final := Rounds(CodeFor(From(f, 0), base), State(cpu, mem, entry), rounds);
       && (rounds >= RoundBound(f.iter, id) ==> final.cpu.halt)
       && (final.cpu.halt ==> final.cpu.ret == (f.iter / 2) * (id % 8 + (id + 4) % 8)))
  {
    hide From, Sweep, CodeFor, Find, IsStart, Closed, FullyDecodes, Entries, Translated, Rounds, GuestCode, IndexMap,
         IndexFor;
    CodeIsProgram(f, base);
    var entry := IndexFor(IndexMap(Entries(Translated(From(f, 0), base))), base);
    BackendExitValue(ParamsFor(f, base), State(cpu, mem, entry), id, rounds);
  }
}
