/** Decoding block by block.
 *
 * The translator decodes one basic block at a time, each with a fresh decoder.
 * On a stream that decodes to its end this is the same as one linear sweep.
 */
module Blocks {
  import opened Words
  import opened Memory
  import opened Machine
  import opened Ir
  import opened X86
  import opened DecoderSpec
  import opened DecoderFacts
  import opened Decoder
  import opened Translator
  import opened Flatten
  import opened Reference
  import opened Simulation

  // ---------------------------------------------------------------- specifications

  /** One decoder run from the first byte until it fails. */
  function Sweep(s: seq<Byte>, pc: Word): seq<Instruction>
    decreases |s|
  {
    SelfDelimiting(s, s, pc);
    match Decode(s, pc)
    case Fail(_, _) => []
    case Done(insn, _) => [insn] + Sweep(s[insn.size..], Wrap64(pc + insn.size))
  }

  /** The bytes taken by a list of instructions. */
  function Extent(insns: seq<Instruction>): nat {
    if insns == [] then 0 else insns[0].size + Extent(insns[1..])
  }

  /** The stream decodes to its very end. */
  predicate FullyDecodes(s: seq<Byte>, pc: Word) {
    Extent(Sweep(s, pc)) == |s|
  }

  /** The kinds after which a basic block ends. */
  predicate EndsBlock(kind: OpKind) {
    kind == Jmp || kind == Jcc || kind == Ret || kind == Hlt || kind == Syscall || kind == Invalid
  }

  /** A block's instructions and the distance its decoder's PC moved. */
  datatype Cut = Cut(insns: seq<Instruction>, consumed: nat)

  function CutBlock(s: seq<Byte>, pc: Word): (c: Cut)
    ensures Extent(c.insns) <= c.consumed <= |s|
    decreases |s|
  {
    SelfDelimiting(s, s, pc);
    match Decode(s, pc)
    case Fail(_, skip) => Cut([], skip)
    case Done(insn, _) =>
      if EndsBlock(insn.kind) then Cut([insn], insn.size)
      else
        var rest := CutBlock(s[insn.size..], Wrap64(pc + insn.size));
        Cut([insn] + rest.insns, insn.size + rest.consumed)
  }

  function Pcs(insns: seq<Instruction>): (pcs: seq<Word>)
    ensures |pcs| == |insns| && forall i :: 0 <= i < |pcs| ==> pcs[i] == insns[i].pc
  {
    seq(|insns|, i requires 0 <= i < |insns| => insns[i].pc)
  }

  function EmitAll(insns: seq<Instruction>): (code: seq<Instr>)
    ensures |code| == |insns| && forall i :: 0 <= i < |code| ==> code[i] == Emit(insns[i])
  {
    seq(|insns|, i requires 0 <= i < |insns| => Emit(insns[i]))
  }

  function MakeBlock(pc: Word, insns: seq<Instruction>): BasicBlock {
    BasicBlock(pc, Pcs(insns), EmitAll(insns))
  }

  function Translated(s: seq<Byte>, pc: Word): seq<BasicBlock>
    decreases |s|
  {
    var c := CutBlock(s, pc);
    if c.insns == [] || c.consumed == 0 then []
    else [MakeBlock(pc, c.insns)] + Translated(s[c.consumed..], Wrap64(pc + c.consumed))
  }

  // ---------------------------------------------------------------- the source's loops

  /** A block half decoded: what is left to do is the block from here. */
  ghost predicate Midway(code: seq<Byte>, basePc: Word, block: seq<Instruction>, pos: nat, pc: Word) {
    && pos <= |code| < 0x1_0000_0000_0000_0000 && pc == Wrap64(basePc + pos)
    && var rest := CutBlock(code[pos..], pc);
       CutBlock(code, basePc) == Cut(block + rest.insns, pos + rest.consumed)
  }

  /** `decode_basic_block` */
  method DecodeBasicBlock(code: seq<Byte>, basePc: Word) returns (block: seq<Instruction>, consumed: Word)
    requires |code| < 0x1_0000_0000_0000_0000
    ensures Cut(block, consumed) == CutBlock(code, basePc)
  {
    hide Decode, CutBlock, Wrap64, Midway;
    block := [];
    var dec := new Decoder(code, basePc);
    CutStart(code, basePc);
    while true
      invariant dec.code == code && dec.Ok() && fresh(dec)
      invariant Midway(code, basePc, block, dec.pos, dec.pc)
      decreases |code| - dec.pos
    {
      CutNext(code, basePc, block, dec.pos, dec.pc);
      var ok, insn := dec.DecodeOne();
      if !ok {
        consumed := Wrap64(dec.pc - basePc);
        return;
      }
      block := block + [insn];
      if insn.kind == Jmp || insn.kind == Jcc || insn.kind == Ret || insn.kind == Hlt || insn.kind == Syscall ||
         insn.kind == Invalid {
        consumed := Wrap64(dec.pc - basePc);
        return;
      }
    }
  }

  lemma {:induction false} CutStart(code: seq<Byte>, pc: Word)
    requires |code| < 0x1_0000_0000_0000_0000
    ensures Midway(code, pc, [], 0, pc)
  {
    hide CutBlock;
    assert code[0..] == code;
  }

  /** What one more decode does to a block. */
  lemma {:induction false} CutNext(code: seq<Byte>, basePc: Word, block: seq<Instruction>, pos: nat, pc: Word)
    requires Midway(code, basePc, block, pos, pc)
    ensures
      match Decode(code[pos..], pc)
      case Fail(_, skip) => CutBlock(code, basePc) == Cut(block, Wrap64(Wrap64(pc + skip) - basePc))
      case Done(insn, _) =>
        var pc' := Wrap64(pc + insn.size);
        && 1 <= insn.size <= |code| - pos
        && (if EndsBlock(insn.kind) then CutBlock(code, basePc) == Cut(block + [insn], Wrap64(pc' - basePc))
            else Midway(code, basePc, block + [insn], pos + insn.size, pc'))
  {
    hide Decode, CutBlock, Wrap64, EndsBlock;
    UnfoldCut(code, pos, pc);
    var d, rest := Decode(code[pos..], pc), CutBlock(code[pos..], pc);
    WrapStep(basePc, pos, d);
    match d {
      case Fail(_, skip) =>
        assert block + rest.insns == block;
        Distance(basePc, pos + skip);
      case Done(insn, _) =>
        if EndsBlock(insn.kind) {
          Distance(basePc, pos + insn.size);
        } else {
          var tail := CutBlock(code[pos + insn.size..], Wrap64(pc + insn.size));
          assert block + ([insn] + tail.insns) == (block + [insn]) + tail.insns;
        }
    }
  }

  lemma {:induction false} UnfoldCut(code: seq<Byte>, pos: nat, pc: Word)
    requires pos <= |code|
    ensures
      match Decode(code[pos..], pc)
      case Fail(_, skip) => CutBlock(code[pos..], pc) == Cut([], skip) && skip <= |code| - pos
      case Done(insn, _) =>
        && 1 <= insn.size <= |code| - pos
        && (if EndsBlock(insn.kind) then CutBlock(code[pos..], pc) == Cut([insn], insn.size)
            else
              var rest := CutBlock(code[pos + insn.size..], Wrap64(pc + insn.size));
              && rest.consumed <= |code| - pos - insn.size
              && CutBlock(code[pos..], pc) == Cut([insn] + rest.insns, insn.size + rest.consumed))
  {
    SelfDelimiting(code[pos..], code[pos..], pc);
    var d := Decode(code[pos..], pc);
    hide Decode, EndsBlock, Extent, Wrap64;
    if d.Done? {
      assert code[pos..][d.insn.size..] == code[pos + d.insn.size..];
    }
  }

  /** Wrapped addresses add up. */
  lemma {:induction false} WrapStep(base: Word, pos: nat, d: Decoded)
    ensures var pc := Wrap64(base + pos);
            && (d.Done? ==> Wrap64(pc + d.insn.size) == Wrap64(base + (pos + d.insn.size)))
            && (d.Fail? ==> Wrap64(pc + d.skip) == Wrap64(base + (pos + d.skip)))
  {
  }

  lemma {:induction false} Distance(base: Word, n: nat)
    requires n < 0x1_0000_0000_0000_0000
    ensures Wrap64(Wrap64(base + n) - base) == n
  {
  }

  /** `translate` */
  method Translate(code: seq<Byte>, entryPc: Word) returns (blocks: seq<BasicBlock>)
    requires |code| < 0x1_0000_0000_0000_0000
    ensures blocks == Translated(code, entryPc)
  {
    hide CutBlock, Wrap64, Emit;
    blocks := [];
    var offset := 0;
    assert code[0..] == code;
    WrapZero(entryPc);
    while offset < |code|
      invariant 0 <= offset <= |code|
      invariant Translated(code, entryPc) == blocks + Translated(code[offset..], Wrap64(entryPc + offset))
    {
      var insns, consumed := DecodeBasicBlock(code[offset..], Wrap64(entryPc + offset));
      TranslatedNext(code, offset, Wrap64(entryPc + offset));
      if insns == [] || consumed == 0 {
        return;
      }
      var bb := BasicBlock(Wrap64(entryPc + offset), [], []);
      var i := 0;
      while i < |insns|
        invariant 0 <= i <= |insns|
        invariant bb == MakeBlock(Wrap64(entryPc + offset), insns[..i])
      {
        BlockNext(Wrap64(entryPc + offset), insns, i);
        bb := bb.(guestPcs := bb.guestPcs + [insns[i].pc], code := bb.code + [Emit(insns[i])]);
        i := i + 1;
      }
      assert insns[..i] == insns;
      blocks := blocks + [bb];
      WrapStep(entryPc, offset, Fail(0, consumed));
      offset := offset + consumed;
    }
    TranslatedEnd(code, offset, Wrap64(entryPc + offset));
  }

  lemma {:induction false} WrapZero(pc: Word)
    ensures Wrap64(pc + 0) == pc
  {
  }

  lemma {:induction false} BlockNext(pc: Word, insns: seq<Instruction>, i: nat)
    requires i < |insns|
    ensures var bb := MakeBlock(pc, insns[..i]);
            MakeBlock(pc, insns[..i + 1]) ==
            BasicBlock(pc, bb.guestPcs + [insns[i].pc], bb.code + [Emit(insns[i])])
  {
    hide Emit;
  }

  lemma {:induction false} TranslatedNext(code: seq<Byte>, offset: nat, pc: Word)
    requires offset <= |code|
    ensures
      var c := CutBlock(code[offset..], pc);
      && c.consumed <= |code| - offset
      && Translated(code[offset..], pc) ==
         if c.insns == [] || c.consumed == 0 then []
         else [MakeBlock(pc, c.insns)] + Translated(code[offset + c.consumed..], Wrap64(pc + c.consumed))
  {
    hide CutBlock, Emit;
    var c := CutBlock(code[offset..], pc);
    assert code[offset..][c.consumed..] == code[offset + c.consumed..];
  }

  lemma {:induction false} TranslatedEnd(code: seq<Byte>, offset: nat, pc: Word)
    requires offset == |code|
    ensures Translated(code[offset..], pc) == []
  {
    assert code[offset..] == [];
  }

  predicate Leaving(insn: Instruction) {
    insn.kind in {Jmp, Jcc, Ret, Hlt, Syscall, Invalid}
  }

  /** A block c at the start of s ends behind its first jump, return, halt or system
      call, or where decoding fails, and then the bytes skipped count as the block's. */
  ghost predicate Shaped(s: seq<Byte>, pc: Word, c: Cut) {
    var n := Extent(c.insns);
    && n <= |s| && (forall i :: 0 <= i < |c.insns| - 1 ==> !Leaving(c.insns[i]))
    && (c.insns != [] && Leaving(Last(c.insns)) ==> c.consumed == n)
    && (c.insns == [] || !Leaving(Last(c.insns)) ==>
          var d := Decode(s[n..], Wrap64(pc + n));
          d.Fail? && c.consumed == n + d.skip)
  }

  lemma {:induction false} LeavingIff(insn: Instruction)
    ensures Leaving(insn) <==> EndsBlock(insn.kind)
  {
  }

  /** Every block ends where it should. */
  lemma {:induction false} BlockShape(s: seq<Byte>, pc: Word)
    ensures Shaped(s, pc, CutBlock(s, pc))
    decreases |s|
  {
    hide Decode, CutBlock, Wrap64, Shaped, EndsBlock, Leaving;
    UnfoldCut(s, 0, pc);
    assert s[0..] == s;
    ShapedEnd(s, pc);
    var d := Decode(s, pc);
    if d.Done? && !EndsBlock(d.insn.kind) {
      LeavingIff(d.insn);
      var rest, pc' := s[d.insn.size..], Wrap64(pc + d.insn.size);
      BlockShape(rest, pc');
      ShapedCons(s, pc, d.insn, CutBlock(rest, pc'));
    }
  }

  lemma {:induction false} ShapedEnd(s: seq<Byte>, pc: Word)
    ensures
      match Decode(s, pc)
      case Fail(_, skip) => Shaped(s, pc, Cut([], skip))
      case Done(insn, _) =>
        insn.size <= |s| && EndsBlock(insn.kind) ==> Shaped(s, pc, Cut([insn], insn.size))
  {
    hide Decode;
    WrapZero(pc);
    assert s[0..] == s;
    var d := Decode(s, pc);
    if d.Done? {
      ExtentCons(d.insn, []);
      assert [d.insn] + [] == [d.insn];
    }
  }

  lemma {:induction false} ShapedCons(s: seq<Byte>, pc: Word, insn: Instruction, c: Cut)
    requires insn.size <= |s| && !Leaving(insn)
    requires Shaped(s[insn.size..], Wrap64(pc + insn.size), c)
    ensures Shaped(s, pc, Cut([insn] + c.insns, insn.size + c.consumed))
  {
    hide Decode, Wrap64, Extent, Last, Leaving;
    ExtentCons(insn, c.insns);
    LastCons(insn, c.insns);
    var all := [insn] + c.insns;
    forall i | 0 <= i < |all| - 1 ensures !Leaving(all[i]) {
      if i > 0 {
        assert all[i] == c.insns[i - 1];
      }
    }
    assert s[insn.size..][Extent(c.insns)..] == s[Extent(all)..];
    WrapTwice(pc, insn.size, Extent(c.insns));
  }

  lemma {:induction false} ExtentCons(insn: Instruction, insns: seq<Instruction>)
    ensures Extent([insn] + insns) == insn.size + Extent(insns)
  {
    assert ([insn] + insns)[1..] == insns;
  }

  function Last(insns: seq<Instruction>): Instruction
    requires insns != []
  {
    insns[|insns| - 1]
  }

  lemma {:induction false} LastCons(insn: Instruction, insns: seq<Instruction>)
    ensures Last([insn] + insns) == if insns == [] then insn else Last(insns)
  {
  }

  lemma {:induction false} WrapTwice(pc: Word, m: nat, n: nat)
    ensures Wrap64(Wrap64(pc + m) + n) == Wrap64(pc + (m + n))
  {
  }

  // ---------------------------------------------------------------- blocks against the sweep

  /** Everything `translate` decodes, block after block. */
  function AllDecoded(s: seq<Byte>, pc: Word): seq<Instruction>
    decreases |s|
  {
    var c := CutBlock(s, pc);
    if c.insns == [] || c.consumed == 0 then []
    else c.insns + AllDecoded(s[c.consumed..], Wrap64(pc + c.consumed))
  }

  /** What the decoder says at the first byte the sweep does not reach. */
  function Stop(s: seq<Byte>, pc: Word): (d: DecoderSpec.Decoded)
    ensures d.Fail?
    decreases |s|
  {
    SelfDelimiting(s, s, pc);
    var d := Decode(s, pc);
    hide Decode;
    if d.Done? then Stop(s[d.insn.size..], Wrap64(pc + d.insn.size)) else d
  }

  /** Unfolding the sweep once. */
  lemma {:induction false} UnfoldSweep(s: seq<Byte>, pc: Word)
    ensures
      match Decode(s, pc)
      case Fail(_, skip) => Sweep(s, pc) == [] && Stop(s, pc) == Decode(s, pc) && skip <= |s|
      case Done(insn, _) =>
        && 1 <= insn.size <= |s|
        && var s', pc' := s[insn.size..], Wrap64(pc + insn.size);
        && Sweep(s, pc) == [insn] + Sweep(s', pc') && Stop(s, pc) == Stop(s', pc')
        && Extent(Sweep(s, pc)) == insn.size + Extent(Sweep(s', pc'))
  {
    SelfDelimiting(s, s, pc);
    hide Decode;
  }

  lemma {:induction false} StopInside(s: seq<Byte>, pc: Word)
    ensures Extent(Sweep(s, pc)) + Stop(s, pc).skip <= |s|
    decreases |s|
  {
    hide Decode, Sweep, Stop;
    UnfoldSweep(s, pc);
    var d := Decode(s, pc);
    if d.Done? {
      StopInside(s[d.insn.size..], Wrap64(pc + d.insn.size));
    }
  }

  /** The first failure is inside a block and skips some bytes: only then does
      translation go on behind it. */
  predicate Resumes(s: seq<Byte>, pc: Word) {
    var insns := Sweep(s, pc);
    insns != [] && !EndsBlock(insns[|insns| - 1].kind) && Stop(s, pc).skip > 0
  }

  /** The block c cut from s, against the sweep. */
  ghost predicate PieceOfSweep(s: seq<Byte>, pc: Word, c: Cut) {
    var n := Extent(c.insns);
    n <= |s| &&
    var rest := Sweep(s[n..], Wrap64(pc + n));
    && Sweep(s, pc) == c.insns + rest
    && (c.insns == [] <==> Sweep(s, pc) == [])
    && Stop(s[n..], Wrap64(pc + n)) == Stop(s, pc)
    && (c.insns != [] && EndsBlock(c.insns[|c.insns| - 1].kind) ==> c.consumed == n)
    && (c.insns == [] || !EndsBlock(c.insns[|c.insns| - 1].kind) ==>
          rest == [] && c.consumed == n + Stop(s, pc).skip)
  }

  /** A block is a piece of the sweep; if it ends in a failure, the sweep ends there. */
  lemma {:induction false} BlockOfSweep(s: seq<Byte>, pc: Word)
    ensures PieceOfSweep(s, pc, CutBlock(s, pc))
    decreases |s|
  {
    hide Decode, EndsBlock, Sweep, Stop, CutBlock, Wrap64, PieceOfSweep, Extent;
    UnfoldSweep(s, pc);
    UnfoldCut(s, 0, pc);
    assert s[0..] == s;
    var d := Decode(s, pc);
    match d {
      case Fail(_, skip) =>
        EmptyPiece(s, pc, skip);
      case Done(insn, _) =>
        var s', pc' := s[insn.size..], Wrap64(pc + insn.size);
        if EndsBlock(insn.kind) {
          LastPiece(s, pc, insn);
        } else {
          BlockOfSweep(s', pc');
          assert s[0 + insn.size..] == s';
          LongerPiece(s, pc, insn, CutBlock(s', pc'));
        }
    }
  }

  lemma {:induction false} EmptyPiece(s: seq<Byte>, pc: Word, skip: nat)
    requires Sweep(s, pc) == [] && Stop(s, pc).skip == skip
    ensures PieceOfSweep(s, pc, Cut([], skip))
  {
    hide Decode, EndsBlock, Sweep, Stop;
    assert s[0..] == s;
  }

  lemma {:induction false} LastPiece(s: seq<Byte>, pc: Word, insn: Instruction)
    requires insn.size <= |s| && EndsBlock(insn.kind)
    requires var s', pc' := s[insn.size..], Wrap64(pc + insn.size);
             Sweep(s, pc) == [insn] + Sweep(s', pc') && Stop(s, pc) == Stop(s', pc')
    ensures PieceOfSweep(s, pc, Cut([insn], insn.size))
  {
    hide Decode, EndsBlock, Sweep, Stop;
    assert Extent([insn]) == insn.size + Extent([insn][1..]);
  }

  lemma {:induction false} LongerPiece(s: seq<Byte>, pc: Word, insn: Instruction, tail: Cut)
    requires insn.size <= |s| && !EndsBlock(insn.kind)
    requires var s', pc' := s[insn.size..], Wrap64(pc + insn.size);
             && Sweep(s, pc) == [insn] + Sweep(s', pc') && Stop(s, pc) == Stop(s', pc')
             && PieceOfSweep(s', pc', tail)
    ensures PieceOfSweep(s, pc, Cut([insn] + tail.insns, insn.size + tail.consumed))
  {
    hide Decode, EndsBlock, Sweep, Stop, Wrap64;
    var s', pc' := s[insn.size..], Wrap64(pc + insn.size);
    var m := Extent(tail.insns);
    var all := [insn] + tail.insns;
    assert all[1..] == tail.insns;
    assert Extent(all) == insn.size + m;
    assert s'[m..] == s[insn.size + m..];
    WrapAdd(pc + insn.size, m);
    var rest := Sweep(s'[m..], Wrap64(pc' + m));
    assert [insn] + (tail.insns + rest) == all + rest;
    if tail.insns == [] {
      assert all == [insn];
    } else {
      assert all[|all| - 1] == tail.insns[|tail.insns| - 1];
    }
  }

  lemma {:induction false} ExtentAppend(a: seq<Instruction>, b: seq<Instruction>)
    ensures Extent(a + b) == Extent(a) + Extent(b)
  {
    if a == [] {
      assert a + b == b;
    } else {
      ExtentAppend(a[1..], b);
      assert (a + b)[1..] == a[1..] + b;
    }
  }

  /** Exactly what block-wise translation decodes, on any bytes: the linear sweep,
      and, behind a gap, whatever decodes there. */
  lemma {:induction false} BlocksAgainstSweep(s: seq<Byte>, pc: Word)
    ensures AgainstSweep(s, pc, AllDecoded(s, pc))
    decreases |s|
  {
    hide Decode, EndsBlock, Stop, Sweep, CutBlock, AllDecoded, Extent, Resumes, Wrap64, AgainstSweep;
    BlockOfSweep(s, pc);
    UnfoldDecoded(s, pc);
    var c := CutBlock(s, pc);
    var n := Extent(c.insns);
    if c.insns == [] {
      EmptySweep(s, pc);
    } else if EndsBlock(c.insns[|c.insns| - 1].kind) {
      NonEmptyExtent(c.insns, s, pc);
      BlocksAgainstSweep(s[n..], Wrap64(pc + n));
      BlockThenSweep(s, pc, c.insns, AllDecoded(s[n..], Wrap64(pc + n)));
    } else {
      FinalBlock(s, pc, c);
    }
  }

  /** all is the sweep of s and, behind a gap, whatever decodes there. */
  ghost predicate AgainstSweep(s: seq<Byte>, pc: Word, all: seq<Instruction>) {
    StopInside(s, pc);
    var n := Extent(Sweep(s, pc)) + Stop(s, pc).skip;
    all == if Resumes(s, pc) then Sweep(s, pc) + AllDecoded(s[n..], Wrap64(pc + n)) else Sweep(s, pc)
  }

  lemma {:induction false} UnfoldDecoded(s: seq<Byte>, pc: Word)
    ensures
      var c := CutBlock(s, pc);
      && c.consumed <= |s|
      && AllDecoded(s, pc) ==
         if c.insns == [] || c.consumed == 0 then []
         else c.insns + AllDecoded(s[c.consumed..], Wrap64(pc + c.consumed))
  {
    hide CutBlock;
  }

  lemma {:induction false} EmptySweep(s: seq<Byte>, pc: Word)
    requires Sweep(s, pc) == []
    ensures AgainstSweep(s, pc, [])
  {
    hide Stop, Sweep, AllDecoded;
  }

  /** A finished block in front changes neither where the sweep stops nor why. */
  lemma {:induction false} BlockThenSweep(s: seq<Byte>, pc: Word, insns: seq<Instruction>, all: seq<Instruction>)
    requires insns != [] && EndsBlock(insns[|insns| - 1].kind) && Extent(insns) <= |s|
    requires var n := Extent(insns);
             var s', pc' := s[n..], Wrap64(pc + n);
             && Sweep(s, pc) == insns + Sweep(s', pc') && Stop(s, pc) == Stop(s', pc')
             && AgainstSweep(s', pc', all)
    ensures AgainstSweep(s, pc, insns + all)
  {
    hide Stop, Sweep, AllDecoded, EndsBlock, Wrap64;
    var n := Extent(insns);
    var s', pc' := s[n..], Wrap64(pc + n);
    var rest := Sweep(s', pc');
    ExtentAppend(insns, rest);
    StopInside(s', pc');
    var m := Extent(rest) + Stop(s', pc').skip;
    assert s'[m..] == s[n + m..];
    WrapAdd(pc + n, m);
    hide Extent;
    if rest == [] {
      assert insns + rest == insns;
    } else {
      assert (insns + rest)[|insns + rest| - 1] == rest[|rest| - 1];
      assert (insns + rest) + AllDecoded(s'[m..], Wrap64(pc' + m)) ==
          insns + (rest + AllDecoded(s'[m..], Wrap64(pc' + m)));
    }
  }

  /** A block that ends in a failure. */
  lemma {:induction false} FinalBlock(s: seq<Byte>, pc: Word, c: Cut)
    requires c == CutBlock(s, pc) && PieceOfSweep(s, pc, c)
    requires c.insns != [] && !EndsBlock(c.insns[|c.insns| - 1].kind)
    ensures AgainstSweep(s, pc, AllDecoded(s, pc))
  {
    hide Stop, Sweep, AllDecoded, EndsBlock, CutBlock, Wrap64, Extent;
    var n := Extent(c.insns);
    NonEmptyExtent(c.insns, s, pc);
    UnfoldDecoded(s, pc);
    assert c.insns + [] == c.insns;
    if Stop(s, pc).skip == 0 {
      NothingAfter(s[n..], Wrap64(pc + n));
    }
  }

  lemma {:induction false} NothingAfter(s: seq<Byte>, pc: Word)
    requires Sweep(s, pc) == []
    ensures AllDecoded(s, pc) == []
  {
    hide Sweep, AllDecoded, CutBlock, Stop;
    BlockOfSweep(s, pc);
    UnfoldDecoded(s, pc);
  }

  lemma {:induction false} NonEmptyExtent(insns: seq<Instruction>, s: seq<Byte>, pc: Word)
    requires insns != [] && insns == CutBlock(s, pc).insns
    ensures Extent(insns) > 0
  {
    hide Decode, CutBlock, EndsBlock;
    UnfoldCut(s, 0, pc);
    assert s[0..] == s;
  }

  /** On a stream that decodes to its end, block-wise translation is the sweep. */
  lemma {:induction false} FullyDecodedBlocks(s: seq<Byte>, pc: Word)
    requires FullyDecodes(s, pc)
    ensures AllDecoded(s, pc) == Sweep(s, pc)
  {
    hide Sweep, AllDecoded, Stop;
    BlocksAgainstSweep(s, pc);
    StopInside(s, pc);
  }

  /** One IR record per instruction, filed under the instruction's own PC. */
  lemma {:induction false} BlockEntriesOf(s: seq<Byte>, pc: Word)
    ensures EntriesOf(Entries(Translated(s, pc)), AllDecoded(s, pc))
    decreases |s|
  {
    var c := CutBlock(s, pc);
    hide CutBlock, Emit, Entries;
    if c.insns == [] || c.consumed == 0 {
      EmptyEntries();
    } else {
      var bb := MakeBlock(pc, c.insns);
      var s', pc' := s[c.consumed..], Wrap64(pc + c.consumed);
      BlockEntriesOf(s', pc');
      EntriesAppend([bb], Translated(s', pc'));
      EntriesOne(bb);
      hide AllDecoded, Translated;
      assert EntriesOf(BlockEntries(bb, |bb.code|), c.insns);
    }
  }

  // ---------------------------------------------------------------- order of addresses

  /** How far an address lies behind base, around the end of the address space. */
  function Behind(base: Word, a: Word): Word {
    Wrap64(a - base)
  }

  lemma {:induction false} BehindOffset(base: Word, o: nat)
    requires o < 0x1_0000_0000_0000_0000
    ensures Behind(base, Wrap64(base + o)) == o
  {
    var b: int := base;
    WrapAdd(b + o, -b);
  }

  /** Instructions in increasing order at offsets [lo, hi) behind base, none
      overlapping the next. */
  predicate Ordered(insns: seq<Instruction>, base: Word, lo: int, hi: int) {
    if insns == [] then lo <= hi
    else
      var o := Behind(base, insns[0].pc);
      lo <= o && insns[0].size > 0 && Ordered(insns[1..], base, o + insns[0].size, hi)
  }

  lemma {:induction false} OrderedAppend(a: seq<Instruction>, b: seq<Instruction>, base: Word, lo: int, mid: int,
      hi: int)
    requires Ordered(a, base, lo, mid) && Ordered(b, base, mid, hi)
    ensures Ordered(a + b, base, lo, hi)
    decreases |a|
  {
    hide Behind;
    if a == [] {
      assert a + b == b;
      OrderedWider(b, base, mid, lo, hi);
    } else {
      OrderedAppend(a[1..], b, base, Behind(base, a[0].pc) + a[0].size, mid, hi);
      assert (a + b)[1..] == a[1..] + b;
    }
  }

  lemma {:induction false} OrderedWider(a: seq<Instruction>, base: Word, lo: int, lo': int, hi: int)
    requires Ordered(a, base, lo, hi) && lo' <= lo
    ensures Ordered(a, base, lo', hi)
  {
  }

  lemma {:induction false} OrderedBound(a: seq<Instruction>, base: Word, lo: int, hi: int, i: nat)
    requires Ordered(a, base, lo, hi) && i < |a|
    ensures lo <= Behind(base, a[i].pc) && a[i].size > 0 && Behind(base, a[i].pc) + a[i].size <= hi
    decreases |a|
  {
    hide Behind;
    var end := Behind(base, a[0].pc) + a[0].size;
    OrderedEnd(a[1..], base, end, hi);
    if i > 0 {
      OrderedBound(a[1..], base, end, hi, i - 1);
    }
  }

  lemma {:induction false} OrderedEnd(a: seq<Instruction>, base: Word, lo: int, hi: int)
    requires Ordered(a, base, lo, hi)
    ensures lo <= hi
    decreases |a|
  {
    hide Behind;
    if a != [] {
      OrderedEnd(a[1..], base, Behind(base, a[0].pc) + a[0].size, hi);
    }
  }

  lemma {:induction false} OrderedPair(a: seq<Instruction>, base: Word, lo: int, hi: int, i: nat, j: nat)
    requires Ordered(a, base, lo, hi) && i < j < |a|
    ensures Behind(base, a[i].pc) + a[i].size <= Behind(base, a[j].pc)
    decreases |a|
  {
    hide Behind;
    var end := Behind(base, a[0].pc) + a[0].size;
    if i == 0 {
      OrderedBound(a[1..], base, end, hi, j - 1);
    } else {
      OrderedPair(a[1..], base, end, hi, i - 1, j - 1);
    }
  }

  lemma {:induction false} BlockOrdered(s: seq<Byte>, base: Word, o: nat)
    requires o + |s| <= 0x1_0000_0000_0000_0000
    ensures
      var c := CutBlock(s, Wrap64(base + o));
      && Ordered(c.insns, base, o, o + c.consumed)
      && (c.insns != [] ==> o < 0x1_0000_0000_0000_0000 && c.insns[0].pc == Wrap64(base + o))
    decreases |s|
  {
    hide Decode, EndsBlock, Extent, Wrap64, Behind;
    var pc := Wrap64(base + o);
    SelfDelimiting(s, s, pc);
    DecodedPc(s, pc);
    var d := Decode(s, pc);
    if d.Done? {
      BehindOffset(base, o);
      if !EndsBlock(d.insn.kind) {
        WrapAdd(base + o, d.insn.size);
        BlockOrdered(s[d.insn.size..], base, o + d.insn.size);
        var tail := CutBlock(s[d.insn.size..], Wrap64(base + (o + d.insn.size)));
        assert ([d.insn] + tail.insns)[1..] == tail.insns;
      }
    }
  }

  /** On any bytes, wherever they are, what is decoded stands in increasing,
      non-overlapping order behind the first address; in particular no two entries
      have the same PC, and the PCs are strictly increasing unless the region runs
      over the end of the address space. */
  lemma {:induction false} DecodedInOrder(s: seq<Byte>, pc: Word)
    requires |s| <= 0x1_0000_0000_0000_0000
    ensures Ordered(AllDecoded(s, pc), pc, 0, |s|)
    ensures Distinct(Entries(Translated(s, pc)))
    ensures pc + |s| <= 0x1_0000_0000_0000_0000 ==> Ascending(Entries(Translated(s, pc)))
  {
    hide AllDecoded, Translated, Entries, Ordered, Emit, Behind;
    DecodedOrdered(s, pc, 0);
    PlainOffset(pc);
    BlockEntriesOf(s, pc);
    var es, insns := Entries(Translated(s, pc)), AllDecoded(s, pc);
    forall i, j | 0 <= i < j < |es|
      ensures es[i].pc != es[j].pc && (pc + |s| <= 0x1_0000_0000_0000_0000 ==> es[i].pc < es[j].pc)
    {
      OrderedPair(insns, pc, 0, |s|, i, j);
      OrderedBound(insns, pc, 0, |s|, i);
      OrderedBound(insns, pc, 0, |s|, j);
      if pc + |s| <= 0x1_0000_0000_0000_0000 {
        BehindInside(pc, es[i].pc, |s|);
        BehindInside(pc, es[j].pc, |s|);
      }
    }
  }

  lemma {:induction false} PlainOffset(pc: Word)
    ensures Wrap64(pc + 0) == pc && Behind(pc, pc) == 0
  {
  }

  /** Inside a region that does not run over the end, an address is base plus its
      offset. */
  lemma {:induction false} BehindInside(base: Word, a: Word, n: nat)
    requires Behind(base, a) < n && base + n <= 0x1_0000_0000_0000_0000
    ensures a == base + Behind(base, a)
  {
  }

  lemma {:induction false} WrapInside(pc: Word, n: nat, m: nat)
    requires n <= m && pc + m < 0x1_0000_0000_0000_0000
    ensures Wrap64(pc + n) == pc + n
  {
  }

  lemma {:induction false} DecodedOrdered(s: seq<Byte>, base: Word, o: nat)
    requires o + |s| <= 0x1_0000_0000_0000_0000
    ensures Ordered(AllDecoded(s, Wrap64(base + o)), base, o, o + |s|)
    decreases |s|
  {
    hide CutBlock, AllDecoded, Wrap64, Extent, Behind;
    var pc := Wrap64(base + o);
    var c := CutBlock(s, pc);
    UnfoldDecoded(s, pc);
    BlockOrdered(s, base, o);
    if !(c.insns == [] || c.consumed == 0) {
      WrapAdd(base + o, c.consumed);
      DecodedOrdered(s[c.consumed..], base, o + c.consumed);
      hide Ordered;
      OrderedAppend(c.insns, AllDecoded(s[c.consumed..], Wrap64(base + (o + c.consumed))), base, o, o + c.consumed,
                    o + |s|);
    }
  }

  /** Blocks whose address ranges are ordered and disjoint at offsets [lo, hi) behind
      base: each block's PCs lie in its own range, and the first is where the block
      starts. */
  ghost predicate Ranges(blocks: seq<BasicBlock>, base: Word, lo: int, hi: int) {
    && (forall i :: 0 <= i < |blocks| ==>
          && |blocks[i].guestPcs| == |blocks[i].code| > 0 && blocks[i].guestPc == blocks[i].guestPcs[0]
          && lo <= Behind(base, blocks[i].guestPc))
    && (forall i, k :: 0 <= i < |blocks| && 0 <= k < |blocks[i].guestPcs| ==>
          Behind(base, blocks[i].guestPc) <= Behind(base, blocks[i].guestPcs[k]) < hi)
    && (forall i, j, k :: 0 <= i < j < |blocks| && 0 <= k < |blocks[i].guestPcs| ==>
          Behind(base, blocks[i].guestPcs[k]) < Behind(base, blocks[j].guestPc))
  }

  /** The blocks of any bytes, wherever they are. */
  lemma {:induction false} BlockRanges(s: seq<Byte>, pc: Word)
    requires |s| <= 0x1_0000_0000_0000_0000
    ensures Ranges(Translated(s, pc), pc, 0, |s|)
  {
    hide Translated, Ranges;
    BlockRangesFrom(s, pc, 0);
    PlainOffset(pc);
  }

  lemma {:induction false} BlockRangesFrom(s: seq<Byte>, base: Word, o: nat)
    requires o + |s| <= 0x1_0000_0000_0000_0000
    ensures Ranges(Translated(s, Wrap64(base + o)), base, o, o + |s|)
    decreases |s|
  {
    hide CutBlock, Ordered, MakeBlock, Translated, Wrap64, Ranges, Extent, Behind;
    var pc := Wrap64(base + o);
    var c := CutBlock(s, pc);
    assert s[0..] == s;
    TranslatedNext(s, 0, pc);
    BlockOrdered(s, base, o);
    if c.insns == [] || c.consumed == 0 {
      NoRanges(base, o, o + |s|);
    } else {
      assert s[0 + c.consumed..] == s[c.consumed..];
      WrapAdd(base + o, c.consumed);
      BlockRangesFrom(s[c.consumed..], base, o + c.consumed);
      BehindOffset(base, o);
      FirstRange(c.insns, Translated(s[c.consumed..], Wrap64(base + (o + c.consumed))), base, o, o + c.consumed,
                 o + |s|);
    }
  }

  lemma {:induction false} NoRanges(base: Word, lo: int, hi: int)
    ensures Ranges([], base, lo, hi)
  {
  }

  lemma {:induction false} FirstRange(insns: seq<Instruction>, rest: seq<BasicBlock>, base: Word, lo: nat, mid: int,
      hi: int)
    requires insns != [] && insns[0].pc == Wrap64(base + lo) && Behind(base, insns[0].pc) == lo
    requires Ordered(insns, base, lo, mid) && mid <= hi && Ranges(rest, base, mid, hi)
    ensures Ranges([MakeBlock(Wrap64(base + lo), insns)] + rest, base, lo, hi)
  {
    hide Ordered, Emit, Behind, Wrap64;
    forall k | 0 <= k < |insns| ensures lo <= Behind(base, insns[k].pc) < mid {
      OrderedBound(insns, base, lo, mid, k);
    }
    OrderedBound(insns, base, lo, mid, 0);
  }

  /** A decoded instruction records the address it was decoded at. */
  lemma {:induction false} DecodedPc(s: seq<Byte>, pc: Word)
    ensures Decode(s, pc).Done? ==> Decode(s, pc).insn.pc == pc
  {
    hide Fetch, ParseModrm, Signed, DecodeReg, RmForm, RmForm0f, GroupOp, FormInsn;
    if s != [] {
      var inRex := s[0] / 16 == 4;
      var x := Context(s, pc, if inRex then s[0] else 0, inRex);
      var cur := Cursor(if inRex then 1 else 0, true);
      FetchByte(s, cur);
      OpPc(x, Fetch(s, cur, 1).v, Fetch(s, cur, 1).cur);
      hide DecodeOp;
    }
  }

  lemma {:induction false} OpPc(x: Context, b0: Byte, cur: Cursor)
    ensures DecodeOp(x, b0, cur).Done? ==> DecodeOp(x, b0, cur).insn.pc == x.pc
  {
    hide Fetch, ParseModrm, Signed, DecodeReg, RmForm, RmForm0f, GroupOp, ShiftOp, Wrap64;
  }
}
