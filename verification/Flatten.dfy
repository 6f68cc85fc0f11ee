/** Flattening basic blocks into one indexed stream.
 *
 * Guest PCs become indices and branch targets are replaced by the index of the
 * instruction they name.
 */
module Flatten {
  import opened Words
  import opened Ir
  import opened X86
  import opened Translator
  import opened Reference
  import opened Simulation

  datatype BasicBlock = BasicBlock(guestPc: Word, guestPcs: seq<Word>, code: seq<Instr>)

  datatype FlatIr = FlatIr(code: seq<Instr>, entryPc: Word, pcToIdx: map<Word, Half>)

  /** A record and the guest PC it is filed under. */
  datatype Entry = Entry(pc: Word, ins: Instr)

  function PcOf(bb: BasicBlock, i: nat): Word {
    if i < |bb.guestPcs| then bb.guestPcs[i] else Wrap64(bb.guestPc + i)
  }

  /** The first n entries of a block. */
  function BlockEntries(bb: BasicBlock, n: nat): (es: seq<Entry>)
    requires n <= |bb.code|
    ensures |es| == n
    ensures forall i :: 0 <= i < n ==> es[i] == Entry(PcOf(bb, i), bb.code[i])
  {
    if n == 0 then [] else BlockEntries(bb, n - 1) + [Entry(PcOf(bb, n - 1), bb.code[n - 1])]
  }

  /** All entries, in stream order. */
  function Entries(blocks: seq<BasicBlock>): seq<Entry> {
    if blocks == [] then []
    else
      var last := blocks[|blocks| - 1];
      Entries(blocks[..|blocks| - 1]) + BlockEntries(last, |last.code|)
  }

  /** Where each guest PC is filed; the last entry wins. */
  function IndexMap(es: seq<Entry>): map<Word, Half>
    requires |es| < 0x1_0000_0000
  {
    if es == [] then map[]
    else IndexMap(es[..|es| - 1])[es[|es| - 1].pc := |es| - 1]
  }

  predicate Jumps(ins: Instr) {
    ins.op == OpJmp || ins.op == OpJcc || ins.op == OpCall
  }

  /** A branch gets the index of its target, or 0 if the target is unknown. */
  function Link(pcToIdx: map<Word, Half>, ins: Instr): Instr {
    if Jumps(ins) then
      var target := Wrap64(ins.imm);
      ins.(imm := if target in pcToIdx then pcToIdx[target] else 0)
    else ins
  }

  function LinkAll(pcToIdx: map<Word, Half>, es: seq<Entry>): (code: seq<Instr>)
    ensures |code| == |es|
    ensures forall i :: 0 <= i < |es| ==> code[i] == Link(pcToIdx, es[i].ins)
  {
    if es == [] then [] else LinkAll(pcToIdx, es[..|es| - 1]) + [Link(pcToIdx, es[|es| - 1].ins)]
  }

  lemma {:induction false} EntriesNext(blocks: seq<BasicBlock>, b: nat)
    requires b < |blocks|
    ensures Entries(blocks[..b + 1]) == Entries(blocks[..b]) + BlockEntries(blocks[b], |blocks[b].code|)
  {
    assert blocks[..b + 1][..b] == blocks[..b];
  }

  lemma {:induction false} EntriesPrefix(blocks: seq<BasicBlock>, b: nat)
    requires b <= |blocks|
    ensures |Entries(blocks[..b])| <= |Entries(blocks)|
    decreases |blocks|
  {
    if b < |blocks| {
      EntriesPrefix(blocks[..|blocks| - 1], b);
      assert blocks[..|blocks| - 1][..b] == blocks[..b];
    } else {
      assert blocks[..b] == blocks;
    }
  }

  /** One more entry: what it adds to the map and to the code. */
  lemma {:induction false} NextEntry(done: seq<Entry>, bb: BasicBlock, i: nat, pcToIdx: map<Word, Half>)
    requires i < |bb.code| && |done| + |bb.code| < 0x1_0000_0000
    ensures var es, es' := done + BlockEntries(bb, i), done + BlockEntries(bb, i + 1);
            && IndexMap(es') == IndexMap(es)[PcOf(bb, i) := |done| + i]
            && LinkAll(pcToIdx, es') == LinkAll(pcToIdx, es) + [Link(pcToIdx, bb.code[i])]
  {
    hide Link;
    var es' := done + BlockEntries(bb, i + 1);
    assert es'[..|es'| - 1] == done + BlockEntries(bb, i);
  }

  lemma {:induction false} NothingYet(blocks: seq<BasicBlock>, pcToIdx: map<Word, Half>)
    ensures Entries(blocks[..0]) == [] && IndexMap([]) == map[] && LinkAll(pcToIdx, []) == []
  {
  }

  lemma {:induction false} NoEntry(done: seq<Entry>, bb: BasicBlock)
    ensures done + BlockEntries(bb, 0) == done
  {
  }

  /** `flatten_ir`: two passes over the blocks. */
  method FlattenIr(blocks: seq<BasicBlock>, entryPc: Word) returns (flat: FlatIr)
    requires |Entries(blocks)| < 0x1_0000_0000
    ensures flat.entryPc == entryPc
    ensures flat.pcToIdx == IndexMap(Entries(blocks))
    ensures flat.code == LinkAll(flat.pcToIdx, Entries(blocks))
  {
    hide IndexMap, LinkAll, Entries, BlockEntries;
    var pcToIdx := FilePcs(blocks);
    NothingYet(blocks, pcToIdx);
    var code: seq<Instr> := [];
    var b := 0;
    while b < |blocks|
      invariant 0 <= b <= |blocks|
      invariant code == LinkAll(pcToIdx, Entries(blocks[..b]))
    {
      var bb := blocks[b];
      EntriesNext(blocks, b);
      EntriesPrefix(blocks, b + 1);
      ghost var done := Entries(blocks[..b]);
      var i := 0;
      NoEntry(done, bb);
      while i < |bb.code|
        invariant 0 <= i <= |bb.code|
        invariant code == LinkAll(pcToIdx, done + BlockEntries(bb, i))
      {
        NextEntry(done, bb, i, pcToIdx);
        var ins := bb.code[i];
        if ins.op == OpJmp || ins.op == OpJcc || ins.op == OpCall {
          var targetPc := Wrap64(ins.imm);
          ins := ins.(imm := if targetPc in pcToIdx then pcToIdx[targetPc] else 0);
        }
        code := code + [ins];
        i := i + 1;
      }
      b := b + 1;
    }
    assert blocks[..b] == blocks;
    flat := FlatIr(code, entryPc, pcToIdx);
  }

  /** The first pass: file every instruction start. */
  method FilePcs(blocks: seq<BasicBlock>) returns (pcToIdx: map<Word, Half>)
    requires |Entries(blocks)| < 0x1_0000_0000
    ensures pcToIdx == IndexMap(Entries(blocks))
  {
    hide IndexMap, LinkAll, Entries, BlockEntries;
    NothingYet(blocks, map[]);
    pcToIdx := map[];
    var idx: Half := 0;
    var b := 0;
    while b < |blocks|
      invariant 0 <= b <= |blocks|
      invariant idx == |Entries(blocks[..b])| <= |Entries(blocks)|
      invariant pcToIdx == IndexMap(Entries(blocks[..b]))
    {
      var bb := blocks[b];
      EntriesNext(blocks, b);
      EntriesPrefix(blocks, b + 1);
      ghost var done := Entries(blocks[..b]);
      var i := 0;
      NoEntry(done, bb);
      while i < |bb.code|
        invariant 0 <= i <= |bb.code|
        invariant pcToIdx == IndexMap(done + BlockEntries(bb, i))
      {
        NextEntry(done, bb, i, map[]);
        var gpc := if i < |bb.guestPcs| then bb.guestPcs[i] else Wrap64(bb.guestPc + i);
        pcToIdx := pcToIdx[gpc := idx + i];
        i := i + 1;
      }
      idx := idx + |bb.code|;
      b := b + 1;
    }
    assert blocks[..b] == blocks;
  }

  // ---------------------------------------------------------------- properties

  /** Where a PC is filed, an entry with that PC stands, and it is the last one. */
  lemma {:induction false} IndexMapAt(es: seq<Entry>, pc: Word)
    requires |es| < 0x1_0000_0000
    ensures pc in IndexMap(es) ==>
              IndexMap(es)[pc] < |es| && es[IndexMap(es)[pc]].pc == pc &&
              forall j :: IndexMap(es)[pc] < j < |es| ==> es[j].pc != pc
    ensures pc !in IndexMap(es) ==> forall j :: 0 <= j < |es| ==> es[j].pc != pc
    decreases |es|
  {
    if es != [] {
      IndexMapAt(es[..|es| - 1], pc);
    }
  }

  ghost predicate Ascending(es: seq<Entry>) {
    forall i, j :: 0 <= i < j < |es| ==> es[i].pc < es[j].pc
  }

  ghost predicate Distinct(es: seq<Entry>) {
    forall i, j :: 0 <= i < j < |es| ==> es[i].pc != es[j].pc
  }

  /** For distinct guest PCs, instruction starts and stream indices correspond one to
      one. */
  lemma {:induction false} IndexMapBijection(es: seq<Entry>)
    requires |es| < 0x1_0000_0000 && Distinct(es)
    ensures forall i :: 0 <= i < |es| ==> es[i].pc in IndexMap(es) && IndexMap(es)[es[i].pc] == i
    ensures forall pc :: pc in IndexMap(es) ==> IndexMap(es)[pc] < |es| && es[IndexMap(es)[pc]].pc == pc
  {
    forall pc | pc in IndexMap(es) ensures IndexMap(es)[pc] < |es| && es[IndexMap(es)[pc]].pc == pc {
      IndexMapAt(es, pc);
    }
    forall i | 0 <= i < |es| ensures es[i].pc in IndexMap(es) && IndexMap(es)[es[i].pc] == i {
      IndexMapAt(es, es[i].pc);
    }
  }

  /** A record of the flat code: a branch whose target is filed goes to the last entry
      filed there, another to index 0, and all other records are left as they are. */
  lemma {:induction false} LinkedRecord(es: seq<Entry>, i: nat)
    requires |es| < 0x1_0000_0000 && i < |es|
    ensures
      var ins, r := es[i].ins, LinkAll(IndexMap(es), es)[i];
      var target := ins.imm % 0x1_0000_0000_0000_0000;
      && r == ins.(imm := r.imm) && (ins.op != OpJmp && ins.op != OpJcc && ins.op != OpCall ==> r == ins)
      && (ins.op == OpJmp || ins.op == OpJcc || ins.op == OpCall ==>
            && ((forall j :: 0 <= j < |es| ==> es[j].pc != target) ==> r.imm == 0)
            && forall j :: 0 <= j < |es| && es[j].pc == target && (forall l :: j < l < |es| ==> es[l].pc != target) ==>
                 r.imm == j)
  {
    hide IndexMap;
    IndexMapAt(es, Wrap64(es[i].ins.imm));
  }

  /** Record i of a block stands behind the records of the blocks before it, filed
      under the address listed for it, or else counted from the block's own. */
  lemma {:induction false} EntryAt(before: seq<BasicBlock>, bb: BasicBlock, after: seq<BasicBlock>, i: nat)
    requires i < |bb.code|
    ensures
      var es, k := Entries(before + [bb] + after), |Entries(before)| + i;
      && k < |es| && es[k].ins == bb.code[i]
      && es[k].pc == if i < |bb.guestPcs| then bb.guestPcs[i] else (bb.guestPc + i) % 0x1_0000_0000_0000_0000
  {
    hide Entries, BlockEntries;
    EntriesAppend(before + [bb], after);
    EntriesSnoc(before, bb);
  }

  /** Every resolved target is inside non-empty code. */
  lemma {:induction false} TargetsInside(es: seq<Entry>, i: nat)
    requires |es| < 0x1_0000_0000 && i < |es| && Jumps(es[i].ins)
    ensures 0 <= LinkAll(IndexMap(es), es)[i].imm < |es|
  {
    IndexMapAt(es, Wrap64(es[i].ins.imm));
  }

  /** The two halves of a block cut before its n-th instruction. */
  function Cut(bb: BasicBlock, n: nat): seq<BasicBlock>
    requires n <= |bb.guestPcs| == |bb.code|
  {
    var second := if n < |bb.guestPcs| then bb.guestPcs[n] else bb.guestPc;
    [BasicBlock(bb.guestPc, bb.guestPcs[..n], bb.code[..n]), BasicBlock(second, bb.guestPcs[n..], bb.code[n..])]
  }

  /** Cutting a block in two does not change the stream. */
  lemma {:induction false} CutIndependence(before: seq<BasicBlock>, bb: BasicBlock, after: seq<BasicBlock>, n: nat)
    requires n <= |bb.guestPcs| == |bb.code|
    ensures Entries(before + Cut(bb, n) + after) == Entries(before + [bb] + after)
  {
    CutBlock(bb, n);
    hide Entries, BlockEntries, Cut;
    EntriesAppend(before + [bb], after);
    EntriesAppend(before, [bb]);
    EntriesAppend(before + Cut(bb, n), after);
    EntriesAppend(before, Cut(bb, n));
  }

  lemma {:induction false} CutBlock(bb: BasicBlock, n: nat)
    requires n <= |bb.guestPcs| == |bb.code|
    ensures Entries(Cut(bb, n)) == Entries([bb])
  {
    hide Entries, BlockEntries;
    var c := Cut(bb, n);
    assert c == [c[0]] + [c[1]];
    EntriesAppend([c[0]], [c[1]]);
    EntriesOne(bb);
    EntriesOne(c[0]);
    EntriesOne(c[1]);
    CutEntries(bb, n);
  }

  lemma {:induction false} CutEntries(bb: BasicBlock, n: nat)
    requires n <= |bb.guestPcs| == |bb.code|
    ensures BlockEntries(Cut(bb, n)[0], n) + BlockEntries(Cut(bb, n)[1], |bb.code| - n) == BlockEntries(bb, |bb.code|)
  {
    var c1, c2 := Cut(bb, n)[0], Cut(bb, n)[1];
    var all, e1, e2 := BlockEntries(bb, |bb.code|), BlockEntries(c1, n), BlockEntries(c2, |bb.code| - n);
    hide BlockEntries;
    forall k | 0 <= k < |all| ensures (e1 + e2)[k] == all[k] {
      if k < n {
        assert e1[k] == Entry(PcOf(c1, k), c1.code[k]);
      } else {
        assert e2[k - n] == Entry(PcOf(c2, k - n), c2.code[k - n]);
      }
    }
  }

  lemma {:induction false} EntriesOne(bb: BasicBlock)
    ensures Entries([bb]) == BlockEntries(bb, |bb.code|)
  {
    assert Entries([bb][..0]) == [];
  }

  lemma {:induction false} EmptyEntries()
    ensures Entries([]) == []
  {
  }

  lemma {:induction false} EntriesAppend(b1: seq<BasicBlock>, b2: seq<BasicBlock>)
    ensures Entries(b1 + b2) == Entries(b1) + Entries(b2)
    decreases |b2|
  {
    hide BlockEntries, Entries;
    if b2 == [] {
      assert b1 + b2 == b1;
      EmptyEntries();
    } else {
      var rest, last := b2[..|b2| - 1], b2[|b2| - 1];
      EntriesAppend(b1, rest);
      EntriesSnoc(b1 + rest, last);
      EntriesSnoc(rest, last);
      assert b1 + b2 == b1 + rest + [last] && b2 == rest + [last];
    }
  }

  lemma {:induction false} EntriesSnoc(blocks: seq<BasicBlock>, bb: BasicBlock)
    ensures Entries(blocks + [bb]) == Entries(blocks) + BlockEntries(bb, |bb.code|)
  {
    hide BlockEntries;
    assert (blocks + [bb])[..|blocks|] == blocks;
  }

  // ---------------------------------------------------------------- flat code is compiled code

  /** The entries of a program: each instruction's record under its own PC. */
  ghost predicate EntriesOf(es: seq<Entry>, prog: Program) {
    |es| == |prog| && forall i :: 0 <= i < |prog| ==> es[i] == Entry(prog[i].pc, Emit(prog[i]))
  }

  /** The index map finds what the reference machine finds. */
  lemma {:induction false} IndexMapIsFind(es: seq<Entry>, prog: Program, pc: Word)
    requires GapFree(prog) && EntriesOf(es, prog)
    ensures pc in IndexMap(es) <==> IsStart(prog, pc)
    ensures pc in IndexMap(es) ==> IndexMap(es)[pc] == Find(prog, pc)
  {
    IndexMapAt(es, pc);
    if pc in IndexMap(es) {
      FindPc(prog, IndexMap(es)[pc]);
    } else {
      FindNone(prog, pc);
    }
  }

  /** Flattening a closed program compiles it in the sense of the simulation. */
  lemma {:induction false} FlatIsCompiled(es: seq<Entry>, prog: Program)
    requires Closed(prog) && EntriesOf(es, prog)
    ensures
      var code := LinkAll(IndexMap(es), es);
      && (forall i :: 0 <= i < |code| ==> code[i].Valid())
      && Compiled(code, prog)
  {
    var code := LinkAll(IndexMap(es), es);
    forall i | 0 <= i < |prog| ensures code[i].Valid() && code[i] == Resolve(prog, prog[i]) {
      LinkIsResolve(es, prog, i);
    }
  }

  lemma {:induction false} LinkIsResolve(es: seq<Entry>, prog: Program, i: nat)
    requires Closed(prog) && EntriesOf(es, prog) && i < |prog|
    ensures var ins := Link(IndexMap(es), es[i].ins); ins.Valid() && ins == Resolve(prog, prog[i])
  {
    hide IndexMap, Find;
    var insn := prog[i];
    EmitValid(insn);
    EmitJumps(insn);
    if Branches(insn) {
      assert IsStart(prog, insn.target);
      IndexMapIsFind(es, prog, insn.target);
    }
  }

  /** Only branches are lowered to branch records, and they carry their target. */
  lemma {:induction false} EmitJumps(insn: Instruction)
    ensures Jumps(Emit(insn)) <==> Branches(insn)
    ensures Branches(insn) ==> Wrap64(Emit(insn).imm) == insn.target
  {
    SignedRoundTrip(insn.target);
    EmitOp(insn);
    hide Signed;
  }

  lemma {:induction false} EmitOp(insn: Instruction)
    ensures Jumps(Emit(insn)) <==> Branches(insn)
  {
    hide Signed, SetBit, SibAux, MapBinOp, Wrap32;
  }
}
