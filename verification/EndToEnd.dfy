/** From guest bytes to finished vCPUs.
 *
 * Decoding, block-wise translation and flattening are composed, and the result
 * is connected to the reference machine and to the backends.
 */
module EndToEnd {
  import opened Words
  import opened Machine
  import opened Ir
  import opened Schedule
  import opened X86
  import opened DecoderSpec
  import opened DecoderFacts
  import opened Flatten
  import opened Blocks
  import opened Backends
  import opened Reference
  import opened Simulation
  import opened Preservation

  /** The code the emulator runs for the bytes s at address pc. */
  function CodeFor(s: seq<Byte>, pc: Word): seq<Instr>
    requires |Entries(Translated(s, pc))| < 0x1_0000_0000
  {
    LinkAll(IndexMap(Entries(Translated(s, pc))), Entries(Translated(s, pc)))
  }

  /** Instructions decoded in order are no more than the bytes. */
  lemma {:induction false} CountBound(insns: seq<Instruction>, base: Word, lo: int, hi: int)
    requires Ordered(insns, base, lo, hi)
    ensures |insns| <= hi - lo
    decreases |insns|
  {
    hide Behind;
    if insns != [] {
      CountBound(insns[1..], base, Behind(base, insns[0].pc) + insns[0].size, hi);
    }
  }

  lemma {:induction false} EntryCount(s: seq<Byte>, pc: Word)
    requires |s| <= 0x1_0000_0000_0000_0000
    ensures |Entries(Translated(s, pc))| == |AllDecoded(s, pc)| <= |s|
  {
    hide Entries, Translated, AllDecoded, Ordered;
    BlockEntriesOf(s, pc);
    DecodedInOrder(s, pc);
    CountBound(AllDecoded(s, pc), pc, 0, |s|);
  }

  /** `Emulator::translate`: the code section of guest RAM becomes flat IR, filed
      under strictly increasing addresses whatever the bytes are. */
  method TranslateCode(ram: seq<Byte>, codeBase: Word, codeSize: nat) returns (flat: FlatIr)
    requires codeBase + codeSize <= |ram| < 0x1_0000_0000_0000_0000 && codeSize < 0x1_0000_0000
    ensures
      var s := ram[codeBase..codeBase + codeSize];
      var es := Entries(Translated(s, codeBase));
      && |es| <= codeSize && flat.entryPc == codeBase
      && flat.code == CodeFor(s, codeBase) && flat.pcToIdx == IndexMap(es)
      && |flat.pcToIdx| == |flat.code|
      && (forall i :: 0 <= i < |es| ==> es[i].pc in flat.pcToIdx && flat.pcToIdx[es[i].pc] == i)
  {
    hide Translated, Entries, IndexMap, LinkAll;
    var s := ram[codeBase..codeBase + codeSize];
    var blocks := Blocks.Translate(s, codeBase);
    EntryCount(s, codeBase);
    flat := FlattenIr(blocks, codeBase);
    DecodedInOrder(s, codeBase);
    IndexMapBijection(Entries(blocks));
    IndexMapSize(Entries(blocks));
  }

  /** Distinct addresses, one index each. */
  lemma {:induction false} IndexMapSize(es: seq<Entry>)
    requires |es| < 0x1_0000_0000 && Distinct(es)
    ensures |IndexMap(es)| == |es|
    decreases |es|
  {
    if es != [] {
      var front, last := es[..|es| - 1], es[|es| - 1];
      IndexMapSize(front);
      IndexMapAt(front, last.pc);
      assert last.pc !in IndexMap(front);
      assert IndexMap(es).Keys == IndexMap(front).Keys + {last.pc};
      SameSize(IndexMap(es));
      SameSize(IndexMap(front));
    }
  }

  lemma {:induction false} SameSize(m: map<Word, Half>)
    ensures |m| == |m.Keys|
  {
  }

  // ---------------------------------------------------------------- one sweep is a program

  /** A sweep leaves no gaps: each instruction begins where the last one ends. */
  lemma {:induction false} SweepFollows(s: seq<Byte>, pc: Word)
    requires pc + |s| < 0x1_0000_0000_0000_0000
    ensures
      var insns := Sweep(s, pc);
      && (insns != [] ==> insns[0].pc == pc)
      && (forall i :: 0 <= i < |insns| ==> insns[i].size > 0 && insns[i].pc + insns[i].size <= pc + |s|)
      && (forall i :: 0 < i < |insns| ==> Follows(insns, i))
    decreases |s|
  {
    hide Decode, Sweep, Stop, Extent, Wrap64;
    UnfoldSweep(s, pc);
    DecodedPc(s, pc);
    var d := Decode(s, pc);
    if d.Done? {
      var size := d.insn.size;
      WrapInside(pc, size, |s|);
      var rest := Sweep(s[size..], pc + size);
      SweepFollows(s[size..], pc + size);
      var insns := [d.insn] + rest;
      forall i | 0 < i < |insns| ensures Follows(insns, i) {
        assert insns[i] == rest[i - 1];
        if i > 1 {
          assert Follows(rest, i - 1);
          assert insns[i - 1] == rest[i - 2];
        }
      }
      forall i | 0 <= i < |insns| ensures insns[i].size > 0 && insns[i].pc + insns[i].size <= pc + |s| {
        if i > 0 {
          assert insns[i] == rest[i - 1];
        }
      }
    }
  }

  /** A fully decoding stream covers the region from end to end. */
  lemma {:induction false} SweepCovers(s: seq<Byte>, pc: Word)
    requires pc + |s| < 0x1_0000_0000_0000_0000 && FullyDecodes(s, pc) && s != []
    ensures
      var insns := Sweep(s, pc);
      && insns != [] && insns[0].pc == pc
      && insns[|insns| - 1].pc + insns[|insns| - 1].size == pc + |s|
      && forall i :: 0 < i < |insns| ==> Follows(insns, i)
  {
    hide Sweep;
    SweepFollows(s, pc);
    var insns := Sweep(s, pc);
    ExtentOfChain(insns, |insns| - 1);
    assert insns[..|insns|] == insns;
  }

  lemma {:induction false} ExtentOfChain(insns: seq<Instruction>, i: nat)
    requires i < |insns| && forall k :: 0 < k < |insns| ==> Follows(insns, k)
    ensures Extent(insns[..i + 1]) == insns[i].pc + insns[i].size - insns[0].pc
    decreases i
  {
    assert insns[..i + 1] == insns[..i] + [insns[i]];
    ExtentAppend(insns[..i], [insns[i]]);
    assert Extent([insns[i]]) == insns[i].size + Extent([insns[i]][1..]);
    if i > 0 {
      ExtentOfChain(insns, i - 1);
      assert Follows(insns, i);
    }
  }

  /** Bytes that decode to their end, into a closed program: what the emulator
      runs for them is their instructions, record for instruction. */
  lemma {:induction false} BytesAreCompiled(s: seq<Byte>, pc: Word)
    requires pc + |s| < 0x1_0000_0000_0000_0000 && |s| < 0x1_0000_0000
    requires FullyDecodes(s, pc) && Closed(Sweep(s, pc))
    ensures |Entries(Translated(s, pc))| < 0x1_0000_0000
    ensures (forall i :: 0 <= i < |CodeFor(s, pc)| ==> CodeFor(s, pc)[i].Valid()) && |CodeFor(s, pc)| < 0x1_0000_0000
    ensures Compiled(CodeFor(s, pc), Sweep(s, pc))
    ensures forall p :: IndexFor(IndexMap(Entries(Translated(s, pc))), p) ==
                        if IsStart(Sweep(s, pc), p) then Find(Sweep(s, pc), p) else 0
  {
    hide Sweep, Translated, Entries, AllDecoded, Closed, Find, LinkAll, IndexMap;
    EntryCount(s, pc);
    FullyDecodedBlocks(s, pc);
    BlockEntriesOf(s, pc);
    var es, prog := Entries(Translated(s, pc)), Sweep(s, pc);
    FlatIsCompiled(es, prog);
    assert GapFree(prog) by { ClosedGapFree(prog); }
    forall p: Word ensures IndexFor(IndexMap(es), p) == if IsStart(prog, p) then Find(prog, p) else 0 {
      IndexMapIsFind(es, prog, p);
    }
  }

  lemma {:induction false} ClosedGapFree(prog: Program)
    requires Closed(prog)
    ensures GapFree(prog)
  {
  }

  /** The whole path: guest bytes that decode to their end and are well formed
      are decoded, translated, flattened and run.  If the reference machine halts
      on the decoded instructions within k steps, s of which halt or trap, the vCPU
      halts within ceil(k / 4096) + s rounds, with the reference machine's
      registers, flags and exit value. */
  lemma {:induction false} BytesRunLikeReference(s: seq<Byte>, pc: Word, cpu: Cpu, mem: seq<Byte>, entry: Word,
                                                 k: nat, rounds: nat)
    requires pc + |s| < 0x1_0000_0000_0000_0000 && |s| < 0x1_0000_0000
    requires FullyDecodes(s, pc) && WellFormed(Sweep(s, pc)) && IsStart(Sweep(s, pc), entry)
    requires |mem| < 0x1_0000_0000_0000_0000
    requires DisciplinedRun(Sweep(s, pc), State(cpu, mem, entry), NO_SLOTS, k)
    requires RefAlone(Sweep(s, pc), State(cpu, mem, entry), k).cpu.halt
    ensures
      (BytesAreCompiled(s, pc);
       var start: Guest := State(cpu, mem, IndexFor(IndexMap(Entries(Translated(s, pc))), entry));
       var final := Rounds(CodeFor(s, pc), start, rounds);
       var r := RefAlone(Sweep(s, pc), State(cpu, mem, entry), k);
       var t := RunTrack(Sweep(s, pc), State(cpu, mem, entry), NO_SLOTS, k);
       && (Suffices(rounds, k, RefStops(Sweep(s, pc), State(cpu, mem, entry), k)) ==> final.cpu.halt)
       && (final.cpu.halt ==> final.cpu == r.cpu && MemRelated(Sweep(s, pc), r.mem, final.mem, t)))
  {
    hide Sweep, Translated, Entries, Find, Rounds, MemRelated, Compiled, DisciplinedRun, RefAlone, RunTrack, IndexMap,
         CodeFor, Closed, InFragment, Suffices, RefStops;
    BytesAreCompiled(s, pc);
    BackendRunsGuest(Sweep(s, pc), CodeFor(s, pc), cpu, mem, entry, k, rounds);
  }
}
