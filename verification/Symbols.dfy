/** What a load makes of symbols, in the terms of the object file.
 *
 * Section 4.4.1 of the System V ABI, AMD64 supplement: S is the address of a
 * symbol, A the addend and P the place of the field.
 */
module Symbols {
  import opened Words
  import opened Memory
  import opened Machine
  import opened X86
  import opened DecoderSpec
  import opened Translator
  import opened Placement
  import opened Relocation
  import opened Loader
  import opened Linking

  /** The address of each section once the four are placed, 0 for any other. */
  function Addresses(obj: ObjectFile, base: Word, mem: seq<Byte>): (addr: seq<Word>)
    requires |mem| < 0x1_0000_0000_0000_0000
    ensures |addr| == |obj.sections|
  {
    LaidOut(obj, base, mem).addr
  }

  /** s is the value of symbol number sym: its offset from its section's address, 0
      for an undefined or missing symbol, the value itself for an absolute one. */
  predicate Stands(obj: ObjectFile, addr: seq<Word>, sym: nat, s: int)
    requires |addr| == |obj.sections|
  {
    if sym >= |obj.symbols| then s == 0
    else
      var symbol := obj.symbols[sym];
      && (symbol.shndx == 0 ==> s == 0)
      && (0 < symbol.shndx < |addr| ==> s == addr[symbol.shndx] + symbol.value)
      && (symbol.shndx > 0 && symbol.shndx >= |addr| ==> s == symbol.value)
  }

  /** Relocation j of table i has its field at place, with eight bytes of RAM there,
      and refers to s. */
  predicate Refers(obj: ObjectFile, base: Word, mem: seq<Byte>, i: nat, j: nat, place: int, s: int)
    requires obj.Valid() && |mem| < 0x1_0000_0000_0000_0000
  {
    && i < |obj.sections| && j < |obj.relas[i]|
    // SHT_RELA
    && obj.sections[i].kind == 4 && obj.sections[i].info < |obj.sections|
    && place == (Addresses(obj, base, mem)[obj.sections[i].info] + obj.relas[i][j].offset) % 0x1_0000_0000_0000_0000
    && place + 8 <= |mem|
    && Stands(obj, Addresses(obj, base, mem), obj.relas[i][j].sym, s)
  }

  /** After a load in which no two patched fields overlap: a 64-bit field (type 1)
      holds S + A, a 32-bit one (types 10 and 11) its low half, and a PC-relative one
      (type 2) the low half of S + A - P. */
  lemma {:induction false} FieldMeans(obj: ObjectFile, base: Word, mem: seq<Byte>, i: nat, j: nat, place: Word, s: int)
    requires obj.Valid() && |mem| < 0x1_0000_0000_0000_0000 && AlignmentsValid(obj) && Succeeds(obj, base, mem)
    requires AllDisjoint(FixesOf(obj, Addresses(obj, base, mem), |mem|))
    requires Refers(obj, base, mem, i, j, place, s)
    ensures
      var final, a := LoadResult(obj, base, mem).mem, obj.relas[i][j].addend;
      && (obj.relas[i][j].kind == 1 ==> LoadMem(final, place, 8) == (s + a) % 0x1_0000_0000_0000_0000)
      && (obj.relas[i][j].kind == 10 || obj.relas[i][j].kind == 11 ==>
            LoadMem(final, place, 4) == (s + a) % 0x1_0000_0000)
      && (obj.relas[i][j].kind == 2 ==> LoadMem(final, place, 4) == (s + a - place) % 0x1_0000_0000)
  {
    hide LoadResult, AllDisjoint, AllFields, LoadMem, Sound, NoAlignWrap, AlignmentsValid, FieldKept, Untouched,
         LaidOut, Applied, SymValue, Formula;
    LoadSound(obj, base, mem);
    assert FieldHolds(obj, Addresses(obj, base, mem), |mem|, i, j, LoadResult(obj, base, mem).mem);
    FormulaMeans(obj, Addresses(obj, base, mem), obj.relas[i][j], place, s);
  }

  lemma {:induction false} FormulaMeans(obj: ObjectFile, addr: seq<Word>, rela: Rela, place: Word, s: int)
    requires |addr| == |obj.sections| && Stands(obj, addr, rela.sym, s)
    ensures
      var v, a := Formula(rela.kind, SymValue(obj.symbols, addr, rela.sym), rela.addend, place), rela.addend;
      && (rela.kind == 1 ==> Trunc(v, 8) == (s + a) % 0x1_0000_0000_0000_0000)
      && (rela.kind == 10 || rela.kind == 11 ==> Trunc(v, 4) == (s + a) % 0x1_0000_0000)
      && (rela.kind == 2 ==> Trunc(v, 4) == (s + a - place) % 0x1_0000_0000)
  {
    SymbolMeans(obj, addr, rela.sym, s);
    WrapAdd(s, rela.addend);
    WrapAdd(s, rela.addend - place);
    hide SymValue, Stands, Wrap64;
    TruncWrap(s + rela.addend, 8);
    TruncWrap(s + rela.addend, 4);
    TruncWrap(s + rela.addend - place, 4);
  }

  lemma {:induction false} SymbolMeans(obj: ObjectFile, addr: seq<Word>, sym: nat, s: int)
    requires |addr| == |obj.sections| && Stands(obj, addr, sym, s)
    ensures SymValue(obj.symbols, addr, sym) == Wrap64(s)
  {
  }

  /** Symbol k is the first function called _start. */
  predicate IsStart(obj: ObjectFile, k: nat) {
    && k < |obj.symbols| && obj.symbols[k].info % 16 == 2 && obj.symbols[k].name == "_start"
    && forall j :: 0 <= j < k ==> !(obj.symbols[j].info % 16 == 2 && obj.symbols[j].name == "_start")
  }

  predicate HasStart(obj: ObjectFile) {
    exists k :: 0 <= k < |obj.symbols| && obj.symbols[k].info % 16 == 2 && obj.symbols[k].name == "_start"
  }

  /** Section t is the first called .text. */
  predicate IsText(obj: ObjectFile, t: nat) {
    && t < |obj.sections| && obj.sections[t].name == ".text"
    && forall j :: 0 <= j < t ==> obj.sections[j].name != ".text"
  }

  /** The image reported: code is the first section called .text; the entry is the
      value of the first function called _start, unless that is 0 or there is none
      or there is no string table, and then the start of the code. */
  lemma {:induction false} EntryMeans(obj: ObjectFile, base: Word, mem: seq<Byte>, t: nat)
    requires obj.Valid() && |mem| < 0x1_0000_0000_0000_0000 && Succeeds(obj, base, mem) && IsText(obj, t)
    ensures
      var image, addr := LoadResult(obj, base, mem).image, Addresses(obj, base, mem);
      && image.codeAddr == addr[t] && image.codeSize == obj.sections[t].size && image.error == ""
      && (forall k: nat, s: int :: obj.named && IsStart(obj, k) && Stands(obj, addr, k, s) ==>
            image.entry == if s % 0x1_0000_0000_0000_0000 == 0 then addr[t] else s % 0x1_0000_0000_0000_0000)
      && (!obj.named || !HasStart(obj) ==> image.entry == addr[t])
  {
    hide LaidOut, Stands, SymValue, IsStart, Stray, FieldsOf, FixesOf;
    TextFound(obj.sections, t, 0);
    var addr := Addresses(obj, base, mem);
    forall k: nat, s: int | obj.named && IsStart(obj, k) && Stands(obj, addr, k, s)
      ensures StartSymbol(obj.symbols, addr, 0) == Wrap64(s)
    {
      StartFound(obj, addr, k, 0);
      SymbolMeans(obj, addr, k, s);
    }
    if !HasStart(obj) {
      NoStart(obj, addr, 0);
    }
  }

  lemma {:induction false} TextFound(sections: seq<Section>, t: nat, from: nat)
    requires from <= t < |sections| && sections[t].name == ".text"
    requires forall j :: 0 <= j < t ==> sections[j].name != ".text"
    ensures FindName(sections, ".text", from) == t
    decreases t - from
  {
    if from < t {
      TextFound(sections, t, from + 1);
    }
  }

  lemma {:induction false} StartFound(obj: ObjectFile, addr: seq<Word>, k: nat, from: nat)
    requires IsStart(obj, k) && from <= k
    ensures StartSymbol(obj.symbols, addr, from) == SymValue(obj.symbols, addr, k)
    decreases k - from
  {
    hide SymValue;
    if from < k {
      StartFound(obj, addr, k, from + 1);
    }
  }

  lemma {:induction false} NoStart(obj: ObjectFile, addr: seq<Word>, from: nat)
    requires !HasStart(obj) && from <= |obj.symbols|
    ensures StartSymbol(obj.symbols, addr, from) == 0
    decreases |obj.symbols| - from
  {
    hide SymValue;
    if from < |obj.symbols| {
      NoStart(obj, addr, from + 1);
    }
  }

  // ---------------------------------------------------------------- sections

  /** The names of the sections that are placed, in their order in memory. */
  const NAMES: seq<string> := [".text", ".rodata", ".data", ".bss"]

  /** Section i is the first with the n-th of these names. */
  predicate IsNamed(obj: ObjectFile, n: nat, i: nat) {
    && n < 4 && i < |obj.sections| && obj.sections[i].name == NAMES[n]
    && forall j :: 0 <= j < i ==> obj.sections[j].name != NAMES[n]
  }

  lemma {:induction false} NameFound(sections: seq<Section>, name: string, i: nat, from: nat)
    requires from <= i < |sections| && sections[i].name == name
    requires forall j :: 0 <= j < i ==> sections[j].name != name
    ensures FindName(sections, name, from) == i
    decreases i - from
  {
    if from < i {
      NameFound(sections, name, i, from + 1);
    }
  }

  lemma {:induction false} OrderIs(obj: ObjectFile, n: nat, i: nat)
    requires IsNamed(obj, n, i)
    ensures |Order(obj.sections)| == 4 && Order(obj.sections)[n] == i
  {
    NameFound(obj.sections, NAMES[n], i, 0);
  }

  /** A placed section: at or behind the base, aligned, inside RAM, and holding the
      file's bytes, or zeros if it has none there (type 8). */
  lemma {:induction false} SectionHolds(obj: ObjectFile, base: Word, mem: seq<Byte>, n: nat, i: nat)
    requires obj.Valid() && |mem| < 0x1_0000_0000_0000_0000 && AlignmentsValid(obj) && Succeeds(obj, base, mem)
    requires NoAlignWrap(obj.sections, obj.file, Initial(obj, base, mem), Order(obj.sections)) && IsNamed(obj, n, i)
    ensures
      var at, s, placed := Addresses(obj, base, mem)[i], obj.sections[i], LaidOut(obj, base, mem).mem;
      && base <= at && at % (if s.align > 1 then s.align else 1) == 0
      && (s.size > 0 ==>
            && at + s.size <= |mem| == |placed|
            && (s.kind == 8 ==> forall a :: at <= a < at + s.size ==> placed[a] == 0)
            && (s.kind != 8 ==>
                  && s.offset + s.size <= |obj.file|
                  && placed[at..at + s.size] == obj.file[s.offset..s.offset + s.size]))
  {
    hide LoadResult, NoAlignWrap, AlignmentsValid, LaidOut, FieldHolds, FieldKept, Order, AllDisjoint, FixesOf,
         Untouched, Covered;
    LoadSound(obj, base, mem);
    OrderIs(obj, n, i);
    var lay := LaidOut(obj, base, mem);
    var k: int := n;
    assert Order(obj.sections)[k] == i;
    assert Placement.Holds(obj.sections, obj.file, lay, i, base, lay.cursor);
    if obj.sections[i].size > 0 {
      BytesHeld(obj.sections, obj.file, lay, i, base, lay.cursor);
    }
  }

  lemma {:induction false} BytesHeld(sections: seq<Section>, file: seq<Byte>, lay: Layout, i: nat, lo: int, hi: int)
    requires i < |sections| == |lay.addr| && Placement.Holds(sections, file, lay, i, lo, hi) && sections[i].size > 0
    ensures
      var at, s := lay.addr[i], sections[i];
      && at + s.size <= |lay.mem|
      && (s.kind == 8 ==> forall a :: at <= a < at + s.size ==> lay.mem[a] == 0)
      && (s.kind != 8 ==>
            && s.offset + s.size <= |file| && lay.mem[at..at + s.size] == file[s.offset..s.offset + s.size])
  {
    var at, s := lay.addr[i], sections[i];
    var held := lay.mem[at..at + s.size];
    forall j | 0 <= j < s.size ensures held[j] == Contents(s, file)[j] {
    }
    assert held == Contents(s, file);
    forall a | at <= a < at + s.size ensures lay.mem[a] == held[a - at] {
    }
  }

  /** The sections follow each other without overlapping. */
  lemma {:induction false} SectionsFollow(obj: ObjectFile, base: Word, mem: seq<Byte>, m: nat, i: nat, n: nat, j: nat)
    requires obj.Valid() && |mem| < 0x1_0000_0000_0000_0000 && AlignmentsValid(obj) && Succeeds(obj, base, mem)
    requires NoAlignWrap(obj.sections, obj.file, Initial(obj, base, mem), Order(obj.sections))
    requires IsNamed(obj, m, i) && IsNamed(obj, n, j) && m < n
    ensures Addresses(obj, base, mem)[i] + obj.sections[i].size <= Addresses(obj, base, mem)[j]
  {
    hide LoadResult, NoAlignWrap, AlignmentsValid, LaidOut, FieldHolds, FieldKept, Order, AllDisjoint, FixesOf,
         Untouched, Covered, Placement.Holds;
    LoadSound(obj, base, mem);
    OrderIs(obj, m, i);
    OrderIs(obj, n, j);
    var a: int, b: int := m, n;
    assert Order(obj.sections)[a] == i && Order(obj.sections)[b] == j;
  }

  // ---------------------------------------------------------------- calls and addresses

  /** A difference that fits 32 signed bits, in 64-bit arithmetic. */
  predicate Near(d: int) {
    var r := d % 0x1_0000_0000_0000_0000;
    r < 0x8000_0000 || r >= 0xFFFF_FFFF_8000_0000
  }

  lemma {:induction false} NearIsFits(s: int, place: Word)
    ensures FitsPc32(Wrap64(s), place) <==> Near(s - 4 - place)
  {
    WrapAdd(s, -4 - place as int);
  }

  /** A call, relocated by type 2 with addend -4 against the function at s: after the
      load it decodes to a call of s, exactly if s is near. */
  lemma {:induction false} CallReaches(obj: ObjectFile, base: Word, mem: seq<Byte>, i: nat, j: nat, pc: Word, s: int)
    requires obj.Valid() && |mem| < 0x1_0000_0000_0000_0000 && AlignmentsValid(obj) && Succeeds(obj, base, mem)
    requires AllDisjoint(FixesOf(obj, Addresses(obj, base, mem), |mem|))
    requires Refers(obj, base, mem, i, j, pc + 1, s) && obj.relas[i][j].kind == 2 && obj.relas[i][j].addend == -4
    requires Kept(obj, base, mem, pc) && LaidOut(obj, base, mem).mem[pc] == 0xE8
    ensures pc <= |LoadResult(obj, base, mem).mem|
    ensures
      var d := Decode(LoadResult(obj, base, mem).mem[pc..], pc);
      && d.Done? && d.insn.kind == Call
      && (d.insn.target == s % 0x1_0000_0000_0000_0000 <==> Near(s - 4 - (pc + 1)))
  {
    hide Decode, LoadResult, Kept, AlignmentsValid, LaidOut, AllDisjoint, FixesOf, SymValue, Succeeds, FitsPc32, Near,
         Stands;
    LoadedCallIff(obj, base, mem, i, j, pc);
    SymbolMeans(obj, Addresses(obj, base, mem), obj.relas[i][j].sym, s);
    NearIsFits(s, pc + 1);
  }

  /** The same for the address of a lea. */
  lemma {:induction false} LeaReaches(obj: ObjectFile, base: Word, mem: seq<Byte>, i: nat, j: nat, pc: Word, s: int)
    requires obj.Valid() && |mem| < 0x1_0000_0000_0000_0000 && AlignmentsValid(obj) && Succeeds(obj, base, mem)
    requires AllDisjoint(FixesOf(obj, Addresses(obj, base, mem), |mem|))
    requires Refers(obj, base, mem, i, j, pc + 3, s) && obj.relas[i][j].kind == 2 && obj.relas[i][j].addend == -4
    requires Kept(obj, base, mem, pc) && Kept(obj, base, mem, pc + 1) && Kept(obj, base, mem, pc + 2)
    requires var m := LaidOut(obj, base, mem).mem;
             m[pc] / 16 == 4 && m[pc + 1] == 0x8D && m[pc + 2] / 64 == 0 && m[pc + 2] % 8 == 5
    ensures pc <= |LoadResult(obj, base, mem).mem|
    ensures
      var d := Decode(LoadResult(obj, base, mem).mem[pc..], pc);
      && d.Done? && d.insn.kind == Lea
      && (Emit(d.insn).imm % 0x1_0000_0000_0000_0000 == s % 0x1_0000_0000_0000_0000 <==> Near(s - 4 - (pc + 3)))
  {
    hide Decode, LoadResult, Kept, AlignmentsValid, LaidOut, AllDisjoint, FixesOf, SymValue, Succeeds, FitsPc32, Near,
         Stands, Emit;
    LoadedLeaIff(obj, base, mem, i, j, pc);
    SymbolMeans(obj, Addresses(obj, base, mem), obj.relas[i][j].sym, s);
    NearIsFits(s, pc + 3);
  }
}
