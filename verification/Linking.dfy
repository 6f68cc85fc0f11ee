/** Linking and decoding fit together.
 *
 * A PC-relative relocation with addend -4 on the trailing displacement of a call
 * or of a RIP-relative lea is what the assembler emits for a symbol; the decoder
 * must then find the symbol's address.
 */
module Linking {
  import opened Words
  import opened Memory
  import opened Machine
  import opened Ir
  import opened X86
  import opened DecoderSpec
  import opened ModRm
  import opened Translator
  import opened Relocation
  import opened Placement
  import opened Loader

  /** S + A - P, as a 64-bit two's-complement number, fits 32 signed bits. */
  predicate FitsPc32(symbol: Word, place: Word) {
    -0x8000_0000 <= Signed(symbol - 4 - place, 8) < 0x8000_0000
  }

  /** The field a PC32 relocation with addend -4 leaves at place. */
  function Pc32Field(symbol: Word, place: Word): Word {
    Trunc(Wrap64(symbol - 4 - place), 4)
  }

  /** A 32-bit difference added back is exact exactly if it fits. */
  lemma {:induction false} DifferenceIff(symbol: Word, place: Word)
    ensures Wrap64(place + 4 + Signed(Pc32Field(symbol, place), 4)) == symbol <==> FitsPc32(symbol, place)
  {
    var d: int := symbol - 4 - place;
    var w: int := Wrap64(d);
    var q := d / 0x1_0000_0000_0000_0000;
    assert d == 0x1_0000_0000_0000_0000 * q + w;
    var h, l := w / 0x1_0000_0000, w % 0x1_0000_0000;
    assert Pc32Field(symbol, place) == l;
    var s := Signed(l, 4);
    assert Signed(Pc32Field(symbol, place), 4) == s && (s == l || s == l - 0x1_0000_0000);
    if FitsPc32(symbol, place) {
      assert Signed(d, 8) == s;
      assert place + 4 + s == symbol + 0x1_0000_0000_0000_0000 * (if w < 0x8000_0000_0000_0000 then -q else -q - 1);
    } else {
      var m := if s == l then h else h + 1;
      assert w == s + 0x1_0000_0000 * m;
      assert 0 < m < 0x1_0000_0000;
      assert place + 4 + s == symbol - 0x1_0000_0000_0000_0000 * q - 0x1_0000_0000 * m;
      NotCongruent(symbol, q, m);
    }
  }

  /** Subtracting a proper multiple of 2^32 below 2^64 changes a wrapped value. */
  lemma {:induction false} NotCongruent(symbol: Word, q: int, m: int)
    requires 0 < m < 0x1_0000_0000
    ensures Wrap64(symbol - 0x1_0000_0000_0000_0000 * q - 0x1_0000_0000 * m) != symbol
  {
    var x := symbol - 0x1_0000_0000_0000_0000 * q - 0x1_0000_0000 * m;
    var d: int := symbol - 0x1_0000_0000 * m;
    if d >= 0 {
      ModUnique(x, 0x1_0000_0000_0000_0000, -q, d);
    } else {
      ModUnique(x, 0x1_0000_0000_0000_0000, -q - 1, d + 0x1_0000_0000_0000_0000);
    }
  }

  /** The bytes of a relocated field, as the decoder fetches them. */
  lemma {:induction false} FieldFetched(s: seq<Byte>, cur: Cursor)
    requires cur.k + 4 <= |s| && cur.k < 16
    ensures Fetch(s, cur, 4) == Fetched(LoadMem(s, cur.k, 4), Cursor(cur.k + 4, cur.clean))
  {
    LoadMemIsLE(s, cur.k, 4);
  }

  /** A call whose displacement was relocated against a symbol decodes to a call of
      the symbol's address, exactly if S + A - P fits 32 signed bits. */
  lemma {:induction false} LinkedCallIff(s: seq<Byte>, pc: Word, symbol: Word)
    requires |s| >= 5 && s[0] == 0xE8 && pc + 5 < 0x1_0000_0000_0000_0000
    requires LoadMem(s, 1, 4) == Pc32Field(symbol, pc + 1)
    ensures
      var d := Decode(s, pc);
      && d.Done? && d.clean && d.insn.kind == Call && d.insn.size == 5
      && (d.insn.target == symbol <==> FitsPc32(symbol, pc + 1))
  {
    FetchByte(s, Cursor(0, true));
    FieldFetched(s, Cursor(1, true));
    DifferenceIff(symbol, pc + 1);
    hide Fetch, Signed, LoadMem, Pc32Field, FitsPc32;
  }

  /** The same for the immediate of the IR record of a RIP-relative lea. */
  lemma {:induction false} LinkedLeaIff(s: seq<Byte>, pc: Word, symbol: Word)
    requires |s| >= 7 && s[0] / 16 == 4 && s[1] == 0x8D && s[2] / 64 == 0 && s[2] % 8 == 5
    requires pc + 7 < 0x1_0000_0000_0000_0000
    requires LoadMem(s, 3, 4) == Pc32Field(symbol, pc + 3)
    ensures
      var d := Decode(s, pc);
      && d.Done? && d.clean && d.insn.kind == Lea && d.insn.size == 7 && d.insn.src.ripRel
      && (Wrap64(Emit(d.insn).imm) == symbol <==> FitsPc32(symbol, pc + 3))
  {
    LeaDecoded(s, pc);
    var d := Decode(s, pc);
    DifferenceIff(symbol, pc + 3);
    hide Decode, LoadMem, Pc32Field, FitsPc32;
    LeaImmediate(d.insn);
  }

  lemma {:induction false} LeaImmediate(insn: Instruction)
    requires insn.kind == Lea && insn.src.ripRel
    ensures Wrap64(Emit(insn).imm) == Wrap64(insn.pc + insn.size + insn.src.disp)
  {
  }

  lemma {:induction false} LeaDecoded(s: seq<Byte>, pc: Word)
    requires |s| >= 7 && s[0] / 16 == 4 && s[1] == 0x8D && s[2] / 64 == 0 && s[2] % 8 == 5
    ensures
      var d := Decode(s, pc);
      && d.Done? && d.clean && d.insn.kind == Lea && d.insn.size == 7 && d.insn.src.ripRel && d.insn.pc == pc
      && d.insn.src.disp == Signed(LoadMem(s, 3, 4), 4) && d.insn.dst.reg == DecodeReg((s[2] / 8) % 8, s[0], false)
  {
    FetchByte(s, Cursor(1, true));
    FieldFetched(s, Cursor(3, true));
    hide Fetch, Signed, LoadMem, DecodeReg, ParseSib, ParseDisp, DecodeGroup, DecodeMovImm, DecodeShift, DecodeIncDec,
         DecodeBranch, Decode0f;
  }

  /** Relocation j of section i is a PC32 with addend -4 and its field is at place,
      with eight bytes of RAM there, in a load in which no two patched fields
      overlap. */
  predicate PcRelative(obj: ObjectFile, base: Word, mem: seq<Byte>, i: nat, j: nat, place: int)
    requires obj.Valid() && |mem| < 0x1_0000_0000_0000_0000
  {
    && AllDisjoint(FixesOf(obj, LaidOut(obj, base, mem).addr, |mem|))
    && i < |obj.sections| && j < |obj.relas[i]| && Listed(obj, i, j)
    && obj.relas[i][j].kind == R_PC32 && obj.relas[i][j].addend == -4
    && FieldAt(obj, LaidOut(obj, base, mem).addr, i, j).addr == place <= |mem| - 8
  }

  /** The byte a is code that no relocation patches. */
  predicate Kept(obj: ObjectFile, base: Word, mem: seq<Byte>, a: int)
    requires obj.Valid() && |mem| < 0x1_0000_0000_0000_0000
  {
    0 <= a < |mem| && Untouched(FixesOf(obj, LaidOut(obj, base, mem).addr, |mem|), a)
  }

  /** The symbol a relocation refers to. */
  function SymbolOf(obj: ObjectFile, base: Word, mem: seq<Byte>, i: nat, j: nat): Word
    requires obj.Valid() && |mem| < 0x1_0000_0000_0000_0000 && i < |obj.sections| && j < |obj.relas[i]|
  {
    SymValue(obj.symbols, LaidOut(obj, base, mem).addr, obj.relas[i][j].sym)
  }

  /** What such a relocation leaves in memory. */
  lemma {:induction false} PcField(obj: ObjectFile, base: Word, mem: seq<Byte>, i: nat, j: nat, place: Word)
    requires obj.Valid() && |mem| < 0x1_0000_0000_0000_0000 && AlignmentsValid(obj) && Succeeds(obj, base, mem)
    requires PcRelative(obj, base, mem, i, j, place)
    ensures |LoadResult(obj, base, mem).mem| == |mem|
    ensures LoadMem(LoadResult(obj, base, mem).mem, place, 4) == Pc32Field(SymbolOf(obj, base, mem, i, j), place)
  {
    hide AllFields, AllDisjoint, LoadMem, SymValue, Trunc, LaidOut, AlignmentsValid, Sound, NoAlignWrap, FieldKept,
         Applied, Stray, StoreAll, Untouched;
    LoadSound(obj, base, mem);
    assert FieldHolds(obj, LaidOut(obj, base, mem).addr, |mem|, i, j, LoadResult(obj, base, mem).mem);
  }

  lemma {:induction false} KeptByte(obj: ObjectFile, base: Word, mem: seq<Byte>, a: nat)
    requires obj.Valid() && |mem| < 0x1_0000_0000_0000_0000 && AlignmentsValid(obj) && Succeeds(obj, base, mem)
    requires Kept(obj, base, mem, a)
    ensures |LoadResult(obj, base, mem).mem| == |LaidOut(obj, base, mem).mem| == |mem|
    ensures LoadResult(obj, base, mem).mem[a] == LaidOut(obj, base, mem).mem[a]
  {
    hide AllFields, AllDisjoint, LaidOut, AlignmentsValid, Sound, NoAlignWrap, FieldKept, FieldHolds, Applied, Stray,
         StoreAll, Untouched;
    LoadSound(obj, base, mem);
  }

  /** From the object file to the decoded instruction: a call whose displacement is
      relocated against a symbol.  After the load, decoding it gives the symbol's
      address exactly if S + A - P fits. */
  lemma {:induction false} LoadedCallIff(obj: ObjectFile, base: Word, mem: seq<Byte>, i: nat, j: nat, pc: Word)
    requires obj.Valid() && |mem| < 0x1_0000_0000_0000_0000 && AlignmentsValid(obj) && Succeeds(obj, base, mem)
    requires PcRelative(obj, base, mem, i, j, pc + 1)
    requires Kept(obj, base, mem, pc) && LaidOut(obj, base, mem).mem[pc] == 0xE8
    ensures pc <= |LoadResult(obj, base, mem).mem|
    ensures
      var symbol := SymbolOf(obj, base, mem, i, j);
      var d := Decode(LoadResult(obj, base, mem).mem[pc..], pc);
      d.Done? && d.insn.kind == Call && (d.insn.target == symbol <==> FitsPc32(symbol, pc + 1))
  {
    hide Decode, LoadResult, LoadMem, SymbolOf, Kept, FitsPc32, Pc32Field, AlignmentsValid, LaidOut;
    PcField(obj, base, mem, i, j, pc + 1);
    KeptByte(obj, base, mem, pc);
    var final := LoadResult(obj, base, mem).mem;
    SliceLoad(final, pc, 1);
    hide PcRelative;
    LinkedCallIff(final[pc..], pc, SymbolOf(obj, base, mem, i, j));
  }

  /** The same for the address of a lea: prefix, opcode and ModR/M byte are kept, and
      its displacement is relocated. */
  lemma {:induction false} LoadedLeaIff(obj: ObjectFile, base: Word, mem: seq<Byte>, i: nat, j: nat, pc: Word)
    requires obj.Valid() && |mem| < 0x1_0000_0000_0000_0000 && AlignmentsValid(obj) && Succeeds(obj, base, mem)
    requires PcRelative(obj, base, mem, i, j, pc + 3)
    requires Kept(obj, base, mem, pc) && Kept(obj, base, mem, pc + 1) && Kept(obj, base, mem, pc + 2)
    requires var m := LaidOut(obj, base, mem).mem;
             m[pc] / 16 == 4 && m[pc + 1] == 0x8D && m[pc + 2] / 64 == 0 && m[pc + 2] % 8 == 5
    ensures pc <= |LoadResult(obj, base, mem).mem|
    ensures
      var symbol := SymbolOf(obj, base, mem, i, j);
      var d := Decode(LoadResult(obj, base, mem).mem[pc..], pc);
      && d.Done? && d.insn.kind == Lea
      && (Wrap64(Emit(d.insn).imm) == symbol <==> FitsPc32(symbol, pc + 3))
  {
    hide Decode, LoadResult, LoadMem, SymbolOf, Kept, FitsPc32, Pc32Field, AlignmentsValid, LaidOut, Emit;
    PcField(obj, base, mem, i, j, pc + 3);
    KeptByte(obj, base, mem, pc);
    KeptByte(obj, base, mem, pc + 1);
    KeptByte(obj, base, mem, pc + 2);
    var final := LoadResult(obj, base, mem).mem;
    SliceLoad(final, pc, 3);
    hide PcRelative;
    LinkedLeaIff(final[pc..], pc, SymbolOf(obj, base, mem, i, j));
  }

  lemma {:induction false} SliceLoad(mem: seq<Byte>, pc: Word, k: Word)
    requires k < 16 && pc + k + 4 <= |mem| < 0x1_0000_0000_0000_0000
    ensures LoadMem(mem[pc..], k, 4) == LoadMem(mem, pc + k, 4)
  {
    assert mem[pc..][k..k + 4] == mem[pc + k..pc + k + 4];
  }
}
