/** Applying relocations: section 4.4.1 of the System V ABI, AMD64 supplement.
 *
 * Each relocation of a supported type names a field, and is one store if the
 * source's range check passes.  What a sequence of stores leaves in memory is what
 * `Memory` proves; here the stores are the fields' formulas, and disjoint fields
 * are shown to be independent of each other.
 */
module Relocation {
  import opened Words
  import opened Memory
  import opened Placement

  const R_64: Half := 1
  const R_PC32: Half := 2
  const R_32: Half := 10
  const R_32S: Half := 11

  datatype Symbol = Symbol(name: string, info: Byte, shndx: nat, value: Word)

  datatype Rela = Rela(offset: Word, kind: Half, sym: Half, addend: Int64)

  /** `sym_value` */
  function SymValue(symbols: seq<Symbol>, addr: seq<Word>, i: int): Word
    requires i >= 0
  {
    if i >= |symbols| then 0
    else
      var s := symbols[i];
      if s.shndx == 0 then 0
      else if s.shndx < |addr| then Wrap64(addr[s.shndx] + s.value)
      else s.value
  }

  /** S + A, or S + A - P for a PC-relative field at P. */
  function Formula(kind: Half, symbol: Word, addend: int, place: Word): Word {
    if kind == R_PC32 then Wrap64(symbol + addend - place) else Wrap64(symbol + addend)
  }

  predicate Supported(kind: Half) {
    kind == R_64 || kind == R_PC32 || kind == R_32 || kind == R_32S
  }

  function FieldWidth(kind: Half): Width {
    if kind == R_64 then 8 else 4
  }

  /** The field of a relocation of a supported type: where it is, and its formula. */
  function FieldOf(symbols: seq<Symbol>, addr: seq<Word>, base: Word, rela: Rela): Write {
    var place := Wrap64(base + rela.offset);
    Write(place, Formula(rela.kind, SymValue(symbols, addr, rela.sym), rela.addend, place), FieldWidth(rela.kind))
  }

  function Field(symbols: seq<Symbol>, addr: seq<Word>, base: Word, rela: Rela): seq<Write> {
    if Supported(rela.kind) then [FieldOf(symbols, addr, base, rela)] else []
  }

  /** The fields of the first n relocations of a section. */
  function Fields(symbols: seq<Symbol>, addr: seq<Word>, base: Word, relas: seq<Rela>, n: nat): seq<Write>
    requires n <= |relas|
  {
    if n == 0 then [] else Fields(symbols, addr, base, relas, n - 1) + Field(symbols, addr, base, relas[n - 1])
  }

  /** The fields of all relocation sections among the first n sections; relas[i] is
      the table of section i. */
  function AllFields(sections: seq<Section>, relas: seq<seq<Rela>>, symbols: seq<Symbol>, addr: seq<Word>,
                     n: nat): seq<Write>
    requires n <= |sections| == |relas| == |addr|
  {
    if n == 0 then []
    else
      var before := AllFields(sections, relas, symbols, addr, n - 1);
      var s := sections[n - 1];
      if s.kind == RELA && s.info < |sections| then
        before + Fields(symbols, addr, addr[s.info], relas[n - 1], |relas[n - 1]|)
      else before
  }

  // ---------------------------------------------------------------- the range check

  /** The source asks for eight bytes at a field's place, whatever its width. */
  predicate Fits(w: Write, size: nat) {
    w.addr + 8 <= size
  }

  /** The check's sum wraps, so that it passes, and the store is outside RAM. */
  predicate Strays(w: Write, size: nat) {
    Passes(size, w.addr, 8) && w.addr + 8 > size
  }

  /** The stores that are made inside RAM, in order. */
  function Applied(ws: seq<Write>, size: nat): (r: seq<Write>) {
    if ws == [] then []
    else
      var last := ws[|ws| - 1];
      Applied(ws[..|ws| - 1], size) + (if Fits(last, size) then [last] else [])
  }

  /** A store is made exactly if there are eight bytes at its place. */
  lemma {:induction false} AppliedIff(ws: seq<Write>, size: nat, w: Write)
    ensures w in Applied(ws, size) <==> w in ws && Fits(w, size)
    decreases |ws|
  {
    if ws != [] {
      AppliedIff(ws[..|ws| - 1], size, w);
      assert ws == ws[..|ws| - 1] + [ws[|ws| - 1]];
    }
  }

  /** Some store is outside RAM. */
  predicate Stray(ws: seq<Write>, size: nat) {
    exists i :: 0 <= i < |ws| && Strays(ws[i], size)
  }

  lemma {:induction false} AppliedAppend(ws1: seq<Write>, ws2: seq<Write>, size: nat)
    ensures Applied(ws1 + ws2, size) == Applied(ws1, size) + Applied(ws2, size)
    decreases |ws2|
  {
    hide Fits;
    var ws := ws1 + ws2;
    if ws2 == [] {
      assert ws == ws1;
    } else {
      AppliedAppend(ws1, ws2[..|ws2| - 1], size);
      assert ws[..|ws| - 1] == ws1 + ws2[..|ws2| - 1];
    }
  }

  lemma {:induction false} StrayAppend(ws1: seq<Write>, ws2: seq<Write>, size: nat)
    ensures Stray(ws1 + ws2, size) <==> Stray(ws1, size) || Stray(ws2, size)
  {
    hide Strays;
    var ws := ws1 + ws2;
    if i :| 0 <= i < |ws1| && Strays(ws1[i], size) {
      assert ws[i] == ws1[i];
    } else if i :| 0 <= i < |ws2| && Strays(ws2[i], size) {
      assert ws[|ws1| + i] == ws2[i];
    }
  }

  // ---------------------------------------------------------------- disjoint fields

  predicate DisjointWrites(x: Write, y: Write) {
    x.addr + x.w <= y.addr || y.addr + y.w <= x.addr
  }

  predicate AllDisjoint(ws: seq<Write>) {
    forall i, j :: 0 <= i < j < |ws| ==> DisjointWrites(ws[i], ws[j])
  }

  predicate Touches(w: Write, a: int) {
    w.addr <= a < w.addr + w.w
  }

  /** A byte no field touches is not changed. */
  lemma {:induction false} UntouchedByte(mem: seq<Byte>, ws: seq<Write>, a: nat)
    requires a < |mem| && forall i :: 0 <= i < |ws| ==> !Touches(ws[i], a)
    ensures StoreAll(mem, ws)[a] == mem[a]
    decreases |ws|
  {
    if ws != [] {
      var front, last := ws[..|ws| - 1], ws[|ws| - 1];
      UntouchedByte(mem, front, a);
      StoreMemAt(StoreAll(mem, front), last.addr, last.val, last.w, a);
    }
  }

  /** A byte of a field apart from all others is the field's. */
  lemma {:induction false} FieldByte(mem: seq<Byte>, ws: seq<Write>, i: nat, a: nat)
    requires i < |ws| && a < |mem| && Touches(ws[i], a) && InRange(|mem|, ws[i].addr, ws[i].w)
    requires AllDisjoint(ws)
    ensures StoreAll(mem, ws)[a] == ByteOf(ws[i].val, a - ws[i].addr)
    decreases |ws|
  {
    hide StoreMem, ByteOf;
    var front, last := ws[..|ws| - 1], ws[|ws| - 1];
    StoreMemAt(StoreAll(mem, front), last.addr, last.val, last.w, a);
    if i < |front| {
      assert DisjointWrites(ws[i], ws[|ws| - 1]);
      FieldByte(mem, front, i, a);
    }
  }

  /** Fields that do not overlap all hold their values at the end. */
  lemma {:induction false} FieldValue(mem: seq<Byte>, ws: seq<Write>, i: nat)
    requires i < |ws| && InRange(|mem|, ws[i].addr, ws[i].w) && AllDisjoint(ws)
    ensures LoadMem(StoreAll(mem, ws), ws[i].addr, ws[i].w) == Trunc(ws[i].val, ws[i].w)
  {
    hide LoadMem, StoreMem, StoreAll, ByteOf, AllDisjoint;
    var alone := StoreMem(mem, ws[i].addr, ws[i].val, ws[i].w);
    forall a | ws[i].addr <= a < ws[i].addr + ws[i].w && a < |mem|
      ensures StoreAll(mem, ws)[a] == alone[a]
    {
      FieldByte(mem, ws, i, a);
      StoreMemAt(mem, ws[i].addr, ws[i].val, ws[i].w, a);
    }
    LoadMemAgree(StoreAll(mem, ws), alone, ws[i].addr, ws[i].w);
    LoadAfterStore(mem, ws[i].addr, ws[i].val, ws[i].w);
  }

  /** Relocations whose fields do not overlap can be applied in any order. */
  lemma {:induction false} OrderIndependent(mem: seq<Byte>, ws1: seq<Write>, ws2: seq<Write>)
    requires AllDisjoint(ws1) && AllDisjoint(ws2) && (forall w :: w in ws1 <==> w in ws2)
    requires forall i :: 0 <= i < |ws1| ==> InRange(|mem|, ws1[i].addr, ws1[i].w)
    ensures StoreAll(mem, ws1) == StoreAll(mem, ws2)
  {
    hide AllDisjoint, StoreAll;
    forall a | 0 <= a < |mem| ensures StoreAll(mem, ws1)[a] == StoreAll(mem, ws2)[a] {
      if i :| 0 <= i < |ws1| && Touches(ws1[i], a) {
        assert ws1[i] in ws2;
        var j :| 0 <= j < |ws2| && ws2[j] == ws1[i];
        FieldByte(mem, ws1, i, a);
        FieldByte(mem, ws2, j, a);
      } else {
        forall j | 0 <= j < |ws2| ensures !Touches(ws2[j], a) {
          assert ws2[j] in ws1;
        }
        UntouchedByte(mem, ws1, a);
        UntouchedByte(mem, ws2, a);
      }
    }
  }

  /** A byte of a field that is not patched keeps what was there, unless a field that
      is patched overlaps it. */
  lemma {:induction false} UnpatchedField(mem: seq<Byte>, ws: seq<Write>, w: Write)
    requires InRange(|mem|, w.addr, w.w) && forall i :: 0 <= i < |ws| ==> DisjointWrites(ws[i], w)
    ensures LoadMem(StoreAll(mem, ws), w.addr, w.w) == LoadMem(mem, w.addr, w.w)
  {
    hide LoadMem, StoreAll;
    forall a | w.addr <= a < w.addr + w.w && a < |mem| ensures StoreAll(mem, ws)[a] == mem[a] {
      forall i | 0 <= i < |ws| ensures !Touches(ws[i], a) {
        assert DisjointWrites(ws[i], w);
      }
      UntouchedByte(mem, ws, a);
    }
    LoadMemAgree(StoreAll(mem, ws), mem, w.addr, w.w);
  }

  /** A relocation in the table is one of the fields. */
  lemma {:induction false} FieldIsListed(sections: seq<Section>, relas: seq<seq<Rela>>, symbols: seq<Symbol>,
      addr: seq<Word>, n: nat, i: nat, j: nat)
    requires i < n <= |sections| == |relas| == |addr| && j < |relas[i]|
    requires sections[i].kind == RELA && sections[i].info < |sections| && Supported(relas[i][j].kind)
    ensures FieldOf(symbols, addr, addr[sections[i].info], relas[i][j]) in AllFields(sections, relas, symbols, addr, n)
    decreases n
  {
    hide FieldOf;
    if i < n - 1 {
      FieldIsListed(sections, relas, symbols, addr, n - 1, i, j);
    } else {
      FieldAmong(symbols, addr, addr[sections[i].info], relas[i], |relas[i]|, j);
    }
  }

  lemma {:induction false} FieldAmong(symbols: seq<Symbol>, addr: seq<Word>, base: Word, relas: seq<Rela>,
      n: nat, j: nat)
    requires j < n <= |relas| && Supported(relas[j].kind)
    ensures FieldOf(symbols, addr, base, relas[j]) in Fields(symbols, addr, base, relas, n)
    decreases n
  {
    hide FieldOf;
    if j < n - 1 {
      FieldAmong(symbols, addr, base, relas, n - 1, j);
    }
  }
}
