/** Loading a relocatable object: `load_object`, from its parsed tables on.
 *
 * `Loading` is the state the source's local functions share.
 */
module Loader {
  import opened Words
  import opened Memory
  import opened Placement
  import opened Relocation

  /** The parsed object: relas[i] is the relocation table of section i, symbols is
      empty without a symbol table, named tells whether there is a string table. */
  datatype ObjectFile = ObjectFile(sections: seq<Section>, relas: seq<seq<Rela>>, symbols: seq<Symbol>, named: bool,
                                   file: seq<Byte>)
  {
    predicate Valid() {
      |relas| == |sections|
    }
  }

  datatype LoadedImage = LoadedImage(ok: bool, entry: Word, codeAddr: Word, codeSize: Word, error: string)

  /** What a load comes to: wild once an access has passed its range check and still
      is outside RAM or outside the file. */
  datatype LoadEnd = GoneWild | Finished(image: LoadedImage, mem: seq<Byte>)

  const NO_TEXT: string := "no .text section"
  const FUNC: int := 2

  // ---------------------------------------------------------------- specification

  /** The first section with a name, -1 if there is none. */
  function FindName(sections: seq<Section>, name: string, from: nat): (i: int)
    requires from <= |sections|
    ensures i < |sections| && (i >= 0 ==> from <= i && sections[i].name == name)
    ensures i < 0 ==> forall k :: from <= k < |sections| ==> sections[k].name != name
    decreases |sections| - from
  {
    if from == |sections| then -1
    else if sections[from].name == name then from
    else FindName(sections, name, from + 1)
  }

  /** .text, .rodata, .data and .bss, in this order. */
  function Order(sections: seq<Section>): (ids: seq<int>)
    ensures forall k :: 0 <= k < |ids| ==> ids[k] < |sections|
  {
    [FindName(sections, ".text", 0), FindName(sections, ".rodata", 0), FindName(sections, ".data", 0),
     FindName(sections, ".bss", 0)]
  }

  function Zeros(n: nat): (z: seq<Word>)
    ensures |z| == n
  {
    seq(n, _ => 0)
  }

  function Initial(obj: ObjectFile, base: Word, mem: seq<Byte>): (lay: Layout)
    ensures |lay.addr| == |obj.sections| && lay.mem == mem
  {
    Layout(base, Zeros(|obj.sections|), mem, "", false)
  }

  /** The layout after the four sections are placed. */
  function LaidOut(obj: ObjectFile, base: Word, mem: seq<Byte>): (lay: Layout)
    requires |mem| < 0x1_0000_0000_0000_0000
    ensures |lay.addr| == |obj.sections| && |lay.mem| == |mem|
  {
    PlacedAll(obj.sections, obj.file, Initial(obj, base, mem), Order(obj.sections))
  }

  /** All fields the relocation phase is to patch. */
  function FieldsOf(obj: ObjectFile, addr: seq<Word>): seq<Write>
    requires obj.Valid() && |addr| == |obj.sections|
  {
    AllFields(obj.sections, obj.relas, obj.symbols, addr, |obj.sections|)
  }

  /** The stores it makes. */
  function FixesOf(obj: ObjectFile, addr: seq<Word>, size: nat): seq<Write>
    requires obj.Valid() && |addr| == |obj.sections|
  {
    Applied(FieldsOf(obj, addr), size)
  }

  /** The address of the first function symbol called _start, else 0. */
  function StartSymbol(symbols: seq<Symbol>, addr: seq<Word>, from: nat): Word
    requires from <= |symbols|
    decreases |symbols| - from
  {
    if from == |symbols| then 0
    else if symbols[from].info % 16 == FUNC && symbols[from].name == "_start" then SymValue(symbols, addr, from)
    else StartSymbol(symbols, addr, from + 1)
  }

  function Entry(obj: ObjectFile, addr: seq<Word>, text: nat): Word
    requires text < |addr|
  {
    var start := if obj.named then StartSymbol(obj.symbols, addr, 0) else 0;
    if start == 0 then addr[text] else start
  }

  /** The image reported and the memory left behind. */
  function LoadResult(obj: ObjectFile, base: Word, mem: seq<Byte>): LoadEnd
    requires obj.Valid() && |mem| < 0x1_0000_0000_0000_0000
  {
    var text := FindName(obj.sections, ".text", 0);
    if text < 0 then Finished(LoadedImage(false, 0, 0, 0, NO_TEXT), mem)
    else
      var lay := LaidOut(obj, base, mem);
      if lay.wild then GoneWild
      else if lay.error != "" then Finished(LoadedImage(false, 0, 0, 0, lay.error), lay.mem)
      else if Stray(FieldsOf(obj, lay.addr), |mem|) then GoneWild
      else
        Finished(LoadedImage(true, Entry(obj, lay.addr, text), lay.addr[text], obj.sections[text].size, ""),
                 StoreAll(lay.mem, FixesOf(obj, lay.addr, |mem|)))
  }

  // ---------------------------------------------------------------- the source's loops

  class Loading {
    const obj: ObjectFile
    const mem: array<Byte>
    var cursor: Word
    var secAddr: seq<Word>
    var error: string
    // not the source's: an access has gone outside RAM or the file, and what the
    // source does from then on is not modelled
    var wild: bool

    constructor (obj: ObjectFile, mem: array<Byte>, base: Word)
      ensures this.obj == obj && this.mem == mem
      ensures cursor == base && secAddr == Zeros(|obj.sections|) && error == "" && !wild
    {
      this.obj, this.mem := obj, mem;
      cursor, secAddr, error, wild := base, Zeros(|obj.sections|), "", false;
    }

    ghost predicate Valid()
      reads this
    {
      obj.Valid() && |secAddr| == |obj.sections| && mem.Length < 0x1_0000_0000_0000_0000
    }

    ghost function State(): Layout
      reads this, mem
    {
      Layout(cursor, secAddr, mem[..], error, wild)
    }

    /** `memset` and `memcpy` */
    method Write(at: nat, bytes: seq<Byte>)
      requires at + |bytes| <= mem.Length
      modifies mem
      ensures mem[..] == Overwritten(old(mem[..]), at, bytes)
    {
      forall k | 0 <= k < |bytes| {
        mem[at + k] := bytes[k];
      }
      forall a | at <= a < at + |bytes| ensures mem[a] == bytes[a - at] {
        assert mem[at + (a - at)] == bytes[a - at];
      }
    }

    /** `place` */
    method Place(idx: int)
      requires Valid() && idx < |obj.sections|
      modifies this`cursor, this`secAddr, this`error, this`wild, mem
      ensures Valid() && State() == Placed(obj.sections, obj.file, old(State()), idx)
    {
      hide AlignUp;
      if idx < 0 || wild {
        return;
      }
      var s := obj.sections[idx];
      cursor := AlignUp(cursor, Alignment(s));
      secAddr := secAddr[idx := cursor];
      if s.size == 0 {
        return;
      }
      if !Passes(mem.Length, cursor, s.size) {
        error := TOO_BIG;
        return;
      }
      if cursor + s.size > mem.Length {
        wild := true;
        return;
      }
      Write(cursor, seq(s.size, _ => 0));
      if s.kind != NOBITS {
        if !Passes(|obj.file|, s.offset, s.size) {
          error := NO_DATA;
          return;
        }
        if s.offset + s.size > |obj.file| {
          wild := true;
          return;
        }
        ghost var zeroed := mem[..];
        Write(cursor, obj.file[s.offset..s.offset + s.size]);
        assert mem[..] == Overwritten(old(mem[..]), cursor, Contents(s, obj.file));
      }
      cursor := cursor + s.size;
    }

    /** `find_sec` */
    method FindSec(name: string) returns (i: int)
      ensures i == FindName(obj.sections, name, 0)
    {
      i := 0;
      while i < |obj.sections|
        invariant 0 <= i <= |obj.sections|
        invariant FindName(obj.sections, name, 0) == FindName(obj.sections, name, i)
      {
        if obj.sections[i].name == name {
          return;
        }
        i := i + 1;
      }
      i := -1;
    }

    /** The memory after the stores for the fields ws, unless one strays. */
    twostate predicate Patched(ws: seq<Write>)
      reads this, mem
    {
      && (wild <==> old(wild) || Stray(ws, mem.Length))
      && (!wild ==> mem[..] == StoreAll(old(mem[..]), Applied(ws, mem.Length)))
    }

    /** One relocation of `apply_rela`. */
    method ApplyOne(base: Word, rela: Rela)
      requires Valid()
      modifies this`wild, mem
      ensures Patched(Field(obj.symbols, secAddr, base, rela))
    {
      hide SymValue, Wrap64, StoreMem, StoreAll, Applied, Stray, Passes;
      var place := Wrap64(base + rela.offset);
      var symbol := SymValue(obj.symbols, secAddr, rela.sym);
      ghost var field := Field(obj.symbols, secAddr, base, rela);
      OneField(mem[..], field);
      PassesIff(mem.Length, place, 8);
      if wild || !Passes(mem.Length, place, 8) {
        return;
      }
      if Supported(rela.kind) && place + 8 > mem.Length {
        wild := true;
        return;
      }
      assert mem[0..mem.Length] == mem[..];
      if rela.kind == R_64 {
        StoreTo(mem, 0, mem.Length, place, Wrap64(symbol + rela.addend), 8);
      } else if rela.kind == R_32 || rela.kind == R_32S {
        StoreTo(mem, 0, mem.Length, place, Wrap64(symbol + rela.addend), 4);
      } else if rela.kind == R_PC32 {
        StoreTo(mem, 0, mem.Length, place, Wrap64(symbol + rela.addend - place), 4);
      }
      assert mem[0..mem.Length] == mem[..];
    }

    /** `apply_rela` */
    method ApplyRela(i: nat)
      requires Valid() && i < |obj.sections|
      modifies this`wild, mem
      ensures
        var target := obj.sections[i].info;
        Patched(if target < |obj.sections|
                then Fields(obj.symbols, secAddr, secAddr[target], obj.relas[i], |obj.relas[i]|) else [])
    {
      hide Field, StoreMem;
      var target := obj.sections[i].info;
      NoStores(mem[..]);
      if target >= |obj.sections| {
        return;
      }
      var base := secAddr[target];
      var j := 0;
      while j < |obj.relas[i]|
        invariant 0 <= j <= |obj.relas[i]|
        invariant Patched(Fields(obj.symbols, secAddr, base, obj.relas[i], j))
      {
        ghost var before, field := Fields(obj.symbols, secAddr, base, obj.relas[i], j),
            Field(obj.symbols, secAddr, base, obj.relas[i][j]);
        ApplyOne(base, obj.relas[i][j]);
        AppliedAppend(before, field, mem.Length);
        StrayAppend(before, field, mem.Length);
        StoresAppend(old(mem[..]), Applied(before, mem.Length), Applied(field, mem.Length));
        j := j + 1;
      }
    }

    /** The relocation phase. */
    method Relocate()
      requires Valid()
      modifies this`wild, mem
      ensures Patched(FieldsOf(obj, secAddr))
    {
      hide Fields, StoreAll;
      var i := 0;
      NoStores(mem[..]);
      while i < |obj.sections|
        invariant 0 <= i <= |obj.sections|
        invariant Patched(AllFields(obj.sections, obj.relas, obj.symbols, secAddr, i))
      {
        if obj.sections[i].kind == RELA {
          NoStores(mem[..]);
          ghost var before := AllFields(obj.sections, obj.relas, obj.symbols, secAddr, i);
          var target := obj.sections[i].info;
          ApplyRela(i);
          if target < |obj.sections| {
            ghost var fields := Fields(obj.symbols, secAddr, secAddr[target], obj.relas[i], |obj.relas[i]|);
            AppliedAppend(before, fields, mem.Length);
            StrayAppend(before, fields, mem.Length);
            StoresAppend(old(mem[..]), Applied(before, mem.Length), Applied(fields, mem.Length));
          }
        }
        i := i + 1;
      }
    }

    method FindEntry(text: nat) returns (entry: Word)
      requires Valid() && text < |obj.sections|
      ensures entry == Entry(obj, secAddr, text)
    {
      hide SymValue;
      entry := 0;
      if obj.named {
        var i := 0;
        while i < |obj.symbols|
          invariant 0 <= i <= |obj.symbols| && entry == 0
          invariant StartSymbol(obj.symbols, secAddr, 0) == StartSymbol(obj.symbols, secAddr, i)
        {
          if obj.symbols[i].info % 16 == FUNC {
            if obj.symbols[i].name == "_start" {
              entry := SymValue(obj.symbols, secAddr, i);
              break;
            }
          }
          i := i + 1;
        }
      }
      if entry == 0 {
        entry := secAddr[text];
      }
    }
  }

  lemma {:induction false} NoStores(mem: seq<Byte>)
    ensures StoreAll(mem, []) == mem
  {
  }

  /** The stores for at most one field. */
  lemma {:induction false} OneField(mem: seq<Byte>, ws: seq<Write>)
    requires |ws| <= 1
    ensures Stray(ws, |mem|) <==> ws != [] && Strays(ws[0], |mem|)
    ensures StoreAll(mem, Applied(ws, |mem|)) ==
            if ws != [] && Fits(ws[0], |mem|) then StoreMem(mem, ws[0].addr, ws[0].val, ws[0].w) else mem
  {
    if ws != [] {
      assert ws == [ws[0]] && ws[..0] == [];
      assert [ws[0]][..0] == [];
    }
  }

  /** Stores in sequence. */
  lemma {:induction false} StoresAppend(mem: seq<Byte>, ws1: seq<Write>, ws2: seq<Write>)
    ensures StoreAll(mem, ws1 + ws2) == StoreAll(StoreAll(mem, ws1), ws2)
    decreases |ws2|
  {
    hide StoreMem;
    if ws2 == [] {
      assert ws1 + ws2 == ws1;
    } else {
      var front, last := ws2[..|ws2| - 1], ws2[|ws2| - 1];
      StoresAppend(mem, ws1, front);
      assert (ws1 + ws2)[..|ws1 + ws2| - 1] == ws1 + front;
    }
  }

  /** `load_object`; once it has gone wild, neither the image nor memory means
      anything. */
  method LoadObject(mem: array<Byte>, obj: ObjectFile, base: Word) returns (img: LoadedImage, wild: bool)
    requires obj.Valid() && mem.Length < 0x1_0000_0000_0000_0000
    modifies mem
    ensures wild <==> LoadResult(obj, base, old(mem[..])).GoneWild?
    ensures !wild ==> Finished(img, mem[..]) == LoadResult(obj, base, old(mem[..]))
  {
    hide Placed, AllFields, Entry, StoreAll, Stray;
    var ld := new Loading(obj, mem, base);
    var text := ld.FindSec(".text");
    var rodata := ld.FindSec(".rodata");
    var data := ld.FindSec(".data");
    var bss := ld.FindSec(".bss");
    if text < 0 {
      return LoadedImage(false, 0, 0, 0, NO_TEXT), false;
    }
    ghost var start := ld.State();
    ld.Place(text);
    ld.Place(rodata);
    ld.Place(data);
    ld.Place(bss);
    FourPlaced(obj, start, text, rodata, data, bss);
    if ld.wild || ld.error != "" {
      return LoadedImage(false, 0, 0, 0, ld.error), ld.wild;
    }
    ld.Relocate();
    var entry := ld.FindEntry(text);
    img, wild := LoadedImage(true, entry, ld.secAddr[text], obj.sections[text].size, ""), ld.wild;
  }

  lemma {:induction false} FourPlaced(obj: ObjectFile, lay: Layout, a: int, b: int, c: int, d: int)
    requires a < |obj.sections| && b < |obj.sections| && c < |obj.sections| && d < |obj.sections|
    requires |obj.sections| == |lay.addr| && |lay.mem| < 0x1_0000_0000_0000_0000
    ensures
      PlacedAll(obj.sections, obj.file, lay, [a, b, c, d]) ==
      Placed(obj.sections, obj.file,
             Placed(obj.sections, obj.file,
                    Placed(obj.sections, obj.file, Placed(obj.sections, obj.file, lay, a), b), c), d)
  {
    hide Placed;
    assert [a, b, c, d][..3] == [a, b, c] && [a, b, c][..2] == [a, b] && [a, b][..1] == [a];
    assert PlacedAll(obj.sections, obj.file, lay, [a][..0]) == lay;
    assert PlacedAll(obj.sections, obj.file, lay, [a]) == Placed(obj.sections, obj.file, lay, a);
    assert PlacedAll(obj.sections, obj.file, lay, [a, b]) ==
           Placed(obj.sections, obj.file, PlacedAll(obj.sections, obj.file, lay, [a]), b);
    assert PlacedAll(obj.sections, obj.file, lay, [a, b, c]) ==
           Placed(obj.sections, obj.file, PlacedAll(obj.sections, obj.file, lay, [a, b]), c);
  }

  // ---------------------------------------------------------------- soundness of a load

  /** The four sections are different sections. */
  lemma {:induction false} OrderDiffers(sections: seq<Section>)
    ensures Different(Order(sections))
  {
  }

  ghost predicate AlignmentsValid(obj: ObjectFile) {
    forall k :: 0 <= k < 4 && Order(obj.sections)[k] >= 0 ==> Aligned(obj.sections[Order(obj.sections)[k]])
  }

  /** The load comes to its end, and reports success. */
  predicate Succeeds(obj: ObjectFile, base: Word, mem: seq<Byte>)
    requires obj.Valid() && |mem| < 0x1_0000_0000_0000_0000
  {
    var r := LoadResult(obj, base, mem);
    r.Finished? && r.image.ok
  }

  /** A successful load with power-of-two alignments: the sections are laid out
      soundly, exactly if no alignment wraps around; if no two patched fields
      overlap, each supported field with eight bytes of RAM at its place ends up
      holding its formula, truncated to the field; a field inside RAM without them
      keeps what placement left there, unless a patched one overlaps it; and so does
      every byte outside the patched fields. */
  lemma {:induction false} LoadSound(obj: ObjectFile, base: Word, mem: seq<Byte>)
    requires obj.Valid() && |mem| < 0x1_0000_0000_0000_0000
    requires AlignmentsValid(obj) && Succeeds(obj, base, mem)
    ensures
      Sound(obj.sections, obj.file, Initial(obj, base, mem), Order(obj.sections), LaidOut(obj, base, mem)) <==>
      NoAlignWrap(obj.sections, obj.file, Initial(obj, base, mem), Order(obj.sections))
    ensures
      AllDisjoint(FixesOf(obj, LaidOut(obj, base, mem).addr, |mem|)) ==>
        forall i, j :: 0 <= i < |obj.sections| && 0 <= j < |obj.relas[i]| ==>
            FieldHolds(obj, LaidOut(obj, base, mem).addr, |mem|, i, j, LoadResult(obj, base, mem).mem)
    ensures
      forall i, j :: 0 <= i < |obj.sections| && 0 <= j < |obj.relas[i]| ==>
          FieldKept(obj, LaidOut(obj, base, mem), i, j, LoadResult(obj, base, mem).mem)
    ensures
      var lay := LaidOut(obj, base, mem);
      forall a :: 0 <= a < |mem| && Untouched(FixesOf(obj, lay.addr, |mem|), a) ==>
          LoadResult(obj, base, mem).mem[a] == lay.mem[a]
  {
    hide Sound, NoAlignWrap, FieldsOf, Applied, StoreAll, AllDisjoint, FieldHolds, FieldKept, PlacedAll, Stray;
    var lay := LaidOut(obj, base, mem);
    OrderDiffers(obj.sections);
    PlacementSound(obj.sections, obj.file, Initial(obj, base, mem), Order(obj.sections));
    var ws := FixesOf(obj, lay.addr, |mem|);
    if AllDisjoint(ws) {
      forall i, j | 0 <= i < |obj.sections| && 0 <= j < |obj.relas[i]|
        ensures FieldHolds(obj, lay.addr, |mem|, i, j, StoreAll(lay.mem, ws))
      {
        FieldLoaded(obj, lay, i, j);
      }
    }
    forall i, j | 0 <= i < |obj.sections| && 0 <= j < |obj.relas[i]|
      ensures FieldKept(obj, lay, i, j, StoreAll(lay.mem, ws))
    {
      FieldLeft(obj, lay, i, j);
    }
    forall a | 0 <= a < |mem| && Untouched(ws, a) ensures StoreAll(lay.mem, ws)[a] == lay.mem[a] {
      UntouchedByte(lay.mem, ws, a);
    }
  }

  /** No field covers address a. */
  predicate Untouched(ws: seq<Write>, a: int) {
    forall i :: 0 <= i < |ws| ==> !Touches(ws[i], a)
  }

  /** Relocation j of section i is of a supported type and in a table the loader
      applies. */
  predicate Listed(obj: ObjectFile, i: nat, j: nat)
    requires obj.Valid() && i < |obj.sections| && j < |obj.relas[i]|
  {
    && obj.sections[i].kind == RELA && obj.sections[i].info < |obj.sections|
    && Supported(obj.relas[i][j].kind)
  }

  function FieldAt(obj: ObjectFile, addr: seq<Word>, i: nat, j: nat): Write
    requires obj.Valid() && |addr| == |obj.sections| && i < |obj.sections| && j < |obj.relas[i]| && Listed(obj, i, j)
  {
    FieldOf(obj.symbols, addr, addr[obj.sections[i].info], obj.relas[i][j])
  }

  /** The field of relocation j of section i holds its formula if there are eight
      bytes of RAM at its place. */
  ghost predicate FieldHolds(obj: ObjectFile, addr: seq<Word>, size: nat, i: nat, j: nat, mem: seq<Byte>)
    requires obj.Valid() && |addr| == |obj.sections| && i < |obj.sections| && j < |obj.relas[i]|
  {
    Listed(obj, i, j) ==>
      var w := FieldAt(obj, addr, i, j);
      w.addr + 8 <= size ==> LoadMem(mem, w.addr, w.w) == Trunc(w.val, w.w)
  }

  /** It is patched exactly if there are eight bytes of RAM at its place, and holds
      what placement left there if it is inside RAM, not patched and apart from the
      patched fields. */
  ghost predicate FieldKept(obj: ObjectFile, lay: Layout, i: nat, j: nat, mem: seq<Byte>)
    requires obj.Valid() && |lay.addr| == |obj.sections| && i < |obj.sections| && j < |obj.relas[i]|
  {
    Listed(obj, i, j) ==>
      var w := FieldAt(obj, lay.addr, i, j);
      var ws := FixesOf(obj, lay.addr, |lay.mem|);
      && (w in ws <==> w.addr + 8 <= |lay.mem|)
      && (w.addr + w.w <= |lay.mem| < w.addr + 8 && (forall k :: 0 <= k < |ws| ==> DisjointWrites(ws[k], w)) ==>
            LoadMem(mem, w.addr, w.w) == LoadMem(lay.mem, w.addr, w.w))
  }

  lemma {:induction false} FieldLoaded(obj: ObjectFile, lay: Layout, i: nat, j: nat)
    requires obj.Valid() && |lay.addr| == |obj.sections| && i < |obj.sections| && j < |obj.relas[i]|
    requires AllDisjoint(FixesOf(obj, lay.addr, |lay.mem|))
    ensures FieldHolds(obj, lay.addr, |lay.mem|, i, j, StoreAll(lay.mem, FixesOf(obj, lay.addr, |lay.mem|)))
  {
    hide AllFields, StoreAll, AllDisjoint, LoadMem, FieldOf, Trunc, Applied;
    var ws := FixesOf(obj, lay.addr, |lay.mem|);
    if Listed(obj, i, j) {
      var w := FieldAt(obj, lay.addr, i, j);
      FieldIsListed(obj.sections, obj.relas, obj.symbols, lay.addr, |obj.sections|, i, j);
      AppliedIff(FieldsOf(obj, lay.addr), |lay.mem|, w);
      if w.addr + 8 <= |lay.mem| {
        assert w in ws;
        var k :| 0 <= k < |ws| && ws[k] == w;
        FieldValue(lay.mem, ws, k);
      }
    }
  }

  lemma {:induction false} FieldLeft(obj: ObjectFile, lay: Layout, i: nat, j: nat)
    requires obj.Valid() && |lay.addr| == |obj.sections| && i < |obj.sections| && j < |obj.relas[i]|
    ensures FieldKept(obj, lay, i, j, StoreAll(lay.mem, FixesOf(obj, lay.addr, |lay.mem|)))
  {
    hide AllFields, StoreAll, LoadMem, FieldOf, Applied, DisjointWrites;
    var ws := FixesOf(obj, lay.addr, |lay.mem|);
    if Listed(obj, i, j) {
      var w := FieldAt(obj, lay.addr, i, j);
      FieldIsListed(obj.sections, obj.relas, obj.symbols, lay.addr, |obj.sections|, i, j);
      AppliedIff(FieldsOf(obj, lay.addr), |lay.mem|, w);
      if w.addr + w.w <= |lay.mem| && forall k :: 0 <= k < |ws| ==> DisjointWrites(ws[k], w) {
        UnpatchedField(lay.mem, ws, w);
      }
    }
  }

  /** A relocation section whose target is none of the four placed sections is
      applied as if its target were at address 0: it patches guest RAM at its bare
      offset. */
  lemma {:induction false} UnplacedTargetIsZero(obj: ObjectFile, base: Word, mem: seq<Byte>, i: nat, j: nat)
    requires obj.Valid() && |mem| < 0x1_0000_0000_0000_0000 && i < |obj.sections| && j < |obj.relas[i]|
    requires Listed(obj, i, j) && obj.sections[i].info !in Order(obj.sections)
    ensures
      var lay := LaidOut(obj, base, mem);
      var w := FieldAt(obj, lay.addr, i, j);
      w.addr == obj.relas[i][j].offset && (w in FixesOf(obj, lay.addr, |mem|) <==> w.addr + 8 <= |mem|)
  {
    hide PlacedAll, AllFields, SymValue, Formula, FieldKept, Order;
    var target := obj.sections[i].info;
    AddressStays(obj.sections, obj.file, Initial(obj, base, mem), Order(obj.sections), target, 0);
    assert LaidOut(obj, base, mem).addr[target] == 0 by {
      NothingPlacedYet(obj, base, mem);
    }
    var addr := LaidOut(obj, base, mem).addr;
    FieldIsListed(obj.sections, obj.relas, obj.symbols, addr, |obj.sections|, i, j);
    AppliedIff(FieldsOf(obj, addr), |mem|, FieldAt(obj, addr, i, j));
  }

  lemma {:induction false} NothingPlacedYet(obj: ObjectFile, base: Word, mem: seq<Byte>)
    requires |mem| < 0x1_0000_0000_0000_0000
    ensures PlacedAll(obj.sections, obj.file, Initial(obj, base, mem), Order(obj.sections)[..0]) ==
            Initial(obj, base, mem)
  {
  }

  // ---------------------------------------------------------------- failing inputs

  /** Sixteen zero bytes of .text and one relocation. */
  function OneRela(rela: Rela): (obj: ObjectFile)
    ensures obj.Valid()
  {
    ObjectFile([Section(".text", 1, 1, 0, 16, 0), Section(".rela.text", RELA, 8, 16, 24, 0)], [[], [rela]], [], false,
               seq(40, _ => 0))
  }

  const SMALL_RAM: seq<Byte> := seq(16, _ => 0)

  lemma {:induction false} OneRelaLoads(rela: Rela)
    requires Supported(rela.kind)
    ensures
      var obj := OneRela(rela);
      var lay := LaidOut(obj, 0, SMALL_RAM);
      && Clean(lay) && lay.addr == [0, 0] && lay.mem == SMALL_RAM && FindName(obj.sections, ".text", 0) == 0
      && FieldsOf(obj, lay.addr) == [FieldOf([], [0, 0], 0, rela)]
  {
    hide FieldOf, AlignUp;
    AlignUpIsNext(0, 0);
    var obj := OneRela(rela);
    var s := obj.sections;
    assert FindName(s, ".rodata", 2) == FindName(s, ".data", 2) == FindName(s, ".bss", 2) == -1;
    assert ".data"[1] != ".text"[1];
    assert |".rodata"| == 7 && |".bss"| == 4 && |".data"| == |".text"| == 5 && |".rela.text"| == 10;
    assert FindName(s, ".rodata", 1) == FindName(s, ".data", 1) == FindName(s, ".bss", 1) == -1;
    assert FindName(s, ".rodata", 0) == FindName(s, ".data", 0) == FindName(s, ".bss", 0) == -1;
    assert Order(s) == [0, -1, -1, -1];
    FourPlaced(obj, Initial(obj, 0, SMALL_RAM), 0, -1, -1, -1);
    assert Fields([], [0, 0], 0, [rela], 1) == [FieldOf([], [0, 0], 0, rela)];
    assert AllFields(s, obj.relas, [], [0, 0], 1) == [];
  }

  /** A 32-bit field in the last four bytes of RAM: it should hold 1 and holds 0. */
  lemma {:induction false} LastFieldIsLeft()
    ensures
      var obj := OneRela(Rela(12, R_32, 0, 1));
      && Succeeds(obj, 0, SMALL_RAM) && FieldsOf(obj, LaidOut(obj, 0, SMALL_RAM).addr) == [Memory.Write(12, 1, 4)]
      && LoadMem(LoadResult(obj, 0, SMALL_RAM).mem, 12, 4) == 0
  {
    hide LaidOut, AllFields, Entry;
    OneRelaLoads(Rela(12, R_32, 0, 1));
    var w := Memory.Write(12, 1, 4);
    assert !Fits(w, 16) && [w][..0] == [] && Applied([w], 16) == [];
    assert SMALL_RAM[12..16] == [0, 0, 0, 0];
    assert LE([0, 0]) == 0 && LE([0, 0, 0, 0][1..][1..]) == LE([0, 0]);
  }

  /** A 64-bit field whose place is four bytes short of 2^64 passes the check. */
  lemma {:induction false} WrappedFieldStrays()
    ensures LoadResult(OneRela(Rela(0xFFFF_FFFF_FFFF_FFFC, R_64, 0, 1)), 0, SMALL_RAM).GoneWild?
  {
    hide LaidOut, AllFields, Entry;
    OneRelaLoads(Rela(0xFFFF_FFFF_FFFF_FFFC, R_64, 0, 1));
    var w := FieldOf([], [0, 0], 0, Rela(0xFFFF_FFFF_FFFF_FFFC, R_64, 0, 1));
    assert [w][0] == w && Strays(w, 16);
  }
}
