/** When a load succeeds, and what it reports when it does not.
 *
 * Positions are plain integers: each section starts at the least multiple of its
 * alignment behind the one before it.
 */
module LoadOutcome {
  import opened Words
  import opened Memory
  import opened Placement
  import opened Relocation
  import opened Loader
  import opened Symbols

  function AlignmentOf(s: Section): int {
    if s.align > 1 then s.align else 1
  }

  /** RAM has room for section s at address p. */
  predicate HasRoom(s: Section, p: int, ram: nat) {
    s.size == 0 || p + s.size <= ram
  }

  /** The file has the bytes of section s; type 8 has none there. */
  predicate HasBytes(obj: ObjectFile, s: Section) {
    s.size == 0 || s.kind == 8 || s.offset + s.size <= |obj.file|
  }

  /** The object has no section with the n-th name. */
  ghost predicate Missing(obj: ObjectFile, n: nat) {
    forall i: nat :: !IsNamed(obj, n, i)
  }

  /** The n-th of the four sections, at p, the next one not before `after`: it takes up
      its size if it can be placed.  All its ends are addresses. */
  ghost predicate StandsAt(obj: ObjectFile, ram: nat, n: nat, before: int, p: int, after: int)
    requires n < 4
  {
    && (forall i: nat :: IsNamed(obj, n, i) ==>
          var s := obj.sections[i];
          && before + AlignmentOf(s) <= 0x1_0000_0000_0000_0000
          && before <= p < before + AlignmentOf(s) && p % AlignmentOf(s) == 0
          && p + s.size < 0x1_0000_0000_0000_0000 && s.offset + s.size < 0x1_0000_0000_0000_0000
          && after == p + (if HasRoom(s, p, ram) && HasBytes(obj, s) then s.size else 0))
    && (Missing(obj, n) ==> after == before)
  }

  /** Where the first n sections stand: ps their addresses, cs what is taken before
      and behind each. */
  ghost predicate Positions(obj: ObjectFile, base: Word, ram: nat, ps: seq<int>, cs: seq<int>, n: nat) {
    && n <= 4 && |ps| == 4 && |cs| == 5 && cs[0] == base
    && forall k :: 0 <= k < n ==> StandsAt(obj, ram, k, cs[k], ps[k], cs[k + 1])
  }

  /** The error after the first n sections: that of the last that could not be placed. */
  ghost function Trouble(obj: ObjectFile, ram: nat, ps: seq<int>, n: nat): string
    requires n <= 4 == |ps|
  {
    if n == 0 then ""
    else if exists i: nat :: IsNamed(obj, n - 1, i) && !HasRoom(obj.sections[i], ps[n - 1], ram) then
      "object sections exceed guest RAM"
    else if exists i: nat :: IsNamed(obj, n - 1, i) && !HasBytes(obj, obj.sections[i]) then
      "section data out of range"
    else Trouble(obj, ram, ps, n - 1)
  }

  lemma {:induction false} NotNamed(obj: ObjectFile, n: nat)
    requires n < 4
    ensures |Order(obj.sections)| == 4
    ensures Order(obj.sections)[n] >= 0 ==> IsNamed(obj, n, Order(obj.sections)[n])
    ensures Order(obj.sections)[n] < 0 ==> Missing(obj, n)
  {
    var i := FindName(obj.sections, NAMES[n], 0);
    assert Order(obj.sections)[n] == i;
    FirstFound(obj.sections, NAMES[n], 0);
  }

  lemma {:induction false} FirstFound(sections: seq<Section>, name: string, from: nat)
    requires from <= |sections|
    ensures var i := FindName(sections, name, from);
            i >= 0 ==> forall j :: from <= j < i ==> sections[j].name != name
    decreases |sections| - from
  {
    if from < |sections| && sections[from].name != name {
      FirstFound(sections, name, from + 1);
    }
  }

  lemma {:induction false} SameName(obj: ObjectFile, n: nat, i: nat, j: nat)
    requires IsNamed(obj, n, i) && IsNamed(obj, n, j)
    ensures i == j
  {
  }

  lemma {:induction false} OnlyOne(obj: ObjectFile, n: nat, i: nat)
    requires IsNamed(obj, n, i)
    ensures forall j: nat :: IsNamed(obj, n, j) ==> j == i
  {
  }

  /** The aligned address, found. */
  lemma {:induction false} AlignedAt(s: Section, before: Word, p: int)
    requires Aligned(s) && before + AlignmentOf(s) <= 0x1_0000_0000_0000_0000
    requires before <= p < before + AlignmentOf(s) && p % AlignmentOf(s) == 0
    ensures AlignUp(before, Alignment(s)) == p
  {
    hide AlignUp;
    Pow2Values();
    if s.align <= 1 {
      assert Alignment(s) == Pow2(0);
      AlignUpIsNext(before, 0);
    } else {
      var k: nat :| k < 64 && s.align == Pow2(k);
      AlignUpIsNext(before, k);
      var r := AlignUp(before, Pow2(k));
      OneMultiple(before, r, p, Pow2(k));
    }
  }

  lemma {:induction false} OneMultiple(before: int, r: int, p: int, a: nat)
    requires a > 0 && r % a == 0 && p % a == 0 && before <= r < before + a && before <= p < before + a
    ensures r == p
  {
    var x, y := r / a, p / a;
    assert p - r == a * (y - x) by { Distribute(a, x, y); }
    SmallMultiple(a, y - x);
  }

  lemma {:induction false} Distribute(a: int, x: int, y: int)
    ensures a * y - a * x == a * (y - x)
  {
  }

  lemma {:induction false} SmallMultiple(a: int, d: int)
    requires a > 0 && a * d < a && -a < a * d
    ensures d == 0
  {
    if d > 0 {
      ScaleMono(a, d);
    } else if d < 0 {
      ScaleMono(a, -d);
    }
  }

  /** Where a named section stands. */
  lemma {:induction false} StandsThere(obj: ObjectFile, ram: nat, n: nat, i: nat, before: Word, p: int, after: int)
    requires n < 4 && IsNamed(obj, n, i) && Aligned(obj.sections[i]) && StandsAt(obj, ram, n, before, p, after)
    ensures
      var s := obj.sections[i];
      && AlignUp(before, Alignment(s)) == p
      && p + s.size < 0x1_0000_0000_0000_0000 && s.offset + s.size < 0x1_0000_0000_0000_0000
      && after == p + (if HasRoom(s, p, ram) && HasBytes(obj, s) then s.size else 0)
  {
    hide AlignUp, Aligned, Alignment, AlignmentOf, HasRoom, HasBytes;
    AlignedAt(obj.sections[i], before, p);
  }

  /** A range check whose sum does not wrap. */
  lemma {:induction false} PlainCheck(size: nat, at: Word, len: Word)
    requires at + len < 0x1_0000_0000_0000_0000
    ensures Passes(size, at, len) <==> at + len <= size
  {
  }

  /** Placing one section. */
  lemma {:induction false} PlacedOne(obj: ObjectFile, lay: Layout, n: nat, i: nat, p: int, after: int)
    requires n < 4 && IsNamed(obj, n, i) && |lay.addr| == |obj.sections| && |lay.mem| < 0x1_0000_0000_0000_0000
    requires Aligned(obj.sections[i]) && !lay.wild && StandsAt(obj, |lay.mem|, n, lay.cursor, p, after)
    ensures
      var s, r := obj.sections[i], Placed(obj.sections, obj.file, lay, i);
      && !r.wild && r.cursor == after && r.addr == lay.addr[i := p]
      && r.error == (if !HasRoom(s, p, |lay.mem|) then "object sections exceed guest RAM"
                     else if !HasBytes(obj, s) then "section data out of range"
                     else lay.error)
  {
    hide AlignUp, Aligned, Overwritten, Contents, Alignment, StandsAt, Passes;
    StandsThere(obj, |lay.mem|, n, i, lay.cursor, p, after);
    var s := obj.sections[i];
    PlainCheck(|lay.mem|, p, s.size);
    PlainCheck(|obj.file|, s.offset, s.size);
  }

  /** The first n sections, placed. */
  lemma {:induction false} PlacedFirst(obj: ObjectFile, base: Word, mem: seq<Byte>, ps: seq<int>, cs: seq<int>, n: nat)
    requires |mem| < 0x1_0000_0000_0000_0000 && AlignmentsValid(obj) && Positions(obj, base, |mem|, ps, cs, n)
    ensures n <= |Order(obj.sections)|
    ensures
      var r := PlacedAll(obj.sections, obj.file, Initial(obj, base, mem), Order(obj.sections)[..n]);
      && !r.wild && r.cursor == cs[n] && r.error == Trouble(obj, |mem|, ps, n)
      && forall k, i: nat :: 0 <= k < n && IsNamed(obj, k, i) ==> r.addr[i] == ps[k]
  {
    hide Placed, Order, IsNamed, StandsAt, HasRoom, HasBytes, Aligned;
    var ids, lay0 := Order(obj.sections), Initial(obj, base, mem);
    if n == 0 {
      NotNamed(obj, 0);
      return;
    }
    NotNamed(obj, n - 1);
    PlacedFirst(obj, base, mem, ps, cs, n - 1);
    PlacedNext(obj, lay0, ids, n);
    var lay := PlacedAll(obj.sections, obj.file, lay0, ids[..n - 1]);
    assert StandsAt(obj, |mem|, n - 1, cs[n - 1], ps[n - 1], cs[n]);
    if ids[n - 1] >= 0 {
      NamedNext(obj, lay, ps, cs, n, ids[n - 1]);
    } else {
      MissingNext(obj, lay, ps, cs, n, ids[n - 1]);
      NoneOfThem(obj, n - 1);
    }
  }

  lemma {:induction false} PlacedNext(obj: ObjectFile, lay: Layout, ids: seq<int>, n: nat)
    requires 0 < n <= |ids| && |lay.addr| == |obj.sections| && |lay.mem| < 0x1_0000_0000_0000_0000
    requires forall k :: 0 <= k < |ids| ==> ids[k] < |obj.sections|
    ensures PlacedAll(obj.sections, obj.file, lay, ids[..n]) ==
            Placed(obj.sections, obj.file, PlacedAll(obj.sections, obj.file, lay, ids[..n - 1]), ids[n - 1])
  {
    hide Placed;
    assert ids[..n][..n - 1] == ids[..n - 1];
  }

  /** One more section, which the object has. */
  lemma {:induction false} NamedNext(obj: ObjectFile, lay: Layout, ps: seq<int>, cs: seq<int>, n: nat, i: nat)
    requires 0 < n <= 4 == |ps| && |cs| == 5 && IsNamed(obj, n - 1, i) && Aligned(obj.sections[i])
    requires |lay.addr| == |obj.sections| && |lay.mem| < 0x1_0000_0000_0000_0000 && !lay.wild
    requires lay.cursor == cs[n - 1] && StandsAt(obj, |lay.mem|, n - 1, cs[n - 1], ps[n - 1], cs[n])
    requires lay.error == Trouble(obj, |lay.mem|, ps, n - 1)
    requires forall k, j: nat :: 0 <= k < n - 1 && IsNamed(obj, k, j) ==> lay.addr[j] == ps[k]
    ensures
      var r := Placed(obj.sections, obj.file, lay, i);
      && !r.wild && r.cursor == cs[n] && r.error == Trouble(obj, |lay.mem|, ps, n)
      && forall k, j: nat :: 0 <= k < n && IsNamed(obj, k, j) ==> r.addr[j] == ps[k]
  {
    hide Placed, StandsAt, HasRoom, HasBytes, Aligned;
    PlacedOne(obj, lay, n - 1, i, ps[n - 1], cs[n]);
    var r := Placed(obj.sections, obj.file, lay, i);
    forall k, j: nat | 0 <= k < n && IsNamed(obj, k, j) ensures r.addr[j] == ps[k] {
      if k == n - 1 {
        SameName(obj, k, i, j);
      } else {
        OtherName(obj, k, j, n - 1, i);
      }
    }
    OnlyOne(obj, n - 1, i);
  }

  lemma {:induction false} OtherName(obj: ObjectFile, k: nat, j: nat, n: nat, i: nat)
    requires k != n && IsNamed(obj, k, j) && IsNamed(obj, n, i)
    ensures j != i
  {
    var names := NAMES;
    assert |names[0]| == 5 && |names[1]| == 7 && |names[2]| == 5 && |names[3]| == 4;
    assert names[0][1] == 't' && names[2][1] == 'd';
  }

  /** One more that it does not have. */
  lemma {:induction false} MissingNext(obj: ObjectFile, lay: Layout, ps: seq<int>, cs: seq<int>, n: nat, i: int)
    requires i < 0 < n <= 4 == |ps| && |cs| == 5 && Missing(obj, n - 1)
    requires |lay.addr| == |obj.sections| && |lay.mem| < 0x1_0000_0000_0000_0000
    requires lay.cursor == cs[n - 1] && StandsAt(obj, |lay.mem|, n - 1, cs[n - 1], ps[n - 1], cs[n])
    ensures
      && Placed(obj.sections, obj.file, lay, i) == lay && lay.cursor == cs[n]
      && Trouble(obj, |lay.mem|, ps, n) == Trouble(obj, |lay.mem|, ps, n - 1)
  {
    hide IsNamed;
  }

  lemma {:induction false} NoneOfThem(obj: ObjectFile, n: nat)
    requires Missing(obj, n)
    ensures forall k, i: nat :: k == n ==> !IsNamed(obj, k, i)
  {
  }

  /** What a load comes to, sections standing where they should: without a section
      called .text, that error and nothing done; if a section has no room or no bytes,
      the error of the last such; and otherwise the sections are where they should
      be, and the load succeeds unless a relocation leaves RAM. */
  lemma {:induction false} LoadMeans(obj: ObjectFile, base: Word, mem: seq<Byte>, ps: seq<int>, cs: seq<int>)
    requires obj.Valid() && |mem| < 0x1_0000_0000_0000_0000 && AlignmentsValid(obj)
    requires Positions(obj, base, |mem|, ps, cs, 4)
    ensures
      var r, e := LoadResult(obj, base, mem), Trouble(obj, |mem|, ps, 4);
      if forall i :: 0 <= i < |obj.sections| ==> obj.sections[i].name != ".text" then
        r == Finished(LoadedImage(false, 0, 0, 0, "no .text section"), mem)
      else if e != "" then r.Finished? && r.image == LoadedImage(false, 0, 0, 0, e)
      else
        && (forall n, i: nat :: 0 <= n < 4 && IsNamed(obj, n, i) ==> Addresses(obj, base, mem)[i] == ps[n])
        && (r.Finished? ==> r.image.ok)
  {
    hide PlacedAll, IsNamed, StandsAt, Entry, Stray, FieldsOf, FixesOf, StoreAll, Order;
    PlacedFirst(obj, base, mem, ps, cs, 4);
    NotNamed(obj, 0);
    assert Order(obj.sections)[..4] == Order(obj.sections);
    HasText(obj, 0);
  }

  lemma {:induction false} HasText(obj: ObjectFile, from: nat)
    ensures FindName(obj.sections, ".text", 0) < 0 <==>
            forall i :: 0 <= i < |obj.sections| ==> obj.sections[i].name != ".text"
  {
  }
}
