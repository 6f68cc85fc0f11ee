/** Placing the sections of a relocatable object in guest RAM. */
module Placement {
  import opened Words
  import opened Memory

  // ---------------------------------------------------------------- alignment

  /** `align_up`: `(v + a - 1) & ~(a - 1)`, in 64-bit arithmetic. */
  function AlignUp(v: Word, a: Word): Word {
    if a == 0 then v else BitAnd(Wrap64(v + a - 1), BitNot(a - 1))
  }

  /** Masking with the complement of 2^k - 1 drops the remainder modulo 2^k. */
  lemma {:induction false} AndHighMask(x: nat, k: nat, n: nat)
    requires k <= n && x < Pow2(n)
    ensures Pow2(k) <= Pow2(n) && BitOp(LAnd, x, Pow2(n) - Pow2(k), n) == x - x % Pow2(k)
    decreases n
  {
    hide BitOp;
    Pow2Mono(k, n);
    if k == 0 {
      AndLowMask(x, n, n);
      ModUnique(x, Pow2(n), 0, x);
    } else {
      HalfHighMask(x, k, n);
      AndHighMask(x / 2, k - 1, n - 1);
      hide Pow2;
      HalfMod(x, Pow2(k - 1));
    }
  }

  lemma {:induction false} HalfHighMask(x: nat, k: nat, n: nat)
    requires 0 < k <= n && x < Pow2(n) && Pow2(k) <= Pow2(n)
    ensures Pow2(n) == 2 * Pow2(n - 1) && Pow2(k) == 2 * Pow2(k - 1) && x / 2 < Pow2(n - 1)
    ensures BitOp(LAnd, x, Pow2(n) - Pow2(k), n) == 2 * BitOp(LAnd, x / 2, Pow2(n - 1) - Pow2(k - 1), n - 1)
  {
    var mask := Pow2(n) - Pow2(k);
    assert mask / 2 == Pow2(n - 1) - Pow2(k - 1) && mask % 2 == 0;
  }

  lemma {:induction false} Pow2Mono(k: nat, n: nat)
    requires k <= n
    ensures Pow2(k) <= Pow2(n)
    decreases n
  {
    if k < n {
      Pow2Mono(k, n - 1);
    }
  }

  lemma {:induction false} SmallPower(k: nat)
    requires k < 64
    ensures 1 <= Pow2(k) <= 0x8000_0000_0000_0000
  {
    Pow2Values();
    Pow2Mono(k, 63);
  }

  lemma {:induction false} AlignUpValue(v: Word, k: nat)
    requires k < 64 && v + Pow2(k) - 1 < 0x1_0000_0000_0000_0000
    ensures Pow2(k) < 0x1_0000_0000_0000_0000
    ensures var x := v + Pow2(k) - 1; AlignUp(v, Pow2(k)) == x - x % Pow2(k)
  {
    hide BitOp, Pow2;
    SmallPower(k);
    Pow2Values();
    AndHighMask(v + Pow2(k) - 1, k, 64);
  }

  lemma {:induction false} RoundDown(x: nat, p: nat)
    requires p > 0
    ensures (x - x % p) % p == 0 && x - p < x - x % p <= x
  {
    var q := x / p;
    assert x - x % p == p * q;
    ModUnique(p * q, p, q, 0);
  }

  /** For a power of two, and unless the sum wraps, `align_up` gives the next
      multiple: the least one that is not below v. */
  lemma {:induction false} AlignUpIsNext(v: Word, k: nat)
    requires k < 64 && v + Pow2(k) - 1 < 0x1_0000_0000_0000_0000
    ensures Pow2(k) < 0x1_0000_0000_0000_0000
    ensures var r := AlignUp(v, Pow2(k)); r % Pow2(k) == 0 && v <= r < v + Pow2(k)
    ensures forall m: nat :: v <= m && m % Pow2(k) == 0 ==> AlignUp(v, Pow2(k)) <= m
  {
    hide AlignUp, Pow2;
    SmallPower(k);
    AlignUpValue(v, k);
    RoundDown(v + Pow2(k) - 1, Pow2(k));
    var p := Pow2(k);
    forall m: nat | v <= m && m % p == 0 ensures AlignUp(v, p) <= m {
      NoMultipleBetween(AlignUp(v, p), m, p);
    }
  }

  /** Multiples of p are at least p apart. */
  lemma {:induction false} NoMultipleBetween(r: nat, m: nat, p: nat)
    requires p > 0 && r % p == 0 && m % p == 0 && m > r - p
    ensures r <= m
  {
    var a, b := r / p, m / p;
    assert r == p * a && m == p * b;
    assert p * (a - b) == r - m;
    if a > b {
      ScaleMono(p, a - b);
    }
  }

  // ---------------------------------------------------------------- sections

  const NOBITS: Half := 8
  const RELA: Half := 4

  /** The section header fields the loader uses. */
  datatype Section = Section(name: string, kind: Half, align: Word, offset: Word, size: Word, info: Half)

  /** `std::max(sh_addralign, 1)` */
  function Alignment(s: Section): Word {
    if s.align > 1 then s.align else 1
  }

  /** The loader's state; wild once it has run outside RAM or outside the file,
      after which nothing is known about it. */
  datatype Layout = Layout(cursor: Word, addr: seq<Word>, mem: seq<Byte>, error: string, wild: bool)

  const TOO_BIG: string := "object sections exceed guest RAM"
  const NO_DATA: string := "section data out of range"

  /** The bytes a section occupies in memory. */
  function Contents(s: Section, file: seq<Byte>): (c: seq<Byte>)
    requires s.kind != NOBITS ==> s.offset + s.size <= |file|
    ensures |c| == s.size
  {
    if s.kind == NOBITS then seq(s.size, _ => 0) else file[s.offset..s.offset + s.size]
  }

  function Overwritten(mem: seq<Byte>, at: nat, bytes: seq<Byte>): (r: seq<Byte>)
    requires at + |bytes| <= |mem|
    ensures |r| == |mem|
    ensures forall a :: 0 <= a < |mem| ==> r[a] == if at <= a < at + |bytes| then bytes[a - at] else mem[a]
  {
    mem[..at] + bytes + mem[at + |bytes|..]
  }

  /** One call of `place`; idx is negative for a section the object does not have.
      Both range checks are computed in 64 bits. */
  function Placed(sections: seq<Section>, file: seq<Byte>, lay: Layout, idx: int): (r: Layout)
    requires idx < |sections| == |lay.addr| && |lay.mem| < 0x1_0000_0000_0000_0000
    ensures |r.addr| == |lay.addr| && |r.mem| == |lay.mem|
  {
    if idx < 0 || lay.wild then lay
    else
      var s := sections[idx];
      var at := AlignUp(lay.cursor, Alignment(s));
      var aligned := lay.(cursor := at, addr := lay.addr[idx := at]);
      if s.size == 0 then aligned
      else if !Passes(|lay.mem|, at, s.size) then aligned.(error := TOO_BIG)
      else if at + s.size > |lay.mem| then aligned.(wild := true)
      else if s.kind != NOBITS && !Passes(|file|, s.offset, s.size) then
        aligned.(mem := Overwritten(lay.mem, at, seq(s.size, _ => 0)), error := NO_DATA)
      else if s.kind != NOBITS && s.offset + s.size > |file| then
        aligned.(mem := Overwritten(lay.mem, at, seq(s.size, _ => 0)), wild := true)
      else aligned.(cursor := at + s.size, mem := Overwritten(lay.mem, at, Contents(s, file)))
  }

  /** The sections ids placed one after the other. */
  function PlacedAll(sections: seq<Section>, file: seq<Byte>, lay: Layout, ids: seq<int>): (r: Layout)
    requires |sections| == |lay.addr| && |lay.mem| < 0x1_0000_0000_0000_0000
    requires forall k :: 0 <= k < |ids| ==> ids[k] < |sections|
    ensures |r.addr| == |lay.addr| && |r.mem| == |lay.mem|
    decreases |ids|
  {
    if ids == [] then lay
    else Placed(sections, file, PlacedAll(sections, file, lay, ids[..|ids| - 1]), ids[|ids| - 1])
  }

  // ---------------------------------------------------------------- soundness

  /** The alignment is 0 or a power of two, as the ELF specification demands. */
  ghost predicate Aligned(s: Section) {
    s.align == 0 || exists k: nat :: k < 64 && s.align == Pow2(k)
  }

  /** Two section indices are not the same section. */
  predicate Different(ids: seq<int>) {
    forall k, l :: 0 <= k < l < |ids| && ids[k] >= 0 ==> ids[k] != ids[l]
  }

  /** Section i occupies an aligned interval inside [lo, hi) and holds its bytes. */
  ghost predicate Holds(sections: seq<Section>, file: seq<Byte>, lay: Layout, i: nat, lo: int, hi: int)
    requires i < |sections| == |lay.addr|
  {
    var s, at := sections[i], lay.addr[i];
    && lo <= at && at + s.size <= hi && at % Alignment(s) == 0
    && (s.size > 0 ==>
          && at + s.size <= |lay.mem|
          && (s.kind != NOBITS ==> s.offset + s.size <= |file|)
          && forall j :: 0 <= j < s.size ==> lay.mem[at + j] == Contents(s, file)[j])
  }

  /** Address a belongs to one of the placed sections. */
  ghost predicate Covered(sections: seq<Section>, lay: Layout, ids: seq<int>, a: int)
    requires |sections| == |lay.addr| && forall k :: 0 <= k < |ids| ==> ids[k] < |sections|
  {
    exists k :: 0 <= k < |ids| && ids[k] >= 0 && lay.addr[ids[k]] <= a < lay.addr[ids[k]] + sections[ids[k]].size
  }

  /** Everything placement promises about sections ids placed after lay. */
  ghost predicate Sound(sections: seq<Section>, file: seq<Byte>, lay: Layout, ids: seq<int>, r: Layout)
    requires |sections| == |lay.addr| == |r.addr| && forall k :: 0 <= k < |ids| ==> ids[k] < |sections|
  {
    && |r.mem| == |lay.mem| && lay.cursor <= r.cursor
    // each is aligned, inside RAM, and holds its bytes
    && (forall k :: 0 <= k < |ids| && ids[k] >= 0 ==> Holds(sections, file, r, ids[k], lay.cursor, r.cursor))
    // they follow each other without overlapping
    && (forall k, l :: 0 <= k < l < |ids| && ids[k] >= 0 && ids[l] >= 0 ==>
          r.addr[ids[k]] + sections[ids[k]].size <= r.addr[ids[l]])
    // nothing else changes
    && (forall a :: 0 <= a < |lay.mem| && !Covered(sections, r, ids, a) ==> r.mem[a] == lay.mem[a])
    && (forall i :: 0 <= i < |sections| && i !in ids ==> r.addr[i] == lay.addr[i])
  }

  /** Placement came to its end: no error and no wild access. */
  predicate Clean(lay: Layout) {
    lay.error == "" && !lay.wild
  }

  /** A failure is never forgotten. */
  lemma {:induction false} FailureStays(sections: seq<Section>, file: seq<Byte>, lay: Layout, idx: int)
    requires idx < |sections| == |lay.addr| && |lay.mem| < 0x1_0000_0000_0000_0000
    ensures !Clean(lay) ==> !Clean(Placed(sections, file, lay, idx))
  {
    hide AlignUp;
  }

  /** No alignment runs past the end of the address space. */
  predicate NoAlignWrap(sections: seq<Section>, file: seq<Byte>, lay: Layout, ids: seq<int>)
    requires |sections| == |lay.addr| && |lay.mem| < 0x1_0000_0000_0000_0000
    requires forall k :: 0 <= k < |ids| ==> ids[k] < |sections|
    decreases |ids|
  {
    ids == [] ||
    (var front, last := ids[..|ids| - 1], ids[|ids| - 1];
     && NoAlignWrap(sections, file, lay, front)
     && (last >= 0 ==>
           PlacedAll(sections, file, lay, front).cursor + Alignment(sections[last]) - 1 < 0x1_0000_0000_0000_0000))
  }

  lemma {:induction false} AlignedNext(s: Section, cursor: Word)
    requires Aligned(s)
    ensures
      var at := AlignUp(cursor, Alignment(s));
      if cursor + Alignment(s) - 1 < 0x1_0000_0000_0000_0000 then cursor <= at && at % Alignment(s) == 0
      else at == 0 < cursor
  {
    Pow2Values();
    if s.align <= 1 {
      assert Alignment(s) == Pow2(0);
      AlignUpIsNext(cursor, 0);
    } else {
      var k: nat :| k < 64 && s.align == Pow2(k);
      hide AlignUp;
      SmallPower(k);
      if cursor + Pow2(k) - 1 < 0x1_0000_0000_0000_0000 {
        AlignUpIsNext(cursor, k);
      } else {
        AlignUpWraps(cursor, k);
      }
    }
  }

  /** An alignment that wraps starts again at address 0. */
  lemma {:induction false} AlignUpWraps(v: Word, k: nat)
    requires k < 64 && v + Pow2(k) - 1 >= 0x1_0000_0000_0000_0000
    ensures Pow2(k) < 0x1_0000_0000_0000_0000
    ensures AlignUp(v, Pow2(k)) == 0
  {
    hide BitOp, Pow2;
    SmallPower(k);
    Pow2Values();
    var x: int := v + Pow2(k) - 1 - 0x1_0000_0000_0000_0000;
    ModUnique(v + Pow2(k) - 1, 0x1_0000_0000_0000_0000, 1, x);
    AndHighMask(x, k, 64);
    ModUnique(x, Pow2(k), 0, x);
  }

  /** Aligning the last address to 16 gives address 0. */
  lemma {:induction false} LastAddressWraps()
    ensures AlignUp(0xFFFF_FFFF_FFFF_FFFF, 16) == 0
  {
    hide AlignUp;
    AlignUpWraps(0xFFFF_FFFF_FFFF_FFFF, 4);
  }

  /** Placing sections, with power-of-two alignments, that comes to its end: exactly
      if no alignment wraps around, they occupy ordered, disjoint, aligned intervals
      inside guest RAM that hold the file's bytes (zeros for .bss), and nothing else
      changes. */
  lemma {:induction false} PlacementSound(sections: seq<Section>, file: seq<Byte>, lay: Layout, ids: seq<int>)
    requires |sections| == |lay.addr| && |lay.mem| < 0x1_0000_0000_0000_0000
    requires forall k :: 0 <= k < |ids| ==> ids[k] < |sections| && (ids[k] >= 0 ==> Aligned(sections[ids[k]]))
    requires Different(ids) && Clean(PlacedAll(sections, file, lay, ids))
    ensures Sound(sections, file, lay, ids, PlacedAll(sections, file, lay, ids)) <==>
            NoAlignWrap(sections, file, lay, ids)
    decreases |ids|
  {
    hide Sound, NoAlignWrap;
    if NoAlignWrap(sections, file, lay, ids) {
      PlacedSoundly(sections, file, lay, ids);
    } else {
      WrapIsUnsound(sections, file, lay, ids);
    }
  }

  lemma {:induction false} PlacedSoundly(sections: seq<Section>, file: seq<Byte>, lay: Layout, ids: seq<int>)
    requires |sections| == |lay.addr| && |lay.mem| < 0x1_0000_0000_0000_0000
    requires forall k :: 0 <= k < |ids| ==> ids[k] < |sections| && (ids[k] >= 0 ==> Aligned(sections[ids[k]]))
    requires Different(ids) && Clean(PlacedAll(sections, file, lay, ids)) && NoAlignWrap(sections, file, lay, ids)
    ensures Sound(sections, file, lay, ids, PlacedAll(sections, file, lay, ids))
    decreases |ids|
  {
    hide AlignUp, Alignment, Contents;
    if ids != [] {
      var front, last := ids[..|ids| - 1], ids[|ids| - 1];
      var mid := PlacedAll(sections, file, lay, front);
      FailureStays(sections, file, mid, last);
      PlacedSoundly(sections, file, lay, front);
      hide PlacedAll, Placed, Sound;
      if last < 0 {
        NothingPlaced(sections, file, lay, ids);
      } else {
        AlignedNext(sections[last], mid.cursor);
        OneMorePlaced(sections, file, lay, front, mid, last);
        assert ids == front + [last];
      }
    }
  }

  /** The cursor is at the end of the section placed last, or where it was. */
  lemma {:induction false} CursorAt(sections: seq<Section>, file: seq<Byte>, lay: Layout, ids: seq<int>)
    requires |sections| == |lay.addr| && |lay.mem| < 0x1_0000_0000_0000_0000
    requires forall k :: 0 <= k < |ids| ==> ids[k] < |sections|
    requires Different(ids) && Clean(PlacedAll(sections, file, lay, ids))
    ensures
      var r := PlacedAll(sections, file, lay, ids);
      if (exists k :: 0 <= k < |ids| && ids[k] >= 0)
      then exists k :: 0 <= k < |ids| && ids[k] >= 0 && r.addr[ids[k]] + sections[ids[k]].size == r.cursor
      else r.cursor == lay.cursor
    decreases |ids|
  {
    hide AlignUp, Alignment, Contents, Overwritten;
    if ids != [] {
      var front, last := ids[..|ids| - 1], ids[|ids| - 1];
      var mid := PlacedAll(sections, file, lay, front);
      FailureStays(sections, file, mid, last);
      CursorAt(sections, file, lay, front);
      var r := PlacedAll(sections, file, lay, ids);
      if last >= 0 {
        assert ids[|ids| - 1] >= 0 && r.addr[ids[|ids| - 1]] + sections[ids[|ids| - 1]].size == r.cursor;
      } else if k :| 0 <= k < |front| && front[k] >= 0 && mid.addr[front[k]] + sections[front[k]].size == mid.cursor {
        assert ids[k] == front[k];
      }
    }
  }

  /** Placing one more section leaves the addresses of the others. */
  lemma {:induction false} AddressStays(sections: seq<Section>, file: seq<Byte>, lay: Layout, ids: seq<int>, i: nat,
      n: nat)
    requires i < |sections| == |lay.addr| && |lay.mem| < 0x1_0000_0000_0000_0000
    requires forall k :: 0 <= k < |ids| ==> ids[k] < |sections|
    requires n <= |ids| && forall k :: n <= k < |ids| ==> ids[k] != i
    ensures PlacedAll(sections, file, lay, ids).addr[i] == PlacedAll(sections, file, lay, ids[..n]).addr[i]
    decreases |ids|
  {
    hide AlignUp, Alignment, Contents, Overwritten;
    if n == |ids| {
      assert ids[..n] == ids;
    } else {
      var front := ids[..|ids| - 1];
      assert front[..n] == ids[..n];
      AddressStays(sections, file, lay, front, i, n);
    }
  }

  /** A section whose alignment wraps lands below one placed before it, or below the
      place where placement began. */
  lemma {:induction false} WrapIsUnsound(sections: seq<Section>, file: seq<Byte>, lay: Layout, ids: seq<int>)
    requires |sections| == |lay.addr| && |lay.mem| < 0x1_0000_0000_0000_0000
    requires forall k :: 0 <= k < |ids| ==> ids[k] < |sections| && (ids[k] >= 0 ==> Aligned(sections[ids[k]]))
    requires Different(ids) && Clean(PlacedAll(sections, file, lay, ids)) && !NoAlignWrap(sections, file, lay, ids)
    ensures !Sound(sections, file, lay, ids, PlacedAll(sections, file, lay, ids))
  {
    hide AlignUp, Alignment, Contents, Placed, PlacedAll, Holds, Covered;
    var n := FirstWrap(sections, file, lay, ids);
    var r, mid := PlacedAll(sections, file, lay, ids), PlacedAll(sections, file, lay, ids[..n]);
    AlignedNext(sections[ids[n]], mid.cursor);
    LandsAt(sections, file, lay, ids, n);
    assert r.addr[ids[n]] == 0 < mid.cursor;
    CursorAt(sections, file, lay, ids[..n]);
    if k :| 0 <= k < n && ids[k] >= 0 {
      assert ids[..n][k] == ids[k];
      var l :| 0 <= l < n && ids[..n][l] >= 0 && mid.addr[ids[..n][l]] + sections[ids[..n][l]].size == mid.cursor;
      assert ids[l] == ids[..n][l];
      AddressStays(sections, file, lay, ids, ids[l], n);
      assert r.addr[ids[l]] + sections[ids[l]].size > r.addr[ids[n]];
    } else {
      assert mid.cursor == lay.cursor;
      assert !Holds(sections, file, r, ids[n], lay.cursor, r.cursor) by {
        BelowStart(sections, file, r, ids[n], lay.cursor, r.cursor);
      }
    }
  }

  lemma {:induction false} BelowStart(sections: seq<Section>, file: seq<Byte>, r: Layout, i: nat, lo: int, hi: int)
    requires i < |sections| == |r.addr| && r.addr[i] < lo
    ensures !Holds(sections, file, r, i, lo, hi)
  {
  }

  /** A position whose alignment wraps, and that placement up to it was clean. */
  lemma {:induction false} FirstWrap(sections: seq<Section>, file: seq<Byte>, lay: Layout, ids: seq<int>)
      returns (n: nat)
    requires |sections| == |lay.addr| && |lay.mem| < 0x1_0000_0000_0000_0000
    requires forall k :: 0 <= k < |ids| ==> ids[k] < |sections|
    requires Clean(PlacedAll(sections, file, lay, ids)) && !NoAlignWrap(sections, file, lay, ids)
    ensures n < |ids| && ids[n] >= 0
    ensures
      var mid := PlacedAll(sections, file, lay, ids[..n]);
      Clean(mid) && mid.cursor + Alignment(sections[ids[n]]) - 1 >= 0x1_0000_0000_0000_0000
    decreases |ids|
  {
    hide AlignUp, Alignment, Contents, Placed;
    var front, last := ids[..|ids| - 1], ids[|ids| - 1];
    FailureStays(sections, file, PlacedAll(sections, file, lay, front), last);
    if NoAlignWrap(sections, file, lay, front) {
      n := |front|;
    } else {
      n := FirstWrap(sections, file, lay, front);
      assert front[..n] == ids[..n];
    }
  }

  /** The section at position n gets the aligned cursor for its address, for good. */
  lemma {:induction false} LandsAt(sections: seq<Section>, file: seq<Byte>, lay: Layout, ids: seq<int>, n: nat)
    requires |sections| == |lay.addr| && |lay.mem| < 0x1_0000_0000_0000_0000
    requires forall k :: 0 <= k < |ids| ==> ids[k] < |sections|
    requires Different(ids) && n < |ids| && ids[n] >= 0 && Clean(PlacedAll(sections, file, lay, ids[..n]))
    ensures PlacedAll(sections, file, lay, ids).addr[ids[n]] ==
            AlignUp(PlacedAll(sections, file, lay, ids[..n]).cursor, Alignment(sections[ids[n]]))
  {
    hide AlignUp, Alignment, Contents, Overwritten;
    assert ids[..n + 1][..n] == ids[..n];
    AddressStays(sections, file, lay, ids, ids[n], n + 1);
  }

  lemma {:induction false} NothingPlaced(sections: seq<Section>, file: seq<Byte>, lay: Layout, ids: seq<int>)
    requires |sections| == |lay.addr| && |lay.mem| < 0x1_0000_0000_0000_0000
    requires forall k :: 0 <= k < |ids| ==> ids[k] < |sections|
    requires ids != [] && ids[|ids| - 1] < 0
    requires var front := ids[..|ids| - 1]; Sound(sections, file, lay, front, PlacedAll(sections, file, lay, front))
    ensures Sound(sections, file, lay, ids, PlacedAll(sections, file, lay, ids))
  {
    hide Holds;
    var front := ids[..|ids| - 1];
    var r := PlacedAll(sections, file, lay, front);
    assert PlacedAll(sections, file, lay, ids) == r;
    hide PlacedAll;
    forall a | 0 <= a < |lay.mem| && !Covered(sections, r, ids, a) ensures r.mem[a] == lay.mem[a] {
      if !Covered(sections, r, front, a) {
        assert r.mem[a] == lay.mem[a];
      }
    }
    forall i | 0 <= i < |sections| && i !in ids ensures r.addr[i] == lay.addr[i] {
      assert i !in front;
    }
  }

  /** The section just placed, and what its placement leaves alone. */
  lemma {:induction false} PlacedOne(sections: seq<Section>, file: seq<Byte>, mid: Layout, last: nat)
    requires last < |sections| == |mid.addr| && |mid.mem| < 0x1_0000_0000_0000_0000
    requires Clean(Placed(sections, file, mid, last))
    requires
      var at := AlignUp(mid.cursor, Alignment(sections[last]));
      mid.cursor <= at && at % Alignment(sections[last]) == 0
    ensures
      var r := Placed(sections, file, mid, last);
      var s, at := sections[last], AlignUp(mid.cursor, Alignment(sections[last]));
      && r.addr == mid.addr[last := at] && r.cursor == at + s.size
      && Holds(sections, file, r, last, mid.cursor, r.cursor)
      && forall a :: 0 <= a < |mid.mem| && !(at <= a < at + s.size) ==> r.mem[a] == mid.mem[a]
  {
    hide AlignUp, Alignment, Contents;
  }

  /** The memory and the address table after one section has been placed at `at`. */
  lemma {:induction false} OneMorePlaced(sections: seq<Section>, file: seq<Byte>, lay: Layout, front: seq<int>,
                                         mid: Layout, last: nat)
    requires |sections| == |lay.addr| == |mid.addr| && last < |sections|
    requires |lay.mem| == |mid.mem| < 0x1_0000_0000_0000_0000
    requires forall k :: 0 <= k < |front| ==> front[k] < |sections| && front[k] != last
    requires Sound(sections, file, lay, front, mid) && Clean(Placed(sections, file, mid, last))
    requires
      var at := AlignUp(mid.cursor, Alignment(sections[last]));
      mid.cursor <= at && at % Alignment(sections[last]) == 0
    ensures Sound(sections, file, lay, front + [last], Placed(sections, file, mid, last))
  {
    hide AlignUp, Alignment, Contents, Placed, Covered, Holds;
    var r := Placed(sections, file, mid, last);
    var s, at, ids := sections[last], AlignUp(mid.cursor, Alignment(sections[last])), front + [last];
    PlacedOne(sections, file, mid, last);
    HoldsOn(sections, file, r, r, last, mid.cursor, r.cursor, lay.cursor, r.cursor);
    forall k | 0 <= k < |front| && front[k] >= 0
      ensures Holds(sections, file, r, front[k], lay.cursor, r.cursor)
      ensures r.addr[front[k]] + sections[front[k]].size <= mid.cursor
    {
      HoldsOn(sections, file, mid, r, front[k], lay.cursor, mid.cursor, lay.cursor, r.cursor);
    }
    forall k, l | 0 <= k < l < |ids| && ids[k] >= 0 && ids[l] >= 0
      ensures r.addr[ids[k]] + sections[ids[k]].size <= r.addr[ids[l]]
    {
      assert ids[k] == front[k];
      if l < |front| {
        assert ids[l] == front[l];
      }
    }
    NothingElse(sections, lay, mid, r, front, last);
  }

  /** A section goes on holding its bytes while they are not touched. */
  lemma {:induction false} HoldsOn(sections: seq<Section>, file: seq<Byte>, mid: Layout, r: Layout, i: nat,
                                   lo: int, hi: int, lo': int, hi': int)
    requires i < |sections| == |mid.addr| == |r.addr| && Holds(sections, file, mid, i, lo, hi)
    requires lo' <= lo && hi <= hi' && r.addr[i] == mid.addr[i] && |r.mem| == |mid.mem|
    requires forall a :: 0 <= a < |mid.mem| && lo <= a < hi ==> r.mem[a] == mid.mem[a]
    ensures Holds(sections, file, r, i, lo', hi') && r.addr[i] + sections[i].size <= hi
  {
    hide Contents, Alignment;
  }

  lemma {:induction false} NothingElse(sections: seq<Section>, lay: Layout, mid: Layout, r: Layout, front: seq<int>,
      last: nat)
    requires |sections| == |lay.addr| == |mid.addr| == |r.addr| && last < |sections|
    requires |lay.mem| == |mid.mem| == |r.mem|
    requires forall k :: 0 <= k < |front| ==> front[k] < |sections| && front[k] != last
    requires r.addr == mid.addr[last := r.addr[last]]
    requires forall a :: 0 <= a < |lay.mem| && !Covered(sections, mid, front, a) ==> mid.mem[a] == lay.mem[a]
    requires forall a :: 0 <= a < |mid.mem| && !(r.addr[last] <= a < r.addr[last] + sections[last].size) ==>
               r.mem[a] == mid.mem[a]
    requires forall i :: 0 <= i < |sections| && i !in front ==> mid.addr[i] == lay.addr[i]
    ensures forall a :: 0 <= a < |lay.mem| && !Covered(sections, r, front + [last], a) ==> r.mem[a] == lay.mem[a]
    ensures forall i :: 0 <= i < |sections| && i !in front + [last] ==> r.addr[i] == lay.addr[i]
  {
    hide Covered;
    var ids := front + [last];
    forall a | 0 <= a < |lay.mem| && !Covered(sections, r, ids, a) ensures r.mem[a] == lay.mem[a] {
      StillCovered(sections, mid, r, front, last, a);
    }
    forall i | 0 <= i < |sections| && i !in ids ensures r.addr[i] == lay.addr[i] {
      assert i !in front;
      assert ids[|front|] == last;
    }
  }

  /** Covered addresses stay covered. */
  lemma {:induction false} StillCovered(sections: seq<Section>, mid: Layout, r: Layout, front: seq<int>, last: nat,
      a: int)
    requires |sections| == |mid.addr| == |r.addr| && last < |sections|
    requires forall k :: 0 <= k < |front| ==> front[k] < |sections| && front[k] != last
    requires r.addr == mid.addr[last := r.addr[last]]
    ensures Covered(sections, mid, front, a) ==> Covered(sections, r, front + [last], a)
    ensures r.addr[last] <= a < r.addr[last] + sections[last].size ==> Covered(sections, r, front + [last], a)
  {
    var ids := front + [last];
    assert ids[|front|] == last;
    if Covered(sections, mid, front, a) {
      var k :| 0 <= k < |front| && front[k] >= 0 &&
               mid.addr[front[k]] <= a < mid.addr[front[k]] + sections[front[k]].size;
      assert ids[k] == front[k];
      assert r.addr[front[k]] == mid.addr[front[k]];
    }
  }
}
