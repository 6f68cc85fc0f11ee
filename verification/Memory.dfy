/** Guest memory: bounded little-endian loads and stores at four widths.
 *
 * `LoadMem` and `StoreMem` are the interpreter's accessors on a memory value;
 * `LoadFrom` and `StoreTo` are the same accessors in place, on one vCPU's
 * slice of a byte array.  `GuestMemory` is the host's bounds-checked memory.
 */
module Memory {
  import opened Words

  // ---------------------------------------------------------------- little-endian numbers

  function Pow256(n: nat): (p: nat)
    ensures p > 0
  {
    if n == 0 then 1 else 256 * Pow256(n - 1)
  }

  /** The number whose bytes, least significant first, are bs. */
  function LE(bs: seq<Byte>): (v: nat)
    ensures v < Pow256(|bs|)
  {
    if bs == [] then 0 else bs[0] + 256 * LE(bs[1..])
  }

  /** The n least significant bytes of v, least significant first. */
  function Bytes(v: nat, n: nat): (bs: seq<Byte>)
    ensures |bs| == n
  {
    if n == 0 then [] else [v % 256] + Bytes(v / 256, n - 1)
  }

  function ByteOf(v: nat, k: nat): Byte {
    if k == 0 then v % 256 else ByteOf(v / 256, k - 1)
  }

  lemma {:induction false} BytesAt(v: nat, n: nat, k: nat)
    requires k < n
    ensures Bytes(v, n)[k] == ByteOf(v, k)
  {
    if k > 0 {
      BytesAt(v / 256, n - 1, k - 1);
    }
  }

  lemma {:induction false} BytesThenLE(v: nat, n: nat)
    requires v < Pow256(n)
    ensures LE(Bytes(v, n)) == v
  {
    if n > 0 {
      BytesThenLE(v / 256, n - 1);
      assert Bytes(v, n)[1..] == Bytes(v / 256, n - 1);
    }
  }

  lemma {:induction false} LEThenBytes(bs: seq<Byte>)
    ensures Bytes(LE(bs), |bs|) == bs
  {
    if bs != [] {
      LEThenBytes(bs[1..]);
      assert LE(bs) / 256 == LE(bs[1..]);
      assert bs == [bs[0]] + bs[1..];
    }
  }

  lemma {:induction false} SpanIsPow256(w: Width)
    ensures Pow256(w) == Span(w)
  {
    assert Pow256(4) == 0x1_0000_0000;
    assert Pow256(8) == 0x1_0000_0000_0000_0000;
  }

  /** The bytes of a truncated value are the low bytes of the value. */
  lemma {:induction false} ByteOfTrunc(v: Word, w: Width, k: nat)
    requires k < w
    ensures ByteOf(Trunc(v, w), k) == ByteOf(v, k)
  {
    SpanIsPow256(w);
    ByteOfMod(v, w, k);
  }

  lemma {:induction false} ByteOfMod(v: nat, n: nat, k: nat)
    requires k < n
    ensures ByteOf(v % Pow256(n), k) == ByteOf(v, k)
  {
    ByteMod(v, Pow256(n - 1));
    var m := v % Pow256(n);
    assert m % 256 == v % 256 && m / 256 == (v / 256) % Pow256(n - 1);
    if k > 0 {
      ByteOfMod(v / 256, n - 1, k - 1);
    }
  }

  // ---------------------------------------------------------------- loads and stores

  /** The value of a slice of at most eight bytes is a machine word. */
  function LoadBytes(bs: seq<Byte>): Word
    requires |bs| == 1 || |bs| == 2 || |bs| == 4 || |bs| == 8
  {
    SpanIsPow256(|bs|);
    LE(bs)
  }

  function LoadMem(mem: seq<Byte>, addr: Word, w: Width): Word {
    if addr >= |mem| then 0
    else if w == 1 then mem[addr]
    else if addr + w > |mem| then 0
    else LoadBytes(mem[addr..addr + w])
  }

  function StoreMem(mem: seq<Byte>, addr: Word, val: Word, w: Width): (mem': seq<Byte>)
    ensures |mem'| == |mem|
  {
    if addr >= |mem| then mem
    else if addr + w > |mem| then mem
    else mem[..addr] + Bytes(Trunc(val, w), w) + mem[addr + w..]
  }

  /** Whether the w bytes at addr all lie in a memory of the given size. */
  predicate InRange(size: nat, addr: Word, w: Width) {
    addr + w <= size
  }

  /** A load is the little-endian reading of its bytes, and 0 out of range. */
  lemma {:induction false} LoadMemIsLE(mem: seq<Byte>, addr: Word, w: Width)
    ensures InRange(|mem|, addr, w) ==> LoadMem(mem, addr, w) == LE(mem[addr..addr + w])
    ensures !InRange(|mem|, addr, w) ==> LoadMem(mem, addr, w) == 0
    ensures LoadMem(mem, addr, w) < Span(w)
  {
    if InRange(|mem|, addr, w) {
      SpanIsPow256(w);
      if w == 1 {
        assert mem[addr..addr + 1] == [mem[addr]];
        assert LE([mem[addr]]) == mem[addr] + 256 * LE([mem[addr]][1..]);
      }
    }
  }

  /** What a store leaves at each address. */
  lemma {:induction false} StoreMemAt(mem: seq<Byte>, addr: Word, val: Word, w: Width, a: nat)
    requires a < |mem|
    ensures StoreMem(mem, addr, val, w)[a] ==
            if InRange(|mem|, addr, w) && addr <= a < addr + w then ByteOf(val, a - addr) else mem[a]
  {
    if InRange(|mem|, addr, w) && addr <= a < addr + w {
      BytesAt(Trunc(val, w), w, a - addr);
      ByteOfTrunc(val, w, a - addr);
    }
  }

  /** Storing and then loading at the same place gives the truncated value. */
  lemma {:induction false} LoadAfterStore(mem: seq<Byte>, addr: Word, val: Word, w: Width)
    requires InRange(|mem|, addr, w)
    ensures LoadMem(StoreMem(mem, addr, val, w), addr, w) == Trunc(val, w)
  {
    var mem' := StoreMem(mem, addr, val, w);
    SpanIsPow256(w);
    assert mem'[addr..addr + w] == Bytes(Trunc(val, w), w);
    BytesThenLE(Trunc(val, w), w);
    LoadMemIsLE(mem', addr, w);
  }

  /** A load sees only its own bytes. */
  lemma {:induction false} LoadMemAgree(m1: seq<Byte>, m2: seq<Byte>, addr: Word, w: Width)
    requires |m1| == |m2|
    requires forall a :: addr <= a < addr + w && a < |m1| ==> m1[a] == m2[a]
    ensures LoadMem(m1, addr, w) == LoadMem(m2, addr, w)
  {
    if InRange(|m1|, addr, w) {
      assert m1[addr..addr + w] == m2[addr..addr + w];
    }
  }

  // ---------------------------------------------------------------- the byte map

  datatype Write = Write(addr: Word, val: Word, w: Width)

  /** Memory after a sequence of stores, the last element being the latest. */
  function StoreAll(mem: seq<Byte>, ws: seq<Write>): (mem': seq<Byte>)
    ensures |mem'| == |mem|
  {
    if ws == [] then mem
    else
      var last := ws[|ws| - 1];
      StoreMem(StoreAll(mem, ws[..|ws| - 1]), last.addr, last.val, last.w)
  }

  /** The byte most recently written to address a, or the original one. */
  function LastByte(mem: seq<Byte>, ws: seq<Write>, a: nat): Byte
    requires a < |mem|
  {
    if ws == [] then mem[a]
    else
      var last := ws[|ws| - 1];
      if InRange(|mem|, last.addr, last.w) && last.addr <= a < last.addr + last.w
      then ByteOf(last.val, a - last.addr)
      else LastByte(mem, ws[..|ws| - 1], a)
  }

  function LastBytes(mem: seq<Byte>, ws: seq<Write>, addr: nat, n: nat): (bs: seq<Byte>)
    requires addr + n <= |mem|
    ensures |bs| == n
    ensures forall k :: 0 <= k < n ==> bs[k] == LastByte(mem, ws, addr + k)
    decreases n
  {
    if n == 0 then [] else LastBytes(mem, ws, addr, n - 1) + [LastByte(mem, ws, addr + n - 1)]
  }

  lemma {:induction false} StoreAllAt(mem: seq<Byte>, ws: seq<Write>, a: nat)
    requires a < |mem|
    ensures StoreAll(mem, ws)[a] == LastByte(mem, ws, a)
    decreases |ws|
  {
    if ws != [] {
      var last := ws[|ws| - 1];
      StoreAllAt(mem, ws[..|ws| - 1], a);
      StoreMemAt(StoreAll(mem, ws[..|ws| - 1]), last.addr, last.val, last.w, a);
    }
  }

  /** After any stores, overlapping or not, a load at any width reads the
      last byte written at each of its addresses. */
  lemma {:induction false} MemoryRefinesByteMap(mem: seq<Byte>, ws: seq<Write>, addr: Word, w: Width)
    ensures InRange(|mem|, addr, w) ==>
              LoadMem(StoreAll(mem, ws), addr, w) == LE(LastBytes(mem, ws, addr, w))
    ensures !InRange(|mem|, addr, w) ==> LoadMem(StoreAll(mem, ws), addr, w) == 0
  {
    LoadMemIsLE(StoreAll(mem, ws), addr, w);
    if InRange(|mem|, addr, w) {
      var actual := StoreAll(mem, ws)[addr..addr + w];
      forall k | 0 <= k < w ensures actual[k] == LastBytes(mem, ws, addr, w)[k] {
        StoreAllAt(mem, ws, addr + k);
      }
      assert actual == LastBytes(mem, ws, addr, w);
    }
  }

  // ---------------------------------------------------------------- in place

  lemma {:induction false} SubSlice<T>(s: seq<T>, lo: nat, size: nat, a: nat, n: nat)
    requires lo + size <= |s| && a + n <= size
    ensures s[lo..lo + size][a..a + n] == s[lo + a..lo + a + n]
  {
    var inner, outer := s[lo..lo + size][a..a + n], s[lo + a..lo + a + n];
    forall k | 0 <= k < n ensures inner[k] == outer[k] {
      assert inner[k] == s[lo..lo + size][a + k];
    }
  }

  /** `load_mem` on the slice [lo, lo + size) of an array. */
  method LoadFrom(mem: array<Byte>, lo: nat, size: nat, addr: Word, w: Width) returns (v: Word)
    requires lo + size <= mem.Length
    ensures v == LoadMem(mem[lo..lo + size], addr, w)
  {
    if addr >= size {
      return 0;
    }
    if w == 1 {
      return mem[lo + addr];
    }
    if addr + w > size {
      return 0;
    }
    SubSlice(mem[..], lo, size, addr, w);
    v := LoadBytes(mem[lo + addr..lo + addr + w]);
  }

  /** `store_mem` on the slice [lo, lo + size) of an array. */
  method StoreTo(mem: array<Byte>, lo: nat, size: nat, addr: Word, val: Word, w: Width)
    requires lo + size <= mem.Length
    modifies mem
    ensures mem[lo..lo + size] == StoreMem(old(mem[lo..lo + size]), addr, val, w)
    ensures forall a :: 0 <= a < mem.Length && !(lo <= a < lo + size) ==> mem[a] == old(mem[a])
  {
    if addr >= size {
      return;
    }
    if addr + w > size {
      return;
    }
    var bytes := Bytes(Trunc(val, w), w);
    forall k | 0 <= k < w {
      mem[lo + addr + k] := bytes[k];
    }
    ghost var now := mem[lo..lo + size];
    ghost var expected := StoreMem(old(mem[lo..lo + size]), addr, val, w);
    forall a | 0 <= a < size ensures now[a] == expected[a] {
      assert now[a] == mem[lo + a];
      if addr <= a < addr + w {
        assert mem[lo + addr + (a - addr)] == bytes[a - addr];
      }
    }
    assert now == expected;
  }

  // ---------------------------------------------------------------- the host's memory

  /** What an access comes to.  A wild one passes the check and then runs outside
      the buffer: nothing is known about what it reads, or about any byte after it
      has written. */
  datatype Access<T> = Ok(value: T) | OutOfRange | Wild

  /** `check`, whose sum is computed in 64 bits. */
  predicate Passes(size: nat, addr: Word, len: Word) {
    Wrap64(addr + len) <= size
  }

  /** Exactly the accesses in range pass the check, and those whose end wraps around
      to an address inside the buffer. */
  lemma {:induction false} PassesIff(size: nat, addr: Word, len: Word)
    requires size < 0x1_0000_0000_0000_0000
    ensures Passes(size, addr, len) <==>
            addr + len <= size || 0x1_0000_0000_0000_0000 <= addr + len <= 0x1_0000_0000_0000_0000 + size
    ensures len <= size ==>
              (Passes(size, addr, len) <==> addr + len <= size || addr + len >= 0x1_0000_0000_0000_0000)
  {
    var sum := addr + len;
    if sum < 0x1_0000_0000_0000_0000 {
      ModUnique(sum, 0x1_0000_0000_0000_0000, 0, sum);
    } else {
      ModUnique(sum, 0x1_0000_0000_0000_0000, 1, sum - 0x1_0000_0000_0000_0000);
    }
  }

  /** In RAM of eight bytes or more, reading the last byte of the address space is
      wild, and so is reading a word that ends beyond it. */
  lemma {:induction false} WildReads(size: nat)
    requires 8 <= size < 0x1_0000_0000_0000_0000
    ensures Passes(size, 0xFFFF_FFFF_FFFF_FFFF, 1) && !InRange(size, 0xFFFF_FFFF_FFFF_FFFF, 1)
    ensures Passes(size, 0xFFFF_FFFF_FFFF_FFFC, 8) && !InRange(size, 0xFFFF_FFFF_FFFF_FFFC, 8)
  {
    PassesIff(size, 0xFFFF_FFFF_FFFF_FFFF, 1);
    PassesIff(size, 0xFFFF_FFFF_FFFF_FFFC, 8);
  }

  /** The host's view of guest RAM, whose accessors throw when the check fails. */
  class GuestMemory {
    const mem: array<Byte>

    constructor (size: Word)
      ensures fresh(mem) && mem.Length == size
      ensures forall a :: 0 <= a < size ==> mem[a] == 0
    {
      mem := new Byte[size](_ => 0);
    }

    method Load(addr: Word, data: seq<Byte>) returns (r: Access<()>)
      requires |data| < 0x1_0000_0000_0000_0000
      modifies mem
      ensures r.OutOfRange? <==> !Passes(mem.Length, addr, |data|)
      ensures r.Ok? <==> addr + |data| <= mem.Length && Passes(mem.Length, addr, |data|)
      ensures r.Ok? ==> mem[..] == old(mem[..addr]) + data + old(mem[addr + |data|..])
      ensures r.OutOfRange? ==> mem[..] == old(mem[..])
    {
      if !Passes(mem.Length, addr, |data|) {
        return OutOfRange;
      }
      if addr + |data| > mem.Length {
        return Wild;
      }
      forall k | 0 <= k < |data| {
        mem[addr + k] := data[k];
      }
      r := Ok(());
      assert forall k :: 0 <= k < |data| ==> mem[addr + k] == data[k];
    }

    method Read(addr: Word, w: Width) returns (r: Access<Word>)
      requires mem.Length < 0x1_0000_0000_0000_0000
      ensures r.Ok? <==> InRange(mem.Length, addr, w)
      ensures r.Wild? <==> !InRange(mem.Length, addr, w) && Passes(mem.Length, addr, w)
      ensures r.Ok? ==> r.value == LoadMem(mem[..], addr, w)
    {
      PassesIff(mem.Length, addr, w);
      if !Passes(mem.Length, addr, w) {
        return OutOfRange;
      }
      if addr + w > mem.Length {
        return Wild;
      }
      r := Ok(LoadBytes(mem[addr..addr + w]));
      LoadMemIsLE(mem[..], addr, w);
      assert mem[..][addr..addr + w] == mem[addr..addr + w];
    }

    /** The value argument is a w-byte unsigned integer. */
    method Write(addr: Word, val: Word, w: Width) returns (r: Access<()>)
      requires val < Span(w) && mem.Length < 0x1_0000_0000_0000_0000
      modifies mem
      ensures r.Ok? <==> InRange(mem.Length, addr, w)
      ensures r.Wild? <==> !InRange(mem.Length, addr, w) && Passes(mem.Length, addr, w)
      ensures !r.Wild? ==> mem[..] == StoreMem(old(mem[..]), addr, val, w)
    {
      TruncSmall(val, w);
      PassesIff(mem.Length, addr, w);
      r := Load(addr, Bytes(val, w));
    }
  }
}
