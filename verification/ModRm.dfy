/** Operand parsing against the standard encoding.
 *
 * An address is written down as sections 2.1.3, 2.1.5 and 2.2.1 of the Intel
 * SDM, Volume 2A, define its ModR/M byte, SIB byte and displacement; the
 * decoder's reading is compared with it.
 */
module ModRm {
  import opened Words
  import opened Memory
  import opened Machine
  import opened X86
  import opened DecoderSpec
  import opened DecoderFacts
  import opened Reference

  // ---------------------------------------------------------------- the standard encoding

  datatype Displacement = NoDisp | Disp8(d: int) | Disp32(d: int) {
    predicate Valid() {
      match this
      case NoDisp => true
      case Disp8(d) => -0x80 <= d < 0x80
      case Disp32(d) => -0x8000_0000 <= d < 0x8000_0000
    }

    function Value(): int {
      if NoDisp? then 0 else d
    }

    /** The mod field. */
    function Mod(): (m: int)
      ensures 0 <= m < 3
    {
      match this
      case NoDisp => 0
      case Disp8(_) => 1
      case Disp32(_) => 2
    }

    function Encoded(): seq<Byte> {
      match this
      case NoDisp => []
      case Disp8(d) => Bytes(d % 0x100, 1)
      case Disp32(d) => Bytes(Wrap32(d), 4)
    }
  }

  datatype Index = NoIndex | Index(r: Reg)

  /** What an r/m field may name. */
  datatype Address =
    | Direct(reg: Reg)
    | Based(base: Reg, disp: Displacement)
    | Scaled(base: Reg, index: Index, scale: Scale, disp: Displacement)
    | Absolute(index: Index, scale: Scale, disp: Displacement)
    | RipRelative(disp: Displacement)

  predicate IndexEncodable(i: Index) {
    i.Index? ==> i.r != RSP
  }

  /** The forms the encoding has: rm 4 announces a SIB byte, and base 5 without a
      displacement is taken for an address without a base. */
  predicate Encodable(a: Address) {
    match a
    case Direct(_) => true
    case Based(base, disp) => disp.Valid() && base % 8 != 4 && (disp.NoDisp? ==> base % 8 != 5)
    case Scaled(base, index, _, disp) => disp.Valid() && IndexEncodable(index) && (disp.NoDisp? ==> base % 8 != 5)
    case Absolute(index, _, disp) => disp.Valid() && disp.Disp32? && IndexEncodable(index)
    case RipRelative(disp) => disp.Valid() && disp.Disp32?
  }

  function Low(r: Reg): (l: int)
    ensures 0 <= l < 8
  {
    r % 8
  }

  function IndexBits(i: Index): (l: int)
    ensures 0 <= l < 8
  {
    if i.NoIndex? then 4 else Low(i.r)
  }

  function ScaleField(s: Scale): (l: int)
    ensures 0 <= l < 4
  {
    if s == 1 then 0 else if s == 2 then 1 else if s == 4 then 2 else 3
  }

  function SibByte(index: Index, scale: Scale, base: int): Byte
    requires 0 <= base < 8
  {
    64 * ScaleField(scale) + 8 * IndexBits(index) + base
  }

  /** The ModR/M byte; field is its middle field, a register or a digit. */
  function ModrmByte(a: Address, field: int): Byte
    requires 0 <= field < 8
  {
    8 * field +
    match a
    case Direct(reg) => 64 * 3 + Low(reg)
    case Based(base, disp) => 64 * disp.Mod() + Low(base)
    case Scaled(_, _, _, disp) => 64 * disp.Mod() + 4
    case Absolute(_, _, _) => 4
    case RipRelative(_) => 5
  }

  /** The bytes after the ModR/M byte. */
  function Tail(a: Address): seq<Byte> {
    match a
    case Direct(_) => []
    case Based(_, disp) => disp.Encoded()
    case Scaled(base, index, scale, disp) => [SibByte(index, scale, Low(base))] + disp.Encoded()
    case Absolute(index, scale, disp) => [SibByte(index, scale, 5)] + disp.Encoded()
    case RipRelative(disp) => disp.Encoded()
  }

  /** The REX bits the address needs. */
  predicate RexFits(a: Address, rex: Byte) {
    match a
    case Direct(reg) => RexB(rex) == (reg >= 8)
    case Based(base, _) => RexB(rex) == (base >= 8)
    case Scaled(base, index, _, _) => RexB(rex) == (base >= 8) && RexX(rex) == (index.Index? && index.r >= 8)
    case Absolute(index, _, _) => RexX(rex) == (index.Index? && index.r >= 8)
    case RipRelative(_) => true
  }

  // ---------------------------------------------------------------- what the decoder reads

  /** The operand the decoder builds: REX.X is ignored, and an absent index is
      read as register 4. */
  function ReadAs(a: Address, rex: Byte, w: Width): Operand
    requires Encodable(a)
  {
    var op := MemOperand(w);
    match a
    case Direct(reg) => op.(isMem := false, base := reg, reg := reg)
    case Based(base, disp) => op.(base := base, disp := disp.Value())
    case Scaled(base, index, scale, disp) =>
      op.(hasSib := true, base := base, index := IndexBits(index), scale := scale, disp := disp.Value())
    case Absolute(index, scale, disp) =>
      op.(hasSib := true, absSib := true, base := DecodeReg(5, rex, true), index := IndexBits(index), scale := scale,
          disp := disp.Value())
    case RipRelative(disp) => op.(ripRel := true, base := DecodeReg(5, rex, true), disp := disp.Value())
  }

  /** t stands in s at position k. */
  predicate StandsAt(s: seq<Byte>, k: nat, t: seq<Byte>) {
    k + |t| <= |s| && s[k..k + |t|] == t
  }

  /** Fetching the bytes of a number gives the number. */
  lemma {:induction false} FetchNumber(v: Word, w: Width, s: seq<Byte>, cur: Cursor)
    requires v < Span(w) && StandsAt(s, cur.k, Bytes(v, w))
    ensures Fetch(s, cur, w) == Fetched(v, Cursor(cur.k + w, cur.clean))
  {
    SpanIsPow256(w);
    BytesThenLE(v, w);
    hide Bytes, LE;
  }

  lemma {:induction false} DispFetched(d: Displacement, s: seq<Byte>, cur: Cursor)
    requires d.Valid() && !d.NoDisp? && StandsAt(s, cur.k, d.Encoded())
    ensures
      var w: Width := if d.Disp8? then 1 else 4;
      var f := Fetch(s, cur, w);
      |d.Encoded()| == w && f.cur == Cursor(cur.k + w, cur.clean) && Signed(f.v, w) == d.d
  {
    hide Bytes, Fetch;
    if d.Disp8? {
      FetchNumber(d.d % 0x100, 1, s, cur);
    } else {
      FetchNumber(Wrap32(d.d), 4, s, cur);
    }
  }

  lemma {:induction false} SibFields(index: Index, scale: Scale, base: int, rex: Byte)
    requires 0 <= base < 8
    ensures
      var sib := SibByte(index, scale, base);
      && sib % 8 == base && (sib / 8) % 8 == IndexBits(index) && ScaleFrom(sib / 64) == scale
      && DecodeReg((sib / 8) % 8, if RexX(rex) then 4 else 0, true) == IndexBits(index)
  {
    var sib := SibByte(index, scale, base);
    ModUnique(sib, 64, ScaleField(scale), 8 * IndexBits(index) + base);
    ModUnique(sib, 8, 8 * ScaleField(scale) + IndexBits(index), base);
    ModUnique(8 * ScaleField(scale) + IndexBits(index), 8, ScaleField(scale), IndexBits(index));
  }

  lemma {:induction false} ModrmFields(a: Address, field: int)
    requires 0 <= field < 8
    ensures
      var m := ModrmByte(a, field);
      && (m / 8) % 8 == field
      && match a
         case Direct(reg) => m / 64 == 3 && m % 8 == Low(reg)
         case Based(base, disp) => m / 64 == disp.Mod() && m % 8 == Low(base)
         case Scaled(_, _, _, disp) => m / 64 == disp.Mod() && m % 8 == 4
         case Absolute(_, _, _) => m / 64 == 0 && m % 8 == 4
         case RipRelative(_) => m / 64 == 0 && m % 8 == 5
  {
  }

  lemma {:induction false} RegFromBits(r: Reg, rex: Byte)
    requires RexB(rex) == (r >= 8)
    ensures DecodeReg(Low(r), rex, true) == r
  {
  }

  /** The SIB byte is read back, up to the index register's top bit. */
  lemma {:induction false} SibRead(op: Operand, rex: Byte, mod: Byte, s: seq<Byte>, cur: Cursor,
                                   index: Index, scale: Scale, base: int)
    requires 0 <= base < 8 && !(base == 5 && mod == 0)
    requires StandsAt(s, cur.k, [SibByte(index, scale, base)])
    ensures ParseSib(op, rex, mod, s, cur) ==
            Parsed(op.(scale := scale, index := IndexBits(index), base := DecodeReg(base, rex, true)),
                   Cursor(cur.k + 1, cur.clean))
  {
    SibFields(index, scale, base, rex);
    hide ScaleFrom, DecodeReg, Fetch;
    assert s[cur.k] == s[cur.k..cur.k + 1][0];
  }

  /** Parsing inverts the encoding: for every encodable address and every operand
      form, exactly the encoded bytes are consumed and the operand is ReadAs. */
  lemma {:induction false} ParseInvertsEncoding(a: Address, field: int, rex: Byte, w: Width, s: seq<Byte>, cur: Cursor)
    requires Encodable(a) && RexFits(a, rex) && 0 <= field < 8 && StandsAt(s, cur.k, Tail(a))
    ensures ParseModrm(MemOperand(w), rex, ModrmByte(a, field), s, cur) ==
            Parsed(ReadAs(a, rex, w), Cursor(cur.k + |Tail(a)|, cur.clean))
  {
    hide DecodeReg, Fetch, ParseSib, Signed;
    ModrmFields(a, field);
    match a {
      case Direct(reg) =>
        RegFromBits(reg, rex);
      case Based(base, disp) =>
        RegFromBits(base, rex);
        if !disp.NoDisp? {
          DispFetched(disp, s, cur);
        }
      case RipRelative(disp) =>
        DispFetched(disp, s, cur);
      case Scaled(base, index, scale, disp) =>
        ScaledParse(a, field, rex, w, s, cur);
      case Absolute(index, scale, disp) =>
        AbsoluteParse(a, field, rex, w, s, cur);
    }
  }

  lemma {:induction false} TailSplit(s: seq<Byte>, k: nat, b: Byte, rest: seq<Byte>)
    requires StandsAt(s, k, [b] + rest)
    ensures StandsAt(s, k, [b]) && StandsAt(s, k + 1, rest) && s[k] == b
  {
    var t := [b] + rest;
    assert s[k..k + |t|][..1] == s[k..k + 1] && t[..1] == [b];
    assert s[k..k + |t|][1..] == s[k + 1..k + |t|] && t[1..] == rest;
    assert s[k] == s[k..k + 1][0];
  }

  lemma {:induction false} ScaledParse(a: Address, field: int, rex: Byte, w: Width, s: seq<Byte>, cur: Cursor)
    requires a.Scaled? && Encodable(a) && RexFits(a, rex) && 0 <= field < 8 && StandsAt(s, cur.k, Tail(a))
    ensures ParseModrm(MemOperand(w), rex, ModrmByte(a, field), s, cur) ==
            Parsed(ReadAs(a, rex, w), Cursor(cur.k + |Tail(a)|, cur.clean))
  {
    hide DecodeReg, Fetch, ParseSib, Signed, SibByte, IndexBits;
    ModrmFields(a, field);
    RegFromBits(a.base, rex);
    TailSplit(s, cur.k, SibByte(a.index, a.scale, Low(a.base)), a.disp.Encoded());
    var op := MemOperand(w).(base := DecodeReg(4, rex, true), disp := 0, hasSib := true);
    SibRead(op, rex, a.disp.Mod(), s, cur, a.index, a.scale, Low(a.base));
    if !a.disp.NoDisp? {
      DispFetched(a.disp, s, Cursor(cur.k + 1, cur.clean));
    }
  }

  lemma {:induction false} AbsoluteParse(a: Address, field: int, rex: Byte, w: Width, s: seq<Byte>, cur: Cursor)
    requires a.Absolute? && Encodable(a) && RexFits(a, rex) && 0 <= field < 8 && StandsAt(s, cur.k, Tail(a))
    ensures ParseModrm(MemOperand(w), rex, ModrmByte(a, field), s, cur) ==
            Parsed(ReadAs(a, rex, w), Cursor(cur.k + |Tail(a)|, cur.clean))
  {
    hide DecodeReg, Fetch, Signed, SibByte, IndexBits, ScaleFrom;
    ModrmFields(a, field);
    TailSplit(s, cur.k, SibByte(a.index, a.scale, 5), a.disp.Encoded());
    SibFields(a.index, a.scale, 5, rex);
    DispFetched(a.disp, s, Cursor(cur.k + 1, cur.clean));
  }

  // ---------------------------------------------------------------- every byte string is an encoding

  /** The standard's reading of the bytes at position k after a ModR/M byte. */
  function ReadDisp(mod: int, s: seq<Byte>, k: nat): Displacement {
    if mod == 1 && k < |s| then Disp8(Signed(s[k], 1))
    else if mod == 2 && k + 4 <= |s| then Disp32(Signed(LoadBytes(s[k..k + 4]), 4))
    else NoDisp
  }

  function Extend(low: int, top: bool): Reg
    requires 0 <= low < 8
  {
    if top then low + 8 else low
  }

  function ReadIndex(bits: int, rex: Byte): Index
    requires 0 <= bits < 8
  {
    if bits == 4 && !RexX(rex) then NoIndex else Index(Extend(bits, RexX(rex)))
  }

  function ReadAddress(rex: Byte, modrm: Byte, s: seq<Byte>, k: nat): Address {
    var mod, rm := modrm / 64, modrm % 8;
    if mod == 3 then Direct(Extend(rm, RexB(rex)))
    else if rm == 4 then
      if k >= |s| then Direct(0)
      else
        var sib := s[k];
        var index, scale := ReadIndex((sib / 8) % 8, rex), ScaleFrom(sib / 64);
        if sib % 8 == 5 && mod == 0 then Absolute(index, scale, ReadDisp(2, s, k + 1))
        else Scaled(Extend(sib % 8, RexB(rex)), index, scale, ReadDisp(mod, s, k + 1))
    else if rm == 5 && mod == 0 then RipRelative(ReadDisp(2, s, k))
    else Based(Extend(rm, RexB(rex)), ReadDisp(mod, s, k))
  }

  /** Every ModR/M byte, SIB byte and displacement is the encoding of the address
      the standard reads in it: if the decoder's parse does not run out of bytes,
      re-encoding that address gives back the very bytes it consumed. */
  lemma {:induction false} EveryOperandIsEncoded(rex: Byte, modrm: Byte, w: Width, s: seq<Byte>, k: nat)
    requires k <= |s| && ParseModrm(MemOperand(w), rex, modrm, s, Cursor(k, true)).cur.clean
    ensures
      var a := ReadAddress(rex, modrm, s, k);
      && Encodable(a) && RexFits(a, rex) && ModrmByte(a, (modrm / 8) % 8) == modrm && StandsAt(s, k, Tail(a))
      && ParseModrm(MemOperand(w), rex, modrm, s, Cursor(k, true)) ==
         Parsed(ReadAs(a, rex, w), Cursor(k + |Tail(a)|, true))
  {
    CleanEnough(rex, modrm, w, s, k);
    hide ParseModrm, ReadAs, StandsAt, Tail, ModrmByte, Encodable, RexFits, ReadAddress;
    AddressRead(rex, modrm, s, k);
    ParseInvertsEncoding(ReadAddress(rex, modrm, s, k), (modrm / 8) % 8, rex, w, s, Cursor(k, true));
  }

  /** Enough bytes for the operand after a ModR/M byte. */
  predicate BytesSuffice(modrm: Byte, s: seq<Byte>, k: nat) {
    var mod, rm := modrm / 64, modrm % 8;
    if mod == 3 then k <= |s|
    else if rm == 4 then
      k < |s| && (mod == 1 ==> k + 2 <= |s|) && (mod == 2 || (mod == 0 && s[k] % 8 == 5) ==> k + 5 <= |s|)
    else
      k <= |s| && (mod == 1 ==> k + 1 <= |s|) && (mod == 2 || (mod == 0 && rm == 5) ==> k + 4 <= |s|)
  }

  /** The address read is encodable, and these are its bytes. */
  ghost predicate IsEncoded(a: Address, rex: Byte, modrm: Byte, s: seq<Byte>, k: nat) {
    Encodable(a) && RexFits(a, rex) && ModrmByte(a, (modrm / 8) % 8) == modrm && StandsAt(s, k, Tail(a))
  }

  lemma {:induction false} AddressRead(rex: Byte, modrm: Byte, s: seq<Byte>, k: nat)
    requires BytesSuffice(modrm, s, k)
    ensures IsEncoded(ReadAddress(rex, modrm, s, k), rex, modrm, s, k)
  {
    hide ReadAddress, IsEncoded;
    var mod, rm := modrm / 64, modrm % 8;
    if mod == 3 {
      DirectRead(rex, modrm, s, k);
    } else if rm == 4 {
      SibAddressRead(rex, modrm, s, k);
    } else if rm == 5 && mod == 0 {
      RipRead(rex, modrm, s, k);
    } else {
      BasedRead(rex, modrm, s, k);
    }
  }

  lemma {:induction false} DirectRead(rex: Byte, modrm: Byte, s: seq<Byte>, k: nat)
    requires modrm / 64 == 3 && k <= |s|
    ensures IsEncoded(ReadAddress(rex, modrm, s, k), rex, modrm, s, k)
  {
  }

  lemma {:induction false} RipRead(rex: Byte, modrm: Byte, s: seq<Byte>, k: nat)
    requires BytesSuffice(modrm, s, k) && modrm / 64 == 0 && modrm % 8 == 5
    ensures IsEncoded(ReadAddress(rex, modrm, s, k), rex, modrm, s, k)
  {
    hide ReadDisp, StandsAt;
    DispRead(2, s, k);
  }

  lemma {:induction false} BasedRead(rex: Byte, modrm: Byte, s: seq<Byte>, k: nat)
    requires BytesSuffice(modrm, s, k) && modrm / 64 != 3 && modrm % 8 != 4 && !(modrm / 64 == 0 && modrm % 8 == 5)
    ensures IsEncoded(ReadAddress(rex, modrm, s, k), rex, modrm, s, k)
  {
    hide ReadDisp, StandsAt;
    DispRead(modrm / 64, s, k);
  }

  lemma {:induction false} SibAddressRead(rex: Byte, modrm: Byte, s: seq<Byte>, k: nat)
    requires BytesSuffice(modrm, s, k) && modrm / 64 != 3 && modrm % 8 == 4
    ensures IsEncoded(ReadAddress(rex, modrm, s, k), rex, modrm, s, k)
  {
    hide ReadDisp, SibByte, ScaleFrom, StandsAt, ReadIndex, IndexEncodable, RexB, RexX, Displacement.Encoded,
        Displacement.Valid;
    var mod, sib := modrm / 64, s[k];
    var m := if sib % 8 == 5 && mod == 0 then 2 else mod;
    SibSplit(sib, rex);
    DispRead(m, s, k + 1);
    TailJoin(s, k, sib, ReadDisp(m, s, k + 1).Encoded());
  }

  lemma {:induction false} TailJoin(s: seq<Byte>, k: nat, b: Byte, rest: seq<Byte>)
    requires k < |s| && s[k] == b && StandsAt(s, k + 1, rest)
    ensures StandsAt(s, k, [b] + rest)
  {
    assert s[k..k + 1 + |rest|] == [s[k]] + s[k + 1..k + 1 + |rest|];
  }

  /** A clean parse had all its bytes. */
  lemma {:induction false} CleanEnough(rex: Byte, modrm: Byte, w: Width, s: seq<Byte>, k: nat)
    requires k <= |s| && ParseModrm(MemOperand(w), rex, modrm, s, Cursor(k, true)).cur.clean
    ensures BytesSuffice(modrm, s, k)
  {
    hide DecodeReg, Signed, ScaleFrom, LoadBytes;
  }

  lemma {:induction false} DispRead(mod: int, s: seq<Byte>, k: nat)
    requires 0 <= mod < 3 && k <= |s|
    requires (mod == 1 ==> k < |s|) && (mod == 2 ==> k + 4 <= |s|)
    ensures var d := ReadDisp(mod, s, k); d.Valid() && d.Mod() == mod && StandsAt(s, k, d.Encoded())
  {
    if mod == 1 {
      Disp8Read(s, k);
    } else if mod == 2 {
      Disp32Read(s, k);
    }
  }

  lemma {:induction false} Disp8Read(s: seq<Byte>, k: nat)
    requires k < |s|
    ensures Bytes(Signed(s[k], 1) % 0x100, 1) == [s[k]] == s[k..k + 1]
  {
    assert Bytes(s[k], 1) == [s[k]] + Bytes(s[k] / 256, 0);
  }

  lemma {:induction false} Disp32Read(s: seq<Byte>, k: nat)
    requires k + 4 <= |s|
    ensures Bytes(Wrap32(Signed(LoadBytes(s[k..k + 4]), 4)), 4) == s[k..k + 4]
  {
    hide Bytes, LE;
    SpanIsPow256(4);
    LEThenBytes(s[k..k + 4]);
  }

  lemma {:induction false} SibSplit(sib: Byte, rex: Byte)
    ensures
      var index := ReadIndex((sib / 8) % 8, rex);
      && IndexEncodable(index) && RexX(rex) == (index.Index? && index.r >= 8)
      && SibByte(index, ScaleFrom(sib / 64), sib % 8) == sib
  {
    hide RexX;
    var top, mid, low := sib / 64, (sib / 8) % 8, sib % 8;
    assert sib == 64 * top + 8 * mid + low && 0 <= top < 4;
    assert ScaleField(ScaleFrom(top)) == top;
    assert IndexBits(ReadIndex(mid, rex)) == mid;
  }

  // ---------------------------------------------------------------- meaning

  /** The address the standard gives an operand; RIP is that of the next
      instruction. */
  function Meaning(a: Address, gpr: Regs, rip: Word): Word
    requires !a.Direct?
  {
    match a
    case Based(base, disp) => Wrap64(gpr[base] + disp.Value())
    case Scaled(base, index, scale, disp) => Wrap64(gpr[base] + IndexValue(index, scale, gpr) + disp.Value())
    case Absolute(index, scale, disp) => Wrap64(IndexValue(index, scale, gpr) + disp.Value())
    case RipRelative(disp) => Wrap64(rip + disp.Value())
  }

  function IndexValue(index: Index, scale: Scale, gpr: Regs): int {
    if index.NoIndex? then 0 else gpr[index.r] * scale
  }

  /** A scaled-index operand whose index is a register without REX.X. */
  predicate IndexKept(a: Address) {
    match a
    case Scaled(_, index, _, _) => index.Index? && index.r < 8
    case Absolute(index, _, _) => index.Index? && index.r < 8
    case _ => true
  }

  /** The decoded operand names the address the standard means, for all register
      contents, exactly when there is no SIB byte or its index is one of the
      first eight registers: an absent index and REX.X are both misread. */
  lemma {:induction false} MeaningKeptIff(a: Address, rex: Byte, w: Width)
    requires Encodable(a) && RexFits(a, rex) && !a.Direct? && !a.RipRelative?
    ensures (forall gpr: Regs :: OperandAddr(ReadAs(a, rex, w), gpr) == Meaning(a, gpr, 0)) <==> IndexKept(a)
  {
    hide DecodeReg, Wrap64, OperandAddr, ReadAs, Meaning;
    if IndexKept(a) {
      forall gpr: Regs ensures OperandAddr(ReadAs(a, rex, w), gpr) == Meaning(a, gpr, 0) {
        MeaningKept(a, rex, w, gpr);
      }
    } else {
      MeaningLost(a, rex, w);
    }
  }

  lemma {:induction false} MeaningKept(a: Address, rex: Byte, w: Width, gpr: Regs)
    requires Encodable(a) && !a.Direct? && !a.RipRelative? && IndexKept(a)
    ensures OperandAddr(ReadAs(a, rex, w), gpr) == Meaning(a, gpr, 0)
  {
    hide DecodeReg, Wrap64;
  }

  /** With a 1 in the register that is read instead of the intended index, the
      two addresses differ by the scale. */
  lemma {:induction false} MeaningLost(a: Address, rex: Byte, w: Width)
    requires Encodable(a) && (a.Scaled? || a.Absolute?) && !IndexKept(a)
    ensures var gpr: Regs := ZERO_REGS[IndexBits(a.index) := 1];
            OperandAddr(ReadAs(a, rex, w), gpr) != Meaning(a, gpr, 0)
  {
    hide DecodeReg, Wrap64;
    var gpr: Regs := ZERO_REGS[IndexBits(a.index) := 1];
    assert a.index.Index? ==> gpr[a.index.r] == 0;
    var base: int := if a.Scaled? then gpr[a.base] else 0;
    assert OperandAddr(ReadAs(a, rex, w), gpr) == Wrap64(base + a.scale + a.disp.Value());
    assert Meaning(a, gpr, 0) == Wrap64(base + a.disp.Value());
    WrapApart(base + a.disp.Value(), a.scale);
  }

  /** A stack-relative operand `[rsp + d]` cannot be written without an absent
      index, and is read as `[rsp + rsp + d]`. */
  lemma {:induction false} StackRelativeMisread(disp: Displacement, rex: Byte, w: Width, gpr: Regs)
    requires disp.Valid() && !RexB(rex) && !RexX(rex)
    ensures
      var a := Scaled(RSP, NoIndex, 1, disp);
      && Encodable(a) && RexFits(a, rex) && !Encodable(Based(RSP, disp))
      && OperandAddr(ReadAs(a, rex, w), gpr) == Wrap64(2 * gpr[RSP] + disp.Value())
  {
  }

  // ---------------------------------------------------------------- registers in the opcode

  /** PUSH, POP and MOV-immediate name a register in the opcode byte, extended by
      REX.B in the standard; the decoder extends it by REX.R, so it finds the
      right register exactly when the two bits are equal. */
  lemma {:induction false} OpcodeRegisterIff(rex: Byte, b0: Byte, s: seq<Byte>, pc: Word)
    requires rex / 16 == 4 && |s| >= 2 && s[0] == rex && s[1] == b0
    requires 0x50 <= b0 <= 0x5F || 0xB8 <= b0 <= 0xBF
    ensures
      var d := Decode(s, pc);
      var meant := Extend(b0 % 8, RexB(rex));
      && d.Done?
      && d.insn.kind == (if b0 < 0x58 then Push else if b0 < 0x60 then Pop else MovImm)
      && (b0 < 0x58 ==> (d.insn.src.reg == meant <==> RexB(rex) == RexR(rex)))
      && (b0 >= 0x58 ==> (d.insn.dst.reg == meant <==> RexB(rex) == RexR(rex)))
  {
    FetchByte(s, Cursor(1, true));
    hide Fetch, Signed, DecodeGroup, DecodeMovImm, DecodeShift, DecodeIncDec, DecodeRm, DecodeBranch, Decode0f, RmForm;
  }

  /** A byte register: the low byte of any register, or the second byte of one of the
      first four. */
  datatype ByteRegister = LowByte(r: Reg) | HighByte(r: Reg)

  /** What the standard names by a ModR/M register field. */
  function NamedByte(field: int, rex: Byte, inRex: bool): ByteRegister
    requires 0 <= field < 8
  {
    if !inRex && field >= 4 then HighByte(field - 4) else LowByte(Extend(field, RexR(rex)))
  }

  /** The register operand of a byte opcode is read as a low byte always: right
      exactly under a REX prefix, or for the first four registers. */
  lemma {:induction false} ByteRegisterIff(x: Context, b0: Byte, cur: Cursor)
    requires b0 in {0x88, 0x8A, 0x84} && cur.k < |x.s| && (!x.inRex ==> x.rex == 0)
    ensures
      var d, field := DecodeOp(x, b0, cur), (x.s[cur.k] / 8) % 8;
      && d.Done?
      && (LowByte(if b0 == 0x8A then d.insn.dst.reg else d.insn.src.reg) == NamedByte(field, x.rex, x.inRex) <==>
          x.inRex || field < 4)
  {
    hide ParseModrm, Fetch, Signed;
  }

  // ---------------------------------------------------------------- operand widths

  /** Opcodes whose operands are bytes. */
  predicate ByteOpcode(b0: Byte) {
    b0 in {0x88, 0x8A, 0x84, 0xC6}
  }

  /** The operand width of the standard: one byte for the byte opcodes, else 64 bits
      with REX.W and 32 without. */
  function StandardWidth(b0: Byte, rex: Byte): Width {
    if ByteOpcode(b0) then 1 else if RexW(rex) then 8 else 4
  }

  /** Instructions that work at an operand width. */
  predicate Sized(kind: OpKind) {
    kind !in {Invalid, Nop, Hlt, Ret, Leave, Syscall, Jmp, Jcc, Call, Push, Pop}
  }

  /** Opcodes that are 64-bit under any REX prefix; most are not decoded without. */
  predicate WideUnderRex(b0: Byte) {
    b0 in {0x89, 0x8B, 0x01, 0x29, 0x31, 0x33, 0x21, 0x09, 0x03, 0x2B, 0x39, 0x3B, 0x85}
  }

  /** Opcodes that are always 64-bit. */
  predicate AlwaysWide(b0: Byte) {
    b0 in {0x8D, 0x83, 0xC7, 0xC1, 0xD1, 0xFF, 0x63}
  }

  /** The REX prefixes under which an opcode has the standard's width. */
  predicate WidthRight(b0: Byte, rex: Byte, inRex: bool) {
    if WideUnderRex(b0) then RexW(rex) || !inRex
    else if AlwaysWide(b0) then RexW(rex)
    else if b0 == 0x81 then !RexW(rex)
    else true
  }

  /** Every opcode that has an operand width, one- and two-byte alike: it is the
      standard's exactly under those prefixes. */
  lemma {:induction false} WidthIff(x: Context, b0: Byte, cur: Cursor)
    requires (x.inRex <==> x.rex / 16 == 4) && (!x.inRex ==> x.rex == 0)
    requires DecodeOp(x, b0, cur).Done? && Sized(DecodeOp(x, b0, cur).insn.kind)
    ensures DecodeOp(x, b0, cur).insn.dst.width == StandardWidth(b0, x.rex) <==> WidthRight(b0, x.rex, x.inRex)
  {
    hide Fetch, Signed, ParseModrm, DecodeReg, GroupOp, DecodeRm, RmForm, WidthRight, StandardWidth, Decode0f,
         DecodeGroup, DecodeShift, DecodeIncDec, DecodeMovImm;
    if b0 == 0x0F {
      TwoByteWidth(x, cur);
    } else if RmForm(b0, x.inRex).Form? && DecodeOp(x, b0, cur) == DecodeRm(x, RmForm(b0, x.inRex), cur) {
      RowWidth(x, b0, cur);
    } else {
      OtherWidth(x, b0, cur);
    }
  }

  lemma {:induction false} TwoByteWidth(x: Context, cur: Cursor)
    requires Decode0f(x, cur).Done? && Sized(Decode0f(x, cur).insn.kind)
    ensures Decode0f(x, cur).insn.dst.width == StandardWidth(0x0F, x.rex) && WidthRight(0x0F, x.rex, x.inRex)
  {
    hide Fetch, Signed, ParseModrm, DecodeReg;
  }

  lemma {:induction false} RowWidth(x: Context, b0: Byte, cur: Cursor)
    requires (x.inRex <==> x.rex / 16 == 4) && (!x.inRex ==> x.rex == 0)
    requires RmForm(b0, x.inRex).Form? && DecodeRm(x, RmForm(b0, x.inRex), cur).Done?
    ensures DecodeRm(x, RmForm(b0, x.inRex), cur).insn.dst.width == StandardWidth(b0, x.rex) <==>
            WidthRight(b0, x.rex, x.inRex)
  {
    hide Fetch, Signed, ParseModrm, DecodeReg;
  }

  lemma {:induction false} OtherWidth(x: Context, b0: Byte, cur: Cursor)
    requires (x.inRex <==> x.rex / 16 == 4) && (!x.inRex ==> x.rex == 0)
    requires b0 != 0x0F && DecodeOp(x, b0, cur).Done? && Sized(DecodeOp(x, b0, cur).insn.kind)
    requires !(RmForm(b0, x.inRex).Form? && DecodeOp(x, b0, cur) == DecodeRm(x, RmForm(b0, x.inRex), cur))
    ensures DecodeOp(x, b0, cur).insn.dst.width == StandardWidth(b0, x.rex) <==> WidthRight(b0, x.rex, x.inRex)
  {
    hide Fetch, Signed, ParseModrm, DecodeReg, GroupOp, DecodeRm, Decode0f;
  }

  // ---------------------------------------------------------------- relative branches

  /** The opcode byte: the first, or the second after a REX prefix. */
  function OpcodeOf(s: seq<Byte>): Byte {
    if |s| > 1 && s[0] / 16 == 4 then s[1] else if |s| > 0 then s[0] else 0
  }

  /** The width of a branch's displacement. */
  function RelWidth(b0: Byte): Width {
    if b0 == 0xEB || b0 / 16 == 7 then 1 else 4
  }

  predicate IsRelative(d: Decoded) {
    d.Done? && d.clean && d.insn.kind in {Jmp, Jcc, Call}
  }

  /** Only these opcodes decode to branches. */
  lemma {:induction false} BranchOpcodes(x: Context, b0: Byte, cur: Cursor)
    requires IsRelative(DecodeOp(x, b0, cur))
    ensures b0 in {0xEB, 0xE9, 0xE8} || b0 / 16 == 7 || b0 == 0x0F
  {
    hide Fetch, Signed, ParseModrm, DecodeReg, GroupOp, Decode0f;
  }

  lemma {:induction false} BranchOpcodes0f(x: Context, b1: Byte, cur: Cursor)
    requires IsRelative(Decode0fTail(x, b1, cur))
    ensures Decode0fTail(x, b1, cur) == DecodeBranch(x, Jcc, b1 % 16, 6, 4, cur)
  {
    hide Fetch, Signed, ParseModrm, DecodeReg;
  }

  /** The target is right exactly if the length the decoder adds is the real one. */
  lemma {:induction false} RelativeIff(x: Context, kind: OpKind, cc: Byte, length: nat, w: Width, cur: Cursor)
    requires DecodeBranch(x, kind, cc, length, w, cur).clean && length <= cur.k + w < length + 2
    ensures
      var insn := DecodeBranch(x, kind, cc, length, w, cur).insn;
      && insn.size == cur.k + w <= |x.s|
      && (insn.target == Wrap64(x.pc + insn.size + Signed(LoadBytes(x.s[cur.k..cur.k + w]), w)) <==>
          length == insn.size)
  {
    hide Signed, LE;
    if length < cur.k + w {
      WrapApart(x.pc + length + Signed(LoadBytes(x.s[cur.k..cur.k + w]), w), 1);
    }
  }

  /** What `RelativeIff` says, of a decoded instruction whose displacement is at k. */
  predicate TargetIff(insn: Instruction, s: seq<Byte>, pc: Word, k: nat, w: Width, right: bool) {
    && insn.size == k + w <= |s|
    && (insn.target == Wrap64(pc + insn.size + Signed(LoadBytes(s[k..k + w]), w)) <==> right)
  }

  lemma {:induction false} OneByteBranch(x: Context, b0: Byte, cur: Cursor)
    requires IsRelative(DecodeOp(x, b0, cur)) && (b0 in {0xEB, 0xE9, 0xE8} || b0 / 16 == 7)
    requires cur.k == 1 || cur.k == 2
    ensures TargetIff(DecodeOp(x, b0, cur).insn, x.s, x.pc, cur.k, RelWidth(b0), cur.k == 1)
  {
    hide Signed, LE, DecodeBranch, Fetch, Wrap64, LoadBytes, IsRelative;
    if b0 == 0xEB {
      assert DecodeOp(x, b0, cur) == DecodeBranch(x, Jmp, 0, 2, 1, cur);
      RelativeClean(x, Jmp, 0, 2, 1, cur);
    } else if b0 == 0xE9 {
      assert DecodeOp(x, b0, cur) == DecodeBranch(x, Jmp, 0, 5, 4, cur);
      RelativeClean(x, Jmp, 0, 5, 4, cur);
    } else if b0 == 0xE8 {
      assert DecodeOp(x, b0, cur) == DecodeBranch(x, Call, 0, 5, 4, cur);
      RelativeClean(x, Call, 0, 5, 4, cur);
    } else {
      assert DecodeOp(x, b0, cur) == DecodeBranch(x, Jcc, b0 - 0x70, 2, 1, cur);
      RelativeClean(x, Jcc, b0 - 0x70, 2, 1, cur);
    }
  }

  lemma {:induction false} RelativeClean(x: Context, kind: OpKind, cc: Byte, length: nat, w: Width, cur: Cursor)
    requires IsRelative(DecodeBranch(x, kind, cc, length, w, cur)) && length <= cur.k + w < length + 2
    ensures TargetIff(DecodeBranch(x, kind, cc, length, w, cur).insn, x.s, x.pc, cur.k, w, length == cur.k + w)
  {
    hide DecodeBranch, Wrap64, Signed, LoadBytes;
    RelativeIff(x, kind, cc, length, w, cur);
  }

  lemma {:induction false} NoBranch(x: Context, cur: Cursor)
    ensures !IsRelative(Decode0fTail(x, 0, cur))
  {
  }

  lemma {:induction false} TwoByteBranch(x: Context, cur: Cursor)
    requires IsRelative(Decode0f(x, cur)) && (cur.k == 1 || cur.k == 2)
    ensures TargetIff(Decode0f(x, cur).insn, x.s, x.pc, cur.k + 1, 4, cur.k == 1)
  {
    hide Fetch, DecodeBranch, Wrap64, Signed, LoadBytes, IsRelative, Decode0fTail, TargetIff;
    FetchByte(x.s, cur);
    var f := Fetch(x.s, cur, 1);
    BranchOpcodes0f(x, f.v, f.cur);
    FetchMissing(x.s, cur);
    NoBranch(x, f.cur);
    RelativeClean(x, Jcc, f.v % 16, 6, 4, f.cur);
  }

  /** A relative branch, all of whose bytes are there: its target is the end of the
      instruction plus the displacement, the last of its bytes, exactly if it has no
      REX prefix.  The lengths the decoder adds do not count the prefix. */
  lemma {:induction false} BranchTargetIff(s: seq<Byte>, pc: Word)
    requires s != [] && IsRelative(Decode(s, pc))
    ensures
      var insn, w := Decode(s, pc).insn, RelWidth(OpcodeOf(s));
      && w <= insn.size <= |s|
      && (insn.target == Wrap64(pc + insn.size + Signed(LoadBytes(s[insn.size - w..insn.size]), w)) <==>
          s[0] / 16 != 4)
  {
    hide Signed, DecodeBranch, DecodeOp, Fetch, Wrap64, Decode0f, LoadBytes, IsRelative;
    var inRex := s[0] / 16 == 4;
    var x := Context(s, pc, if inRex then s[0] else 0, inRex);
    var k := if inRex then 1 else 0;
    FetchByte(s, Cursor(k, true));
    var f := Fetch(s, Cursor(k, true), 1);
    BranchOpcodes(x, f.v, f.cur);
    FetchMissing(s, Cursor(k, true));
    if f.v == 0x0F {
      assert DecodeOp(x, f.v, f.cur) == Decode0f(x, f.cur) by {
        OpcodeIs0f(x, f.cur);
      }
      TwoByteBranch(x, f.cur);
    } else {
      OneByteBranch(x, f.v, f.cur);
    }
  }

  lemma {:induction false} OpcodeIs0f(x: Context, cur: Cursor)
    ensures DecodeOp(x, 0x0F, cur) == Decode0f(x, cur)
  {
    hide Decode0f;
  }

  lemma {:induction false} FetchMissing(s: seq<Byte>, cur: Cursor)
    ensures cur.k >= |s| ==> Fetch(s, cur, 1).v == 0
  {
  }
}
