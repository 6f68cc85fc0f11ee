/** What the decoder does not know: opcodes outside the map, group digits outside
 * their group, and bytes that end behind the opcode.
 */
module UnknownOpcodes {
  import opened Words
  import opened Memory
  import opened Machine
  import opened X86
  import opened DecoderSpec
  import opened ModRm
  import opened OpcodeMap

  /** The one-byte opcodes with an r/m operand. */
  predicate TakesRm(b0: Byte, p: Prefix) {
    || b0 in {0x89, 0x8B, 0x01, 0x8D, 0x88, 0x8A, 0x84, 0x63, 0x83, 0x81, 0xC7, 0xC6, 0xC1, 0xD1, 0xFF}
    || (p.Rex? && b0 in {0x29, 0x31, 0x21, 0x09, 0x33, 0x03, 0x2B, 0x39, 0x3B, 0x85})
  }

  /** The others. */
  predicate TakesNoRm(b0: Byte, p: Prefix) {
    || b0 in {0x90, 0xF4, 0xC3, 0xC9, 0x0F, 0xEB, 0xE9, 0xE8}
    || 0xB8 <= b0 <= 0xBF || 0x50 <= b0 <= 0x5F || 0x70 <= b0 <= 0x7F
    || (RexW(RexOf(p)) && b0 in {0x05, 0x3D, 0x98})
  }

  predicate KnownSecond(b1: Byte) {
    b1 in {0x05, 0xB6, 0xBE, 0xAF} || 0x80 <= b1 <= 0x8F
  }

  predicate RexPrefix(p: Prefix) { p.Rex? ==> p.b / 16 == 4 }

  lemma {:induction false} NoRow(b0: Byte, p: Prefix)
    requires !TakesRm(b0, p)
    ensures RmForm(b0, p.Rex?) == NoForm
  {
  }

  /** An opcode outside the map: the decode fails, and the PC moves past it. */
  lemma {:induction false} UnknownOpcodeFails(p: Prefix, b0: Byte, rest: seq<Byte>, pc: Word)
    requires RexPrefix(p) && !TakesRm(b0, p) && !TakesNoRm(b0, p) && (p == NoPrefix ==> b0 / 16 != 4)
    ensures
      var n := if p.Rex? then 2 else 1;
      Decode(PrefixBytes(p) + ([b0] + rest), pc) == Fail(n, n)
  {
    hide RmForm, Fetch, DecodeRm, Decode0f, DecodeMovReg, DecodeBranch, DecodeGroup, DecodeMovImm, DecodeShift,
         DecodeIncDec, DecodeRaxImm;
    NoRow(b0, p);
    var s := PrefixBytes(p) + ([b0] + rest);
    var k := if p.Rex? then 1 else 0;
    assert s[k] == b0;
    FetchByte(s, Cursor(k, true));
  }

  lemma {:induction false} UnknownSecondFails(p: Prefix, b1: Byte, rest: seq<Byte>, pc: Word)
    requires RexPrefix(p) && !KnownSecond(b1)
    ensures
      var n := if p.Rex? then 3 else 2;
      Decode(PrefixBytes(p) + ([0x0F] + ([b1] + rest)), pc) == Fail(n, n)
  {
    hide Decode, Fetch, DecodeRm, DecodeMovReg, DecodeBranch, DecodeGroup, DecodeMovImm, DecodeShift, DecodeIncDec,
         DecodeRaxImm, DecodeOp, Decode0f;
    var s := PrefixBytes(p) + ([0x0F] + ([b1] + rest));
    Head(p, 0x0F, [b1] + rest, pc);
    SecondByte(p, 0x0F, b1, rest);
    OpcodeIs0f(At(s, p, pc), After(p, 1));
    NotA0f(At(s, p, pc), b1, After(p, 1), After(p, 2));
  }

  lemma {:induction false} NotA0f(x: Context, b1: Byte, cur: Cursor, behind: Cursor)
    requires Fetch(x.s, cur, 1) == Fetched(b1, behind) && !KnownSecond(b1)
    ensures Decode0f(x, cur) == Fail(behind.k, behind.k)
  {
    hide Fetch, DecodeBranch, DecodeRm;
  }

  /** A digit outside its group.  C7 leaves the PC where it is, the others move it past
      the ModR/M byte. */
  lemma {:induction false} UnknownDigitFails(p: Prefix, b0: Byte, modrm: Byte, rest: seq<Byte>, pc: Word)
    requires RexPrefix(p)
    requires
      var digit := (modrm / 8) % 8;
      || (b0 == 0xC7 && digit != 0) || (b0 == 0xFF && digit > 1)
      || (b0 in {0xC1, 0xD1} && digit !in {4, 5, 7})
    ensures
      var n := if p.Rex? then 3 else 2;
      Decode(PrefixBytes(p) + ([b0] + ([modrm] + rest)), pc) == Fail(n, if b0 == 0xC7 then 0 else n)
  {
    hide Decode, Fetch, DecodeRm, Decode0f, DecodeMovReg, DecodeBranch, DecodeGroup, DecodeRaxImm, ParseModrm, RmForm;
    var s := PrefixBytes(p) + ([b0] + ([modrm] + rest));
    Head(p, b0, [modrm] + rest, pc);
    assert s[After(p, 1).k] == modrm;
  }

  /** Opcodes whose missing ModR/M byte leaves the PC where it is. */
  predicate StaysPut(b0: Byte, p: Prefix) {
    || b0 in {0x89, 0x8B, 0x01, 0x83, 0x81, 0xC7}
    || (p.Rex? && b0 in {0x29, 0x31, 0x21, 0x09, 0x33, 0x03, 0x2B, 0x39, 0x3B, 0x85, 0x8D})
  }

  /** The bytes end behind the opcode. */
  lemma {:induction false} CutShort(p: Prefix, b0: Byte, pc: Word)
    requires RexPrefix(p) && TakesRm(b0, p)
    ensures
      var n := if p.Rex? then 2 else 1;
      Decode(PrefixBytes(p) + [b0], pc) == Fail(n, if StaysPut(b0, p) then 0 else n)
  {
    hide Decode, Fetch, Decode0f, DecodeMovReg, DecodeBranch, DecodeRaxImm, ParseModrm, FormInsn;
    var s := PrefixBytes(p) + [b0];
    assert s == PrefixBytes(p) + ([b0] + []);
    Head(p, b0, [], pc);
    assert |s| == After(p, 1).k;
  }
}
