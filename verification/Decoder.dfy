/** The decoder object: a cursor and a PC that advance fetch by fetch.
 *
 * The branches are the source's, grouped by shape: those with and without a REX
 * prefix are merged where they differ only in the width, and the opcodes are
 * tested in another order, which makes no difference since they test for different
 * bytes.  Ghost fields remember where the current instruction began and whether a
 * fetch ran past the end.
 */
module Decoder {
  import opened Words
  import opened Memory
  import opened Machine
  import opened X86
  import opened DecoderSpec

  class Decoder {
    const code: seq<Byte>
    var pos: nat
    var pc: Word
    ghost var begin: nat
    ghost var clean: bool

    constructor (code: seq<Byte>, basePc: Word)
      ensures this.code == code && pos == begin == 0 && pc == basePc && clean && Ok()
    {
      this.code := code;
      pos, pc := 0, basePc;
      begin, clean := 0, true;
    }

    ghost predicate Ok()
      reads this
    {
      begin <= pos <= |code|
    }

    ghost function Cur(): Cursor
      requires Ok()
      reads this
    {
      Cursor(pos - begin, clean)
    }

    /** The bytes from the beginning of the current instruction on. */
    ghost function Rest(): seq<Byte>
      requires Ok()
      reads this
    {
      code[begin..]
    }

    predicate Need(n: nat)
      reads this
    {
      pos + n <= |code|
    }

    method FetchW(w: Width) returns (v: Word)
      requires Ok()
      modifies this`pos, this`clean
      ensures Ok() && Fetched(v, Cur()) == Fetch(Rest(), old(Cur()), w)
      ensures v < Span(w)
    {
      if !Need(w) {
        clean := false;
        return 0;
      }
      SubSlice(code, begin, |code| - begin, pos - begin, w);
      assert code[begin..] == code[begin..begin + (|code| - begin)];
      SpanIsPow256(w);
      v := LoadBytes(code[pos..pos + w]);
      pos := pos + w;
    }

    /** `fetch8` when a byte is known to be there, or not. */
    method Fetch8() returns (v: Byte)
      requires Ok()
      modifies this`pos, this`clean
      ensures Ok() && Fetched(v, Cur()) == Fetch(Rest(), old(Cur()), 1)
      ensures old(Need(1)) ==> v == old(code[pos]) && Cur() == Cursor(old(Cur()).k + 1, old(clean))
    {
      FetchByte(Rest(), Cur());
      v := FetchW(1);
    }

    method ParseSib(op: Operand, rex: Byte, mod: Byte) returns (ok: bool, out: Operand)
      requires Ok()
      modifies this`pos, this`clean
      ensures Ok() && Parsed(out, Cur()) == DecoderSpec.ParseSib(op, rex, mod, Rest(), old(Cur()))
      ensures ok <==> old(Need(1))
    {
      hide Fetch, DecodeReg, Signed;
      if !Need(1) {
        clean := false;
        return false, op;
      }
      var sib := Fetch8();
      out := op.(scale := ScaleFrom(sib / 64));
      var rexX := if RexX(rex) then 4 else 0;
      out := out.(index := DecodeReg((sib / 8) % 8, rexX, true));
      out := out.(base := DecodeReg(sib % 8, rex, true));
      if sib % 8 == 5 && mod == 0 {
        var d := FetchW(4);
        out := out.(disp := Signed(d, 4), absSib := true);
      }
      ok := true;
    }

    method ParseModrm(op: Operand, rex: Byte, modrm: Byte) returns (out: Operand)
      requires Ok()
      modifies this`pos, this`clean
      ensures Ok() && Parsed(out, Cur()) == DecoderSpec.ParseModrm(op, rex, modrm, Rest(), old(Cur()))
    {
      hide Fetch, DecodeReg, Signed, DecoderSpec.ParseSib;
      var mod, rm := modrm / 64, modrm % 8;
      out := op.(base := DecodeReg(rm, rex, true));
      if mod == 3 {
        out := out.(isMem := false, reg := out.base);
        return;
      }
      if rm == 4 {
        out := out.(disp := 0, hasSib := true);
        var ok;
        ok, out := ParseSib(out, rex, mod);
        if !ok {
          return;
        }
        if mod == 0 {
          return;
        }
      } else if rm == 5 && mod == 0 {
        var d := FetchW(4);
        out := out.(ripRel := true, disp := Signed(d, 4));
        return;
      } else if mod == 0 {
        out := out.(disp := 0);
        return;
      }
      if mod == 1 {
        var d := FetchW(1);
        out := out.(disp := Signed(d, 1));
      } else {
        var d := FetchW(4);
        out := out.(disp := Signed(d, 4));
      }
    }

    /** Set the size and advance the PC. */
    method Complete(insn: Instruction, start: nat) returns (ok: bool, out: Instruction)
      requires Ok() && start == begin
      modifies this`pc
      ensures ok && Done(out, clean) == Finish(insn, Cur()) && pc == Wrap64(old(pc) + out.size)
    {
      out := insn.(size := pos - start);
      pc := Wrap64(pc + out.size);
      ok := true;
    }

    /** What a call did, against the description d of the whole instruction. */
    twostate predicate Did(d: Decoded, ok: bool, out: Instruction)
      requires Ok()
      reads this
    {
      && begin == old(begin)
      && (ok <==> d.Done?)
      && (ok ==> Done(out, clean) == d && pc == Wrap64(old(pc) + out.size) && pos == begin + out.size)
      && (!ok ==> pos == begin + d.used && pc == old(pc))
    }

    /** The context of the current instruction. */
    ghost predicate In(x: Context)
      requires Ok()
      reads this
    {
      x.s == Rest() && x.pc == pc
    }

    /** Opcode /r: a register and an r/m operand. */
    method RegRm(insn: Instruction, rex: Byte, rmIsDst: bool, start: nat, ghost x: Context, ghost f: Form)
        returns (ok: bool, out: Instruction)
      requires Ok() && start == begin && In(x) && x.rex == rex && f.Form? && insn == FormInsn(x, f) &&
          rmIsDst == f.regIsSrc
      modifies this`pos, this`clean, this`pc
      ensures Ok() && Did(DecodeRm(x, f, old(Cur())), ok, out)
    {
      hide DecoderSpec.ParseModrm, DecodeReg, Fetch;
      out := insn;
      if !Need(1) {
        return false, out;
      }
      var modrm := Fetch8();
      var reg := DecodeReg((modrm / 8) % 8, rex, false);
      if rmIsDst {
        var dst := ParseModrm(insn.dst, rex, modrm);
        out := out.(src := out.src.(reg := reg), dst := dst);
      } else {
        var src := ParseModrm(insn.src, rex, modrm);
        out := out.(dst := out.dst.(reg := reg), src := src);
      }
      ok, out := Complete(out, start);
    }

    /** 83 /digit imm8 */
    method Group83(insn: Instruction, rex: Byte, start: nat, ghost x: Context) returns (ok: bool, out: Instruction)
      requires Ok() && start == begin && In(x) && x.rex == rex && insn == Blank(x)
      modifies this`pos, this`clean, this`pc
      ensures Ok() && Did(DecodeGroup(x, 0x83, old(Cur())), ok, out)
    {
      hide DecoderSpec.ParseModrm, Fetch, Signed, GroupOp;
      out := insn;
      if !Need(1) {
        return false, out;
      }
      var modrm := Fetch8();
      var op := (modrm / 8) % 8;
      var dst := ParseModrm(out.dst.(isMem := true, width := 8), rex, modrm);
      out := out.(dst := dst);
      var imm8 := FetchW(1);
      if op == 7 {
        out := out.(kind := CmpRegImm, src := out.src.(imm := Signed(imm8, 1)));
      } else if !out.dst.isMem {
        out := out.(kind := BinOpRegImm, binop := GroupOp(op), src := out.src.(imm := Signed(imm8, 1)));
      } else {
        out := out.(kind := BinOpMemImm, binop := GroupOp(op), src := out.src.(imm := Signed(imm8, 1)));
      }
      ok, out := Complete(out, start);
    }

    /** 81 /digit imm32 */
    method Group81(insn: Instruction, rex: Byte, start: nat, ghost x: Context) returns (ok: bool, out: Instruction)
      requires Ok() && start == begin && In(x) && x.rex == rex && insn == Blank(x)
      modifies this`pos, this`clean, this`pc
      ensures Ok() && Did(DecodeGroup(x, 0x81, old(Cur())), ok, out)
    {
      hide DecoderSpec.ParseModrm, Fetch, Signed, GroupOp;
      out := insn;
      if !Need(1) {
        return false, out;
      }
      var modrm := Fetch8();
      var op := (modrm / 8) % 8;
      if op == 7 {
        out := out.(kind := CmpRegImm);
      } else {
        out := out.(kind := BinOpRegImm, binop := GroupOp(op));
      }
      var dst := ParseModrm(out.dst.(isMem := true, width := 4), rex, modrm);
      out := out.(dst := dst);
      var imm := FetchW(4);
      out := out.(src := out.src.(imm := Signed(imm, 4)));
      ok, out := Complete(out, start);
    }

    /** C7 /0 imm32 */
    method StoreImm32(insn: Instruction, rex: Byte, start: nat, ghost x: Context) returns (ok: bool, out: Instruction)
      requires Ok() && start == begin && In(x) && x.rex == rex && insn == Blank(x)
      modifies this`pos, this`clean, this`pc
      ensures Ok() && Did(DecodeMovImm(x, 0xC7, old(Cur())), ok, out)
    {
      hide DecoderSpec.ParseModrm, Fetch, Signed;
      out := insn;
      if !Need(1) {
        return false, out;
      }
      var modrm := Fetch8();
      if (modrm / 8) % 8 != 0 {
        return false, out;
      }
      var dst := ParseModrm(out.dst.(isMem := true, width := 8), rex, modrm);
      var imm := FetchW(4);
      out := out.(kind := MovImm, dst := dst.(imm := Signed(imm, 4)));
      ok, out := Complete(out, start);
    }

    /** C6 imm8 */
    method StoreImm8(insn: Instruction, rex: Byte, start: nat, ghost x: Context) returns (ok: bool, out: Instruction)
      requires Ok() && start == begin && In(x) && x.rex == rex && insn == Blank(x)
      modifies this`pos, this`clean, this`pc
      ensures Ok() && Did(DecodeMovImm(x, 0xC6, old(Cur())), ok, out)
    {
      hide DecoderSpec.ParseModrm, Fetch, Signed;
      out := insn;
      if !Need(1) {
        return false, out;
      }
      var modrm := Fetch8();
      var dst := ParseModrm(out.dst.(isMem := true, width := 1), rex, modrm);
      var imm := FetchW(1);
      out := out.(kind := MovImm, dst := dst.(imm := Signed(imm, 1)));
      ok, out := Complete(out, start);
    }

    /** C1 /digit imm8, and D1 /digit with a count of 1 */
    method ShiftReg(insn: Instruction, b0: Byte, rex: Byte, start: nat, ghost x: Context)
        returns (ok: bool, out: Instruction)
      requires Ok() && start == begin && In(x) && x.rex == rex && insn == Blank(x) && (b0 == 0xC1 || b0 == 0xD1)
      modifies this`pos, this`clean, this`pc
      ensures Ok() && Did(DecodeShift(x, b0, old(Cur())), ok, out)
    {
      hide DecoderSpec.ParseModrm, Fetch, Signed;
      out := insn;
      if !Need(1) {
        return false, out;
      }
      var modrm := Fetch8();
      var op := (modrm / 8) % 8;
      if op != 4 && op != 5 && op != 7 {
        return false, out;
      }
      var dst := ParseModrm(out.dst.(isMem := true, width := 8), rex, modrm);
      out := out.(kind := ShiftRegImm, dst := dst);
      if out.dst.isMem {
        return false, out;
      }
      if b0 == 0xC1 {
        var imm := FetchW(1);
        out := out.(src := out.src.(imm := Signed(imm, 1)));
      } else {
        out := out.(src := out.src.(imm := 1));
      }
      out := out.(binop := if op == 4 then BAdd else if op == 5 then BSub else BOr);
      ok, out := Complete(out, start);
    }

    /** FF /0 and FF /1 */
    method IncDec(insn: Instruction, rex: Byte, start: nat, ghost x: Context) returns (ok: bool, out: Instruction)
      requires Ok() && start == begin && In(x) && x.rex == rex && insn == Blank(x)
      modifies this`pos, this`clean, this`pc
      ensures Ok() && Did(DecodeIncDec(x, old(Cur())), ok, out)
    {
      hide DecoderSpec.ParseModrm, Fetch, DecodeIncDec, Wrap64;
      out := insn;
      IncDecIs(x, Cur());
      if !Need(1) {
        return false, out;
      }
      var modrm := Fetch8();
      var op := (modrm / 8) % 8;
      if op > 1 {
        return false, out;
      }
      assert out.dst.(isMem := true, width := 8) == MemOperand(8);
      var dst := ParseModrm(out.dst.(isMem := true, width := 8), rex, modrm);
      out := out.(binop := if op == 0 then BAdd else BSub, dst := dst, src := out.src.(imm := 1));
      if !out.dst.isMem {
        out := out.(kind := BinOpRegImm);
      } else {
        out := out.(kind := BinOpMemImm);
      }
      ok, out := Complete(out, start);
    }

    /** Its description, case by case. */
    lemma {:induction false} IncDecIs(x: Context, cur: Cursor)
      ensures cur.k + 1 > |x.s| ==> DecodeIncDec(x, cur) == Unknown(cur)
      ensures
        cur.k < |x.s| ==>
          var modrm, cur1 := x.s[cur.k], Cursor(cur.k + 1, cur.clean);
          var op, p := (modrm / 8) % 8, DecoderSpec.ParseModrm(MemOperand(8), x.rex, modrm, x.s, cur1);
          DecodeIncDec(x, cur) ==
          if op > 1 then Unknown(cur1)
          else Finish(Blank(x).(binop := if op == 0 then BAdd else BSub, dst := p.op, src := NO_OPERAND.(imm := 1),
                                kind := if p.op.isMem then BinOpMemImm else BinOpRegImm), p.cur)
    {
      hide DecoderSpec.ParseModrm;
    }

    /** A relative branch. */
    method Relative(insn: Instruction, kind: OpKind, cc: Byte, length: nat, w: Width, start: nat, ghost x: Context)
        returns (ok: bool, out: Instruction)
      requires Ok() && start == begin && In(x) && insn == Blank(x)
      modifies this`pos, this`clean, this`pc
      ensures Ok() && Did(DecodeBranch(x, kind, cc, length, w, old(Cur())), ok, out)
    {
      hide Fetch, Signed, Wrap64;
      var rel := FetchW(w);
      out := insn.(kind := kind, cc := cc, target := Wrap64(pc + length + Signed(rel, w)));
      ok, out := Complete(out, start);
    }

    /** An instruction without further bytes. */
    method Bare(insn: Instruction, start: nat) returns (ok: bool, out: Instruction)
      requires Ok() && start == begin
      modifies this`pc
      ensures Ok() && Did(Finish(insn, old(Cur())), ok, out)
    {
      ok, out := Complete(insn, start);
    }

    /** `decode_0f` */
    method Decode0f(b1: Byte, insn: Instruction, rex: Byte, inRex: bool, start: nat, ghost x: Context)
        returns (ok: bool, out: Instruction)
      requires Ok() && start == begin && In(x) && x.rex == rex && insn == Blank(x)
      modifies this`pos, this`clean, this`pc
      ensures Ok() && Did(Decode0fTail(x, b1, old(Cur())), ok, out)
      ensures Decode0fTail(x, b1, old(Cur())).Fail? ==>
                Decode0fTail(x, b1, old(Cur())).used == Decode0fTail(x, b1, old(Cur())).skip
    {
      hide DecodeRm;
      out := insn;
      if b1 == 0x05 {
        ok, out := Bare(out.(kind := Syscall), start);
        return;
      }
      if b1 / 16 == 8 {
        ok, out := Relative(out, Jcc, b1 % 16, 6, 4, start, x);
        return;
      }
      if b1 == 0xB6 || b1 == 0xAF || b1 == 0xBE {
        ghost var f := RmForm0f(b1, rex);
        LateFails(x, f, Cur());
        var w: Width := if RexW(rex) then 8 else 4;
        out := out.(dst := out.dst.(isMem := false, width := w),
                    src := out.src.(isMem := true, width := if b1 == 0xAF then w else 1),
                    kind := if b1 == 0xAF then ImulRegMem else MovRegMem,
                    zext := b1 == 0xB6, sext := b1 == 0xBE);
        ok, out := RegRm(out, rex, false, start, x, f);
        return;
      }
      return false, out;
    }

    /** Without an early check, a missing ModR/M byte means an unknown opcode. */
    lemma {:induction false} LateFails(x: Context, f: Form, cur: Cursor)
      requires f.Form? && !f.early
      ensures DecodeRm(x, f, cur).Fail? ==> DecodeRm(x, f, cur).used == DecodeRm(x, f, cur).skip
    {
    }

    /** Opcodes `decode_one` leaves to `decode_extended`. */
    static predicate IsLate(b0: Byte, inRex: bool, rex: Byte) {
      && b0 !in {0x90, 0xF4, 0x0F, 0xEB, 0xE9, 0x83, 0x81, 0xC7, 0x89, 0x8B, 0x01}
      && !(0xB8 <= b0 <= 0xBF) && !(0x50 <= b0 <= 0x5F)
      && (inRex ==> b0 !in {0x29, 0x31, 0x33, 0x21, 0x09, 0x03, 0x2B, 0x39, 0x3B, 0x85, 0x8D})
      && (inRex && RexW(rex) ==> b0 != 0x05 && b0 != 0x3D)
    }

    /** Loads, stores and tests of `decode_extended` with a ModR/M byte. */
    static predicate LateRm(b0: Byte, inRex: bool) {
      b0 in {0x88, 0x8A, 0x84, 0x63} || (b0 == 0x8D && !inRex)
    }

    /** The ModR/M rows of `decode_extended`. */
    method ExtendedRm(b0: Byte, insn: Instruction, rex: Byte, inRex: bool, start: nat, ghost x: Context)
        returns (ok: bool, out: Instruction)
      requires Ok() && start == begin && In(x) && x.rex == rex && x.inRex == inRex && insn == Blank(x)
      requires LateRm(b0, inRex)
      modifies this`pos, this`clean, this`pc
      ensures RmForm(b0, inRex).Form? && Ok() && Did(DecodeRm(x, RmForm(b0, inRex), old(Cur())), ok, out)
    {
      hide DecodeRm;
      ghost var f := RmForm(b0, inRex);
      out := insn;
      if b0 == 0x88 {
        out := out.(kind := MovMemReg, dst := out.dst.(isMem := true, width := 1), src := out.src.(isMem := false));
        ok, out := RegRm(out, rex, true, start, x, f);
      } else if b0 == 0x8A {
        out := out.(kind := MovRegMem, dst := out.dst.(isMem := false, width := 1),
                    src := out.src.(isMem := true, width := 1));
        ok, out := RegRm(out, rex, false, start, x, f);
      } else if b0 == 0x84 {
        out := out.(kind := TestRegReg, dst := out.dst.(isMem := true, width := 1), src := out.src.(isMem := false));
        ok, out := RegRm(out, rex, true, start, x, f);
      } else if b0 == 0x8D {
        out := out.(kind := Lea, dst := out.dst.(isMem := false, width := 8), src := out.src.(isMem := true));
        ok, out := RegRm(out, rex, false, start, x, f);
      } else {
        out := out.(kind := MovRegMem, dst := out.dst.(isMem := false, width := 8),
                    src := out.src.(isMem := true, width := 4), sext := true);
        ok, out := RegRm(out, rex, false, start, x, f);
      }
    }

    /** `decode_extended`; its REX form of 3B is decoded earlier. */
    method DecodeExtended(b0: Byte, insn: Instruction, rex: Byte, inRex: bool, start: nat, ghost x: Context)
        returns (ok: bool, out: Instruction)
      requires Ok() && start == begin && In(x) && x.rex == rex && x.inRex == inRex && insn == Blank(x)
      requires IsLate(b0, inRex, rex)
      modifies this`pos, this`clean, this`pc
      ensures Ok() && Did(DecodeOp(x, b0, old(Cur())), ok, out)
    {
      hide DecodeRm, DecodeBranch, DecodeMovImm, DecodeShift, DecodeIncDec;
      out := insn;
      if b0 == 0xE8 {
        ok, out := Relative(out, Call, 0, 5, 4, start, x);
      } else if b0 == 0xC3 {
        ok, out := Bare(out.(kind := Ret), start);
      } else if b0 == 0xC9 {
        ok, out := Bare(out.(kind := Leave), start);
      } else if 0x70 <= b0 <= 0x7F {
        ok, out := Relative(out, Jcc, b0 - 0x70, 2, 1, start, x);
      } else if LateRm(b0, inRex) {
        ok, out := ExtendedRm(b0, out, rex, inRex, start, x);
      } else if b0 == 0xC6 {
        ok, out := StoreImm8(out, rex, start, x);
      } else if inRex && RexW(rex) && b0 == 0x98 {
        out := out.(kind := MovRegReg, dst := out.dst.(reg := 0, width := 8), src := out.src.(reg := 0, width := 4),
                    sext := true);
        ok, out := Bare(out, start);
      } else if b0 == 0xC1 || b0 == 0xD1 {
        ok, out := ShiftReg(out, b0, rex, start, x);
      } else if b0 == 0xFF {
        ok, out := IncDec(out, rex, start, x);
      } else {
        return false, out;
      }
    }

    /** When `decode_extended` gives up, the instruction is unknown. */
    lemma {:induction false} LateUnknown(x: Context, b0: Byte, cur: Cursor)
      requires IsLate(b0, x.inRex, x.rex)
      ensures DecodeOp(x, b0, cur).Fail? ==> DecodeOp(x, b0, cur).used == DecodeOp(x, b0, cur).skip
    {
      hide DecoderSpec.ParseModrm, Fetch, Signed, DecodeReg;
    }

    static predicate EarlyRm(b0: Byte, inRex: bool) {
      b0 in {0x89, 0x8B, 0x01} || (inRex && b0 in {0x29, 0x31, 0x33, 0x21, 0x09, 0x03, 0x2B, 0x39, 0x3B, 0x85, 0x8D})
    }

    /** The ModR/M rows of `decode_one`, with and without a REX prefix. */
    method EarlyRows(b0: Byte, insn: Instruction, rex: Byte, inRex: bool, start: nat, ghost x: Context)
        returns (ok: bool, out: Instruction)
      requires Ok() && start == begin && In(x) && x.rex == rex && x.inRex == inRex && insn == Blank(x)
      requires EarlyRm(b0, inRex)
      modifies this`pos, this`clean, this`pc
      ensures RmForm(b0, inRex).Form? && Ok() && Did(DecodeRm(x, RmForm(b0, inRex), old(Cur())), ok, out)
    {
      hide DecodeRm;
      ghost var f := RmForm(b0, inRex);
      var w: Width := if inRex then 8 else 4;
      var memDst := insn.(dst := insn.dst.(isMem := true, width := w));
      var memSrc := insn.(dst := insn.dst.(isMem := false, width := w), src := insn.src.(isMem := true));
      if b0 == 0x89 {
        ok, out := RegRm(memDst.(kind := MovMemReg), rex, true, start, x, f);
      } else if b0 == 0x8B {
        ok, out := RegRm(memSrc.(kind := MovRegMem), rex, false, start, x, f);
      } else if b0 == 0x01 {
        ok, out := RegRm(memDst.(kind := BinOpMemReg, binop := BAdd), rex, true, start, x, f);
      } else if b0 == 0x29 {
        ok, out := RegRm(memDst.(kind := BinOpMemReg, binop := BSub), rex, true, start, x, f);
      } else if b0 == 0x31 {
        ok, out := RegRm(memDst.(kind := BinOpMemReg, binop := BXor), rex, true, start, x, f);
      } else if b0 == 0x33 {
        ok, out := RegRm(memSrc.(kind := BinOpRegReg, binop := BXor), rex, false, start, x, f);
      } else if b0 == 0x21 {
        ok, out := RegRm(memDst.(kind := BinOpMemReg, binop := BAnd), rex, true, start, x, f);
      } else if b0 == 0x09 {
        ok, out := RegRm(memDst.(kind := BinOpMemReg, binop := BOr), rex, true, start, x, f);
      } else if b0 == 0x03 {
        ok, out := RegRm(memSrc.(kind := BinOpRegReg, binop := BAdd), rex, false, start, x, f);
      } else if b0 == 0x2B {
        ok, out := RegRm(memSrc.(kind := BinOpRegReg, binop := BSub), rex, false, start, x, f);
      } else if b0 == 0x39 {
        ok, out := RegRm(memDst.(kind := CmpRegReg), rex, true, start, x, f);
      } else if b0 == 0x3B {
        ok, out := RegRm(memSrc.(kind := CmpRegReg), rex, false, start, x, f);
      } else if b0 == 0x85 {
        ok, out := RegRm(memDst.(kind := TestRegReg), rex, true, start, x, f);
      } else {
        ok, out := RegRm(memSrc.(kind := Lea), rex, false, start, x, f);
      }
    }

    /** B8+r: a 64-bit immediate with REX.W, else a sign-extended 32-bit one. */
    method MovRegImm(b0: Byte, insn: Instruction, rex: Byte, inRex: bool, start: nat, ghost x: Context)
        returns (ok: bool, out: Instruction)
      requires Ok() && start == begin && In(x) && x.rex == rex && x.inRex == inRex && insn == Blank(x)
      requires 0xB8 <= b0 <= 0xBF
      modifies this`pos, this`clean, this`pc
      ensures Ok() && Did(DecodeMovReg(x, b0, old(Cur())), ok, out)
    {
      hide Fetch, Signed, DecodeReg;
      var w: Width := if inRex && RexW(rex) then 8 else 4;
      var imm := FetchW(w);
      out := insn.(kind := MovImm, dst := insn.dst.(reg := DecodeReg(b0 - 0xB8, rex, false), width := w,
                                                    imm := Signed(imm, w)));
      ok, out := Complete(out, start);
    }

    /** 05 and 3D with REX.W: add or compare rax with an immediate. */
    method RaxImm(kind: OpKind, insn: Instruction, start: nat, ghost x: Context) returns (ok: bool, out: Instruction)
      requires Ok() && start == begin && In(x) && insn == Blank(x)
      modifies this`pos, this`clean, this`pc
      ensures Ok() && Did(DecodeRaxImm(x, kind, old(Cur())), ok, out)
    {
      hide Fetch, Signed;
      var imm := FetchW(4);
      out := insn.(kind := kind, src := insn.src.(imm := Signed(imm, 4)));
      ok, out := Complete(out, start);
    }

    /** What a whole decode did, against its description d. */
    twostate predicate Outcome(d: Decoded, ok: bool, out: Instruction)
      reads this
    {
      && (ok <==> d.Done?)
      && (ok ==> Done(out, clean) == d && pos == begin + out.size && pc == Wrap64(old(pc) + out.size))
      && (!ok ==> pos == begin + d.used && pc == Wrap64(old(pc) + d.skip))
    }

    /** A failure inside `decode_one` itself leaves the PC where it was. */
    static lemma {:induction false} EarlyStays(x: Context, b0: Byte, cur: Cursor)
      requires EarlyRm(b0, x.inRex) || b0 in {0x83, 0x81, 0xC7}
      ensures EarlyRm(b0, x.inRex) ==>
                && RmForm(b0, x.inRex).Form?
                && DecodeOp(x, b0, cur) == DecodeRm(x, RmForm(b0, x.inRex), cur)
      ensures DecodeOp(x, b0, cur).Fail? ==> DecodeOp(x, b0, cur).skip == 0
    {
      hide DecoderSpec.ParseModrm, Fetch, Signed, DecodeReg, GroupOp;
    }

    /** The end of `decode_one`: an unknown instruction. */
    method Invalidate(insn: Instruction, start: nat) returns (ok: bool, out: Instruction)
      requires Ok() && start == begin
      modifies this`pc
      ensures !ok && pc == Wrap64(old(pc) + (pos - begin))
      ensures out == insn.(kind := Invalid, size := pos - begin)
    {
      out := insn.(kind := Invalid, size := pos - start);
      pc := Wrap64(pc + out.size);
      ok := false;
    }

    /** The opcodes of `decode_one` without a ModR/M byte. */
    static predicate IsPlain(b0: Byte) {
      b0 in {0x90, 0xF4, 0xEB, 0xE9} || 0xB8 <= b0 <= 0xBF || 0x50 <= b0 <= 0x5F
    }

    method PlainOpcode(b0: Byte, insn: Instruction, rex: Byte, inRex: bool, start: nat, ghost x: Context)
        returns (ok: bool, out: Instruction)
      requires Ok() && start == begin && In(x) && x.rex == rex && x.inRex == inRex && insn == Blank(x)
      requires IsPlain(b0)
      modifies this`pos, this`clean, this`pc
      ensures Ok() && Did(DecodeOp(x, b0, old(Cur())), ok, out) && ok
    {
      hide Fetch, Signed, DecodeReg;
      if b0 == 0x90 {
        ok, out := Bare(insn.(kind := Nop), start);
      } else if b0 == 0xF4 {
        ok, out := Bare(insn.(kind := Hlt), start);
      } else if 0xB8 <= b0 <= 0xBF {
        ok, out := MovRegImm(b0, insn, rex, inRex, start, x);
      } else if 0x50 <= b0 <= 0x57 {
        ok, out := Bare(insn.(kind := Push, src := insn.src.(reg := DecodeReg(b0 - 0x50, rex, false))), start);
      } else if 0x58 <= b0 <= 0x5F {
        ok, out := Bare(insn.(kind := Pop, dst := insn.dst.(reg := DecodeReg(b0 - 0x58, rex, false))), start);
      } else if b0 == 0xEB {
        ok, out := Relative(insn, Jmp, 0, 2, 1, start, x);
      } else {
        ok, out := Relative(insn, Jmp, 0, 5, 4, start, x);
      }
    }

    /** The opcodes of `decode_one` with a ModR/M byte. */
    method ModrmOpcode(b0: Byte, insn: Instruction, rex: Byte, inRex: bool, start: nat, ghost x: Context)
        returns (ok: bool, out: Instruction)
      requires Ok() && start == begin && In(x) && x.rex == rex && x.inRex == inRex && insn == Blank(x)
      requires EarlyRm(b0, inRex) || b0 in {0x83, 0x81, 0xC7}
      modifies this`pos, this`clean, this`pc
      ensures Ok() && Did(DecodeOp(x, b0, old(Cur())), ok, out)
      ensures !ok ==> DecodeOp(x, b0, old(Cur())).skip == 0
    {
      hide DecodeRm, DecodeMovImm, DecodeGroup, RmForm;
      EarlyStays(x, b0, Cur());
      if b0 == 0x83 {
        ok, out := Group83(insn, rex, start, x);
      } else if b0 == 0x81 {
        ok, out := Group81(insn, rex, start, x);
      } else if b0 == 0xC7 {
        ok, out := StoreImm32(insn, rex, start, x);
      } else {
        ok, out := EarlyRows(b0, insn, rex, inRex, start, x);
      }
    }

    /** The opcode switch of `decode_one`. */
    method DecodeOpcode(b0: Byte, insn: Instruction, rex: Byte, inRex: bool, start: nat, ghost x: Context)
        returns (ok: bool, out: Instruction)
      requires Ok() && start == begin && In(x) && x.rex == rex && x.inRex == inRex && insn == Blank(x)
      modifies this`pos, this`clean, this`pc
      ensures Ok() && begin == old(begin) && Outcome(DecodeOp(x, b0, old(Cur())), ok, out)
    {
      hide Fetch, Signed, Decode0fTail, RmForm, DecodeRm;
      if IsPlain(b0) {
        ok, out := PlainOpcode(b0, insn, rex, inRex, start, x);
      } else if b0 == 0x0F {
        var b1 := Fetch8();
        ok, out := Decode0f(b1, insn, rex, inRex, start, x);
        if !ok {
          ok, out := Invalidate(insn, start);
        }
      } else if inRex && RexW(rex) && b0 == 0x05 {
        ok, out := RaxImm(BinOpRegImm, insn, start, x);
      } else if inRex && RexW(rex) && b0 == 0x3D {
        ok, out := RaxImm(CmpRegImm, insn, start, x);
      } else if EarlyRm(b0, inRex) || b0 in {0x83, 0x81, 0xC7} {
        ok, out := ModrmOpcode(b0, insn, rex, inRex, start, x);
      } else {
        hide DecodeOp;
        LateUnknown(x, b0, Cur());
        ok, out := DecodeExtended(b0, insn, rex, inRex, start, x);
        if !ok {
          ok, out := Invalidate(insn, start);
        }
      }
    }

    /** `decode_one` */
    method DecodeOne() returns (ok: bool, out: Instruction)
      requires Ok()
      modifies this
      ensures Ok() && begin == old(pos) && Outcome(Decode(code[old(pos)..], old(pc)), ok, out)
    {
      hide DecodeOp, Fetch;
      begin, clean := pos, true;
      if !Need(1) {
        assert code[pos..] == [];
        return false, NO_INSTRUCTION;
      }
      var start := pos;
      var insn := NO_INSTRUCTION.(pc := pc);
      assert Rest()[0] == code[pos];
      var inRex := Need(1) && code[pos] / 16 == 4;
      var rex: Byte := 0;
      if inRex {
        rex := Fetch8();
      }
      var b0 := Fetch8();
      ok, out := DecodeOpcode(b0, insn, rex, inRex, start, Context(Rest(), pc, rex, inRex));
    }
  }
}
