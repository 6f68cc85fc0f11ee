/** Status flags and condition codes.
 *
 * The four status bits the emulator touches are kept as Booleans; the other
 * bits of rflags never change.  The overflow bit is computed with the source's
 * exclusive-or expressions and proved to be the arithmetic notion of section
 * 3.4.3.1 of the Intel SDM, volume 1.
 */
module StatusFlags {
  import opened Words

  datatype IrBinOp = Add | Sub | And | Or | Xor | Unknown

  datatype Flags = Flags(cf: bool, zf: bool, sf: bool, of: bool)

  /** rflags = 0x202: none of the four bits is set. */
  const RESET: Flags := Flags(false, false, false, false)

  /** `binop_val`; a code outside the enumeration gives 0. */
  function BinOpVal(op: IrBinOp, a: Word, b: Word): Word {
    match op
    case Add => Wrap64(a + b)
    case Sub => Wrap64(a - b)
    case And => BitAnd(a, b)
    case Or => BitOr(a, b)
    case Xor => BitXor(a, b)
    case Unknown => 0
  }

  /** `1ULL << (w * 8 - 1)` */
  function SignMask(w: Width): (m: Word)
    ensures m == Span(w) / 2
  {
    if w == 1 then 0x80
    else if w == 2 then 0x8000
    else if w == 4 then 0x8000_0000
    else 0x8000_0000_0000_0000
  }

  /** `(lhs ^ rhs) & (lhs ^ res) & sign` */
  function SubOverflowBits(l: Word, r: Word, res: Word, w: Width): Word {
    BitAnd(BitAnd(BitXor(l, r), BitXor(l, res)), SignMask(w))
  }

  /** `(~(lhs ^ rhs)) & (lhs ^ res) & sign` */
  function AddOverflowBits(l: Word, r: Word, res: Word, w: Width): Word {
    BitAnd(BitAnd(BitNot(BitXor(l, r)), BitXor(l, res)), SignMask(w))
  }

  /** `update_flags`: the flags after an operation with the given result. */
  function UpdateFlags(res: Word, lhs: Word, rhs: Word, w: Width, op: IrBinOp): Flags {
    var s, l, r := Trunc(res, w), Trunc(lhs, w), Trunc(rhs, w);
    Flags(
      if op == Sub then l < r else if op == Add then s < l else false,
      s == 0,
      BitAnd(s, SignMask(w)) != 0,
      if op == Sub then SubOverflowBits(l, r, s, w) != 0
      else if op == Add then AddOverflowBits(l, r, s, w) != 0
      else false)
  }

  /** `eval_cc`; codes 0xA and 0xB repeat 0xC and 0xD in the source. */
  predicate EvalCc(cc: int, f: Flags) {
    match cc
    case 0x0 => f.of
    case 0x1 => !f.of
    case 0x2 => f.cf
    case 0x3 => !f.cf
    case 0x4 => f.zf
    case 0x5 => !f.zf
    case 0x6 => f.cf || f.zf
    case 0x7 => !f.cf && !f.zf
    case 0x8 => f.sf
    case 0x9 => !f.sf
    case 0xA => f.sf != f.of
    case 0xB => f.sf == f.of
    case 0xC => f.sf != f.of
    case 0xD => f.sf == f.of
    case 0xE => f.zf || f.sf != f.of
    case 0xF => !f.zf && f.sf == f.of
    case _ => false
  }

  // ---------------------------------------------------------------- the bit tricks

  function SignBit(w: Width): nat { 8 * w - 1 }

  predicate Negative(v: Word, w: Width) { v >= Span(w) / 2 }

  lemma {:induction false} SignMaskIsPow2(w: Width)
    ensures SignMask(w) == Pow2(SignBit(w)) && SignBit(w) < 64
  {
    Pow2Values();
  }

  /** Masking with the sign bit tells whether a w-byte value is negative. */
  lemma {:induction false} SignTest(v: Word, w: Width)
    requires v < Span(w)
    ensures BitAnd(v, SignMask(w)) != 0 <==> Negative(v, w)
  {
    SignMaskIsPow2(w);
    MaskedBit(v, 64, SignBit(w));
    TopBit(v, SignBit(w));
  }

  lemma {:induction false} SubOverflowTest(l: Word, r: Word, res: Word, w: Width)
    requires l < Span(w) && r < Span(w) && res < Span(w)
    ensures SubOverflowBits(l, r, res, w) != 0 <==>
            Negative(l, w) != Negative(r, w) && Negative(l, w) != Negative(res, w)
  {
    var k := SignBit(w);
    SignMaskIsPow2(w);
    MaskedBit(BitAnd(BitXor(l, r), BitXor(l, res)), 64, k);
    BitOpAt(LAnd, BitXor(l, r), BitXor(l, res), 64, k);
    BitOpAt(LXor, l, r, 64, k);
    BitOpAt(LXor, l, res, 64, k);
    TopBit(l, k); TopBit(r, k); TopBit(res, k);
  }

  lemma {:induction false} AddOverflowTest(l: Word, r: Word, res: Word, w: Width)
    requires l < Span(w) && r < Span(w) && res < Span(w)
    ensures AddOverflowBits(l, r, res, w) != 0 <==>
            Negative(l, w) == Negative(r, w) && Negative(l, w) != Negative(res, w)
  {
    var k := SignBit(w);
    SignMaskIsPow2(w);
    Pow2Values();
    MaskedBit(BitAnd(BitNot(BitXor(l, r)), BitXor(l, res)), 64, k);
    BitOpAt(LAnd, BitNot(BitXor(l, r)), BitXor(l, res), 64, k);
    BitOfComplement(BitXor(l, r), 64, k);
    BitOpAt(LXor, l, r, 64, k);
    BitOpAt(LXor, l, res, 64, k);
    TopBit(l, k); TopBit(r, k); TopBit(res, k);
  }

  // ---------------------------------------------------------------- arithmetic meaning

  /** After a w-byte subtraction the flags are those of the exact difference. */
  lemma {:induction false} SubFlags(lhs: Word, rhs: Word, w: Width)
    ensures
      var f := UpdateFlags(Trunc(Wrap64(lhs - rhs), w), lhs, rhs, w, Sub);
      var u := Trunc(lhs, w) - Trunc(rhs, w);
      var s := Signed(lhs, w) - Signed(rhs, w);
      && (f.cf <==> u < 0)
      && (f.zf <==> u == 0)
      && (f.of <==> !(-(Span(w) / 2) <= s < Span(w) / 2))
      && (f.sf <==> Signed(lhs - rhs, w) < 0)
  {
    var res := Trunc(Wrap64(lhs - rhs), w);
    var l, r := Trunc(lhs, w), Trunc(rhs, w);
    TruncDifference(lhs, rhs, w);
    SignTest(res, w);
    SubOverflowTest(l, r, res, w);
  }

  lemma {:induction false} TruncDifference(lhs: Word, rhs: Word, w: Width)
    ensures
      var res := Trunc(Wrap64(lhs - rhs), w);
      && Trunc(res, w) == res == Trunc(lhs - rhs, w)
      && res == (if Trunc(lhs, w) < Trunc(rhs, w) then Trunc(lhs, w) - Trunc(rhs, w) + Span(w)
                 else Trunc(lhs, w) - Trunc(rhs, w))
  {
    TruncWrap(lhs - rhs, w);
    TruncAdd(lhs - rhs, rhs, w);
    TruncSmall(Trunc(lhs - rhs, w), w);
  }

  /** After a w-byte addition the flags are those of the exact sum. */
  lemma {:induction false} AddFlags(lhs: Word, rhs: Word, w: Width)
    ensures
      var f := UpdateFlags(Trunc(Wrap64(lhs + rhs), w), lhs, rhs, w, Add);
      var u := Trunc(lhs, w) + Trunc(rhs, w);
      var s := Signed(lhs, w) + Signed(rhs, w);
      && (f.cf <==> u >= Span(w))
      && (f.zf <==> u == 0 || u == Span(w))
      && (f.of <==> !(-(Span(w) / 2) <= s < Span(w) / 2))
      && (f.sf <==> Signed(lhs + rhs, w) < 0)
  {
    var res := Trunc(Wrap64(lhs + rhs), w);
    var l, r := Trunc(lhs, w), Trunc(rhs, w);
    TruncSum(lhs, rhs, w);
    SignTest(res, w);
    AddOverflowTest(l, r, res, w);
  }

  lemma {:induction false} TruncSum(lhs: Word, rhs: Word, w: Width)
    ensures
      var res := Trunc(Wrap64(lhs + rhs), w);
      && Trunc(res, w) == res == Trunc(lhs + rhs, w)
      && res == (if Trunc(lhs, w) + Trunc(rhs, w) >= Span(w) then Trunc(lhs, w) + Trunc(rhs, w) - Span(w)
                 else Trunc(lhs, w) + Trunc(rhs, w))
  {
    TruncWrap(lhs + rhs, w);
    TruncAdd(lhs, rhs, w);
    TruncSmall(Trunc(lhs + rhs, w), w);
  }

  /** The flags a comparison leaves (`CmpReg` and `CmpImm`). */
  function CompareFlags(lhs: Word, rhs: Word, w: Width): Flags {
    UpdateFlags(Trunc(Wrap64(lhs - rhs), w), lhs, rhs, w, Sub)
  }

  /** Compare-then-branch is mathematical comparison of the truncated operands. */
  lemma {:induction false} CompareThenBranch(lhs: Word, rhs: Word, w: Width)
    ensures
      var f := CompareFlags(lhs, rhs, w);
      var ul, ur, sl, sr := Trunc(lhs, w), Trunc(rhs, w), Signed(lhs, w), Signed(rhs, w);
      && (EvalCc(0x2, f) <==> ul < ur) && (EvalCc(0x3, f) <==> ul >= ur)
      && (EvalCc(0x4, f) <==> ul == ur) && (EvalCc(0x5, f) <==> ul != ur)
      && (EvalCc(0x6, f) <==> ul <= ur) && (EvalCc(0x7, f) <==> ul > ur)
      && (EvalCc(0xC, f) <==> sl < sr) && (EvalCc(0xD, f) <==> sl >= sr)
      && (EvalCc(0xE, f) <==> sl <= sr) && (EvalCc(0xF, f) <==> sl > sr)
      && (EvalCc(0x8, f) <==> Signed(lhs - rhs, w) < 0) && (EvalCc(0x9, f) <==> Signed(lhs - rhs, w) >= 0)
      && (EvalCc(0x0, f) <==> !(-(Span(w) / 2) <= sl - sr < Span(w) / 2))
      && (EvalCc(0x1, f) <==> -(Span(w) / 2) <= sl - sr < Span(w) / 2)
  {
    SubFlags(lhs, rhs, w);
    TruncDifference(lhs, rhs, w);
  }

  /** Each odd condition code is the negation of the even one before it. */
  lemma {:induction false} CcPairs(cc: int, f: Flags)
    requires 0 <= cc < 16 && cc % 2 == 0
    ensures EvalCc(cc + 1, f) <==> !EvalCc(cc, f)
  {
  }

  // ---------------------------------------------------------------- set_flags_arith

  /** The host's flag update, bit by bit on a mutable flags word. */
  class FlagsWord {
    var f: Flags

    constructor (f: Flags)
      ensures this.f == f
    {
      this.f := f;
    }

    method SetFlagsArith(result: Word, lhs: Word, rhs: Word, w: Width, isSub: bool)
      modifies this
      ensures f == UpdateFlags(result, lhs, rhs, w, if isSub then Sub else Add)
    {
      var s, l, r := Trunc(result, w), Trunc(lhs, w), Trunc(rhs, w);
      f := Flags(false, false, false, false);
      if s == 0 {
        f := f.(zf := true);
      }
      if BitAnd(s, SignMask(w)) != 0 {
        f := f.(sf := true);
      }
      if isSub {
        f := f.(cf := f.cf || l < r);
        var overflow := SubOverflowBits(l, r, s, w) != 0;
        if overflow {
          f := f.(of := true);
        }
      } else {
        f := f.(cf := f.cf || s < l);
        var overflow := AddOverflowBits(l, r, s, w) != 0;
        if overflow {
          f := f.(of := true);
        }
      }
    }
  }
}
