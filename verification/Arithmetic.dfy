/** What the arithmetic records compute, said without the machine's own functions:
 * shifts and logical operations bit by bit, the others in plain arithmetic, each
 * with the flags it leaves.
 */
module Arithmetic {
  import opened Words
  import opened Memory
  import opened StatusFlags
  import opened Machine
  import opened Ir

  // ---------------------------------------------------------------- bits and quotients

  /** Bit k of an integer in two's complement, with as many sign bits as needed. */
  predicate IntBit(x: int, k: nat) {
    (x / Pow2(k)) % 2 == 1
  }

  lemma {:induction false} DivDiv(x: int, a: nat, b: nat)
    requires a > 0 && b > 0
    ensures a * b > 0 && (x / a) / b == x / (a * b)
  {
    var q, r := x / a, x % a;
    var u, v := q / b, q % b;
    DivParts(a, b, u, v, r);
    ModUnique(x, a * b, u, a * v + r);
  }

  lemma {:induction false} DivParts(a: nat, b: nat, u: int, v: nat, r: nat)
    requires v < b && r < a
    ensures a * (b * u + v) + r == (a * b) * u + (a * v + r)
    ensures 0 <= a * v + r < a * b
  {
    MulAssoc(a, b, u);
    var d := b - 1 - v;
    assert a * b == a * (v + d + 1) == a * v + a * d + a;
    assert a * d >= 0 && a * v >= 0;
  }

  lemma {:induction false} BitIsQuotient(x: nat, k: nat)
    ensures Bit(x, k) <==> IntBit(x, k)
    decreases k
  {
    if k > 0 {
      BitIsQuotient(x / 2, k - 1);
      DivDiv(x, 2, Pow2(k - 1));
    }
  }

  /** A multiple of twice the place value makes no difference to a bit. */
  lemma {:induction false} HigherPart(t: int, k: nat, m: int)
    ensures IntBit(t + Pow2(k) * (2 * m), k) <==> IntBit(t, k)
  {
    var p := Pow2(k);
    var q, r := t / p, t % p;
    assert t == p * q + r;
    assert p * (q + 2 * m) == p * q + p * (2 * m);
    ModUnique(t + p * (2 * m), p, q + 2 * m, r);
  }

  lemma {:induction false} TruncIsMod(x: int, w: Width)
    ensures Trunc(x, w) == x % Pow2(8 * w)
  {
    Pow2Values();
  }

  /** Truncation keeps the low bits and clears the others. */
  lemma {:induction false} TruncBit(x: int, w: Width, k: nat)
    ensures IntBit(Trunc(x, w), k) <==> k < 8 * w && IntBit(x, k)
  {
    hide Trunc, Pow2;
    TruncIsMod(x, w);
    var m := Pow2(8 * w);
    var q, t := x / m, x % m;
    assert x == m * q + t;
    if k < 8 * w {
      Pow2Add(k, 8 * w - k);
      HalfPower(8 * w - k);
      var h := Pow2(8 * w - k - 1);
      assert m * q == Pow2(k) * (2 * (h * q)) by {
        assert m == Pow2(k) * (2 * h);
        MulAssoc(Pow2(k), 2 * h, q);
        MulAssoc(2, h, q);
      }
      HigherPart(t, k, h * q);
    } else {
      Pow2Add(8 * w, k - 8 * w);
      assert t < Pow2(k) by {
        assert m * Pow2(k - 8 * w) >= m by { ScaleUp(m, Pow2(k - 8 * w)); }
      }
      ModUnique(t, Pow2(k), 0, t);
    }
  }

  lemma {:induction false} HalfPower(n: nat)
    requires n > 0
    ensures Pow2(n) == 2 * Pow2(n - 1)
  {
  }

  lemma {:induction false} MulAssoc(a: int, b: int, c: int)
    ensures a * b * c == a * (b * c)
  {
  }

  lemma {:induction false} ScaleUp(m: nat, d: nat)
    requires d >= 1
    ensures m * d >= m
  {
    assert m * (d - 1) >= 0;
  }

  // ---------------------------------------------------------------- shifts

  /** Bit k of x * 2^n is bit k - n of x. */
  lemma {:induction false} ScaledBit(x: nat, n: nat, k: nat)
    ensures IntBit(x * Pow2(n), k) <==> n <= k && Bit(x, k - n)
  {
    hide Pow2;
    var p := Pow2(n);
    if n <= k {
      BitIsQuotient(x, k - n);
      Pow2Add(n, k - n);
      DivDiv(x * p, p, Pow2(k - n));
      ModUnique(x * p, p, x, 0);
    } else {
      Pow2Add(k, n - k);
      HalfPower(n - k);
      var h := Pow2(n - k - 1);
      assert x * p == 0 + Pow2(k) * (2 * (h * x)) by {
        assert p == Pow2(k) * (2 * h);
        MulAssoc(Pow2(k), 2 * h, x);
        MulAssoc(2, h, x);
      }
      HigherPart(0, k, h * x);
      ModUnique(0, Pow2(k), 0, 0);
    }
  }

  /** Bit k of the floor of x / 2^n is bit k + n of x. */
  lemma {:induction false} QuotientBit(x: int, n: nat, k: nat)
    ensures IntBit(x / Pow2(n), k) <==> IntBit(x, k + n)
  {
    hide Pow2;
    Pow2Add(n, k);
    DivDiv(x, Pow2(n), Pow2(k));
  }

  /** A signed value repeats its sign bit for ever. */
  lemma {:induction false} SignedBit(v: Word, w: Width, m: nat)
    ensures IntBit(Signed(v, w), m) <==> Bit(v, if m < 8 * w then m else 8 * w - 1)
  {
    hide Pow2;
    var s, top := Signed(v, w), 8 * w - 1;
    if m < 8 * w {
      SignedTrunc(v, w);
      TruncBit(s, w, m);
      TruncBit(v, w, m);
      BitIsQuotient(v, m);
    } else {
      SignedTrunc(v, w);
      TruncBit(s, w, top);
      TruncBit(v, w, top);
      BitIsQuotient(v, top);
      Pow2Add(top, m - top);
      assert Pow2(top) * Pow2(m - top) >= Pow2(top) by { ScaleUp(Pow2(top), Pow2(m - top)); }
      SpanPower(w);
      if s >= 0 {
        ModUnique(s, Pow2(m), 0, s);
        ModUnique(s, Pow2(top), 0, s);
      } else {
        ModUnique(s, Pow2(m), -1, s + Pow2(m));
        ModUnique(s, Pow2(top), -1, s + Pow2(top));
      }
    }
  }

  lemma {:induction false} SpanPower(w: Width)
    ensures Words.Span(w) / 2 == Pow2(8 * w - 1) && Words.Span(w) == Pow2(8 * w)
  {
    Pow2Values();
  }

  lemma {:induction false} SignedTrunc(v: int, w: Width)
    ensures Trunc(Signed(v, w), w) == Trunc(v, w)
  {
  }

  /** Shifts to the left, to the right, and to the right with the sign, by n: each
      bit of the result. */
  lemma {:induction false} ShiftBits(v: Word, n: nat, w: Width, k: nat)
    ensures Bit(Shifted(Left, v, n, w), k) <==> k < 8 * w && n <= k && Bit(v, k - n)
    ensures Bit(Shifted(Right, v, n, w), k) <==> k < 8 * w && Bit(v, k + n)
    ensures Bit(Shifted(Shift.Arithmetic, v, n, w), k) <==>
            k < 8 * w && Bit(v, if k + n < 8 * w then k + n else 8 * w - 1)
  {
    hide Trunc, Signed, Pow2, IntBit;
    var p := Pow2(n);
    BitIsQuotient(Shifted(Left, v, n, w), k);
    BitIsQuotient(Shifted(Right, v, n, w), k);
    BitIsQuotient(Shifted(Shift.Arithmetic, v, n, w), k);
    TruncBit(v * p, w, k);
    TruncBit(v / p, w, k);
    TruncBit(Signed(v, w) / p, w, k);
    ScaledBit(v, n, k);
    QuotientBit(v, n, k);
    BitIsQuotient(v, k + n);
    QuotientBit(Signed(v, w), n, k);
    SignedBit(v, w, k + n);
  }

  /** The shift with the sign is the floor of the signed quotient. */
  lemma {:induction false} ArithmeticShiftIsFloor(v: Word, n: nat, w: Width)
    ensures Signed(Shifted(Shift.Arithmetic, v, n, w), w) == Signed(v, w) / Pow2(n)
  {
    hide Pow2;
    var s, p := Signed(v, w), Pow2(n);
    QuotientSmaller(s, p);
    SignedSmall(s / p, w);
  }

  lemma {:induction false} QuotientSmaller(s: int, p: nat)
    requires p > 0
    ensures if s >= 0 then 0 <= s / p <= s else s <= s / p < 0
  {
    var q, r := s / p, s % p;
    assert s == p * q + r;
    if q >= 0 {
      assert p * q >= q by { ScaleUp(q, p); }
    } else {
      assert p * -q >= -q by { ScaleUp(-q, p); }
      assert p * q == -(p * -q);
      assert p * -(q + 1) >= -(q + 1) by { ScaleUp(-(q + 1), p); }
      assert p * -(q + 1) == -(p * q) - p;
    }
  }

  lemma {:induction false} SignedSmall(y: int, w: Width)
    requires -(Words.Span(w) / 2) <= y < Words.Span(w) / 2
    ensures Signed(Trunc(y, w), w) == y
  {
    hide Trunc;
    var t: Word := if y >= 0 then y else y + Words.Span(w);
    TruncIs(y, w, t);
    TruncSmall(t, w);
  }

  lemma {:induction false} TruncIs(y: int, w: Width, t: Word)
    requires t < Words.Span(w) && (y == t || y == t - Words.Span(w))
    ensures Trunc(y, w) == t
  {
    ModUnique(y, Words.Span(w), if y == t then 0 else -1, t);
  }

  /** A shift record: by the low six bits of its immediate, to the left, or with aux 1
      to the right, or with aux 2 to the right with the sign.  Only its register
      changes. */
  lemma {:induction false} ShiftStep(code: Code, st: State, k: nat)
    requires st.pc < |code| && code[st.pc].op == OpShiftRegImm
    ensures
      var ins, st' := code[st.pc], IrStep(code, st).st;
      var n, w, d := ins.imm % 64, ins.width, ins.dst;
      var before, after := st.cpu.gpr[d], st'.cpu.gpr[d];
      && st' == State(st.cpu.(gpr := st.cpu.gpr[d := after]), st.mem, st.pc + 1)
      && (ins.aux != 1 && ins.aux != 2 ==> (Bit(after, k) <==> k < 8 * w && k >= n && Bit(before, k - n)))
      && (ins.aux == 1 ==> (Bit(after, k) <==> k < 8 * w && Bit(before, k + n)))
      && (ins.aux == 2 ==>
            && (Bit(after, k) <==> k < 8 * w && Bit(before, if k + n < 8 * w then k + n else 8 * w - 1))
            && Signed(after, w) == Signed(before, w) / Pow2(n))
  {
    hide Shifted, Bit, Signed, Pow2;
    var ins := code[st.pc];
    var v := st.cpu.gpr[ins.dst];
    ShiftBits(v, ins.imm % 64, ins.width, k);
    ArithmeticShiftIsFloor(v, ins.imm % 64, ins.width);
  }

  // ---------------------------------------------------------------- multiplication

  /** The signed product, up to a multiple of the width's span. */
  lemma {:induction false} ImulCongruent(l: Word, r: Word, w: Width)
    ensures (Signed(Imul(l, r, w), w) - Signed(l, w) * Signed(r, w)) % Words.Span(w) == 0
  {
    hide Trunc, Signed;
    var m := Words.Span(w);
    var p := SignedCongruent(Trunc(l * r, w), w);
    var a := SignedCongruent(l, w);
    var b := SignedCongruent(r, w);
    var t := TruncCongruent(l * r, w);
    var x, y := Signed(l, w), Signed(r, w);
    assert l * r == x * y + m * (a * y + b * x + m * a * b) by {
      ProductParts(x, y, m, a, b);
    }
    var q := a * y + b * x + m * a * b;
    assert Signed(Imul(l, r, w), w) - x * y == m * (q - t - p) by {
      Distribute3(m, q, t, p);
    }
    ModUnique(Signed(Imul(l, r, w), w) - x * y, m, q - t - p, 0);
  }

  lemma {:induction false} Distribute3(m: int, a: int, b: int, c: int)
    ensures m * (a - b - c) == m * a - m * b - m * c
  {
  }

  lemma {:induction false} ProductParts(x: int, y: int, m: int, a: int, b: int)
    ensures (x + m * a) * (y + m * b) == x * y + m * (a * y + b * x + m * a * b)
  {
  }

  lemma {:induction false} TruncCongruent(v: int, w: Width) returns (q: int)
    ensures v == Trunc(v, w) + Words.Span(w) * q
  {
    q := v / Words.Span(w);
  }

  lemma {:induction false} SignedCongruent(v: int, w: Width) returns (q: int)
    ensures v == Signed(v, w) + Words.Span(w) * q
  {
    q := v / Words.Span(w) + (if Trunc(v, w) < Words.Span(w) / 2 then 0 else 1);
  }

  // ---------------------------------------------------------------- operations and their flags

  /** ZF and SF of a result. */
  predicate ResultFlags(res: Word, w: Width, f: Flags) {
    (f.zf <==> res == 0) && (f.sf <==> Bit(res, 8 * w - 1))
  }

  predicate Leaves(s: int, w: Width) {
    !(-(Words.Span(w) / 2) <= s < Words.Span(w) / 2)
  }

  /** An addition: the sum modulo the width's span; CF is the carry out of the
      unsigned sum, OF says that the signed sum leaves the range. */
  predicate IsSum(l: Word, r: Word, w: Width, res: Word, f: Flags) {
    && res == Trunc(l + r, w) && ResultFlags(res, w, f)
    && (f.cf <==> Trunc(l, w) + Trunc(r, w) >= Words.Span(w))
    && (f.of <==> Leaves(Signed(l, w) + Signed(r, w), w))
  }

  /** A subtraction; CF is the borrow. */
  predicate IsDifference(l: Word, r: Word, w: Width, res: Word, f: Flags) {
    && res == Trunc(l - r, w) && ResultFlags(res, w, f)
    && (f.cf <==> Trunc(l, w) < Trunc(r, w))
    && (f.of <==> Leaves(Signed(l, w) - Signed(r, w), w))
  }

  /** The three logical operations, bit by bit; CF and OF are clear. */
  ghost predicate IsAnd(l: Word, r: Word, w: Width, res: Word, f: Flags) {
    && (forall k: nat :: Bit(res, k) <==> k < 8 * w && Bit(l, k) && Bit(r, k))
    && (f.zf <==> forall k: nat :: k < 8 * w ==> !(Bit(l, k) && Bit(r, k)))
    && (f.sf <==> Bit(l, 8 * w - 1) && Bit(r, 8 * w - 1)) && !f.cf && !f.of
  }

  ghost predicate IsOr(l: Word, r: Word, w: Width, res: Word, f: Flags) {
    && (forall k: nat :: Bit(res, k) <==> k < 8 * w && (Bit(l, k) || Bit(r, k)))
    && (f.zf <==> forall k: nat :: k < 8 * w ==> !(Bit(l, k) || Bit(r, k)))
    && (f.sf <==> Bit(l, 8 * w - 1) || Bit(r, 8 * w - 1)) && !f.cf && !f.of
  }

  ghost predicate IsXor(l: Word, r: Word, w: Width, res: Word, f: Flags) {
    && (forall k: nat :: Bit(res, k) <==> k < 8 * w && Bit(l, k) != Bit(r, k))
    && (f.zf <==> forall k: nat :: k < 8 * w ==> Bit(l, k) == Bit(r, k))
    && (f.sf <==> Bit(l, 8 * w - 1) != Bit(r, 8 * w - 1)) && !f.cf && !f.of
  }

  /** The operations by the number a record carries: addition, subtraction, AND, OR
      and XOR; a number without an operation gives 0. */
  ghost predicate Operation(code: int, l: Word, r: Word, w: Width, res: Word, f: Flags) {
    match code
    case 0 => IsSum(l, r, w, res, f)
    case 1 => IsDifference(l, r, w, res, f)
    case 2 => IsAnd(l, r, w, res, f)
    case 3 => IsOr(l, r, w, res, f)
    case 4 => IsXor(l, r, w, res, f)
    case _ => res == 0 && f == Flags(false, true, false, false)
  }

  lemma {:induction false} SignBitOf(v: int, w: Width)
    ensures Signed(v, w) < 0 <==> Bit(Trunc(v, w), 8 * w - 1)
  {
    SpanPower(w);
    TopBit(Trunc(v, w), 8 * w - 1);
  }

  /** The low bits of a word. */
  lemma {:induction false} LowBit(v: Word, w: Width, k: nat)
    ensures Bit(Trunc(v, w), k) <==> k < 8 * w && Bit(v, k)
  {
    hide Trunc, IntBit;
    TruncBit(v, w, k);
    BitIsQuotient(v, k);
    BitIsQuotient(Trunc(v, w), k);
  }

  /** A value below 2^n that is not zero has one of n bits set. */
  lemma {:induction false} NonZeroBit(x: nat, n: nat) returns (k: nat)
    requires 0 < x < Pow2(n)
    ensures k < n && Bit(x, k)
    decreases n
  {
    if x % 2 == 1 {
      return 0;
    }
    k := NonZeroBit(x / 2, n - 1);
    k := k + 1;
  }

  lemma {:induction false} ZeroBit(k: nat)
    ensures !Bit(0, k)
    decreases k
  {
    if k > 0 {
      ZeroBit(k - 1);
    }
  }

  lemma {:induction false} SumIs(l: Word, r: Word, w: Width)
    ensures IsSum(l, r, w, AluResult(Add, l, r, w), AluFlags(Add, l, r, w))
  {
    hide UpdateFlags, Trunc, Signed, Bit, Wrap64;
    AddFlags(l, r, w);
    TruncSum(l, r, w);
    SignBitOf(l + r, w);
  }

  lemma {:induction false} DifferenceIs(l: Word, r: Word, w: Width)
    ensures IsDifference(l, r, w, AluResult(Sub, l, r, w), AluFlags(Sub, l, r, w))
  {
    hide UpdateFlags, Trunc, Signed, Bit, Wrap64;
    SubFlags(l, r, w);
    TruncDifference(l, r, w);
    SignBitOf(l - r, w);
  }

  /** The flags of a logical operation with result res. */
  lemma {:induction false} LogicResultFlags(op: IrBinOp, l: Word, r: Word, w: Width)
    requires op in {And, Or, Xor}
    ensures
      var res, f := AluResult(op, l, r, w), AluFlags(op, l, r, w);
      ResultFlags(res, w, f) && !f.cf && !f.of
  {
    hide BinOpVal, SubOverflowBits, AddOverflowBits;
    var res := AluResult(op, l, r, w);
    TruncSmall(res, w);
    SignTest(res, w);
    hide Trunc, BitAnd;
    SpanPower(w);
    TopBit(res, 8 * w - 1);
  }

  lemma {:induction false} AndIs(l: Word, r: Word, w: Width)
    ensures IsAnd(l, r, w, AluResult(And, l, r, w), AluFlags(And, l, r, w))
  {
    hide AluResult, AluFlags, Bit;
    var res := AluResult(And, l, r, w);
    LogicResultFlags(And, l, r, w);
    ResultBelow(And, l, r, w);
    forall k: nat ensures Bit(res, k) <==> k < 8 * w && Bit(l, k) && Bit(r, k) {
      LogicBit(l, r, w, k);
    }
    if res == 0 {
      forall k: nat | k < 8 * w ensures !(Bit(l, k) && Bit(r, k)) {
        ZeroBit(k);
        assert !Bit(res, k);
      }
    } else {
      var k := NonZeroBit(res, 8 * w);
      assert Bit(res, k);
    }
  }

  lemma {:induction false} OrIs(l: Word, r: Word, w: Width)
    ensures IsOr(l, r, w, AluResult(Or, l, r, w), AluFlags(Or, l, r, w))
  {
    hide AluResult, AluFlags, Bit;
    var res := AluResult(Or, l, r, w);
    LogicResultFlags(Or, l, r, w);
    ResultBelow(Or, l, r, w);
    forall k: nat ensures Bit(res, k) <==> k < 8 * w && (Bit(l, k) || Bit(r, k)) {
      LogicBit(l, r, w, k);
    }
    if res == 0 {
      forall k: nat | k < 8 * w ensures !(Bit(l, k) || Bit(r, k)) {
        ZeroBit(k);
        assert !Bit(res, k);
      }
    } else {
      var k := NonZeroBit(res, 8 * w);
      assert Bit(res, k);
    }
  }

  lemma {:induction false} XorIs(l: Word, r: Word, w: Width)
    ensures IsXor(l, r, w, AluResult(Xor, l, r, w), AluFlags(Xor, l, r, w))
  {
    hide AluResult, AluFlags, Bit;
    var res := AluResult(Xor, l, r, w);
    LogicResultFlags(Xor, l, r, w);
    ResultBelow(Xor, l, r, w);
    forall k: nat ensures Bit(res, k) <==> k < 8 * w && Bit(l, k) != Bit(r, k) {
      LogicBit(l, r, w, k);
    }
    if res == 0 {
      forall k: nat | k < 8 * w ensures Bit(l, k) == Bit(r, k) {
        ZeroBit(k);
        assert !Bit(res, k);
      }
    } else {
      var k := NonZeroBit(res, 8 * w);
      assert Bit(res, k);
    }
  }

  lemma {:induction false} ResultBelow(op: IrBinOp, l: Word, r: Word, w: Width)
    ensures AluResult(op, l, r, w) < Pow2(8 * w)
  {
    SpanPower(w);
  }

  lemma {:induction false} LogicBit(l: Word, r: Word, w: Width, k: nat)
    ensures Bit(AluResult(And, l, r, w), k) <==> k < 8 * w && Bit(l, k) && Bit(r, k)
    ensures Bit(AluResult(Or, l, r, w), k) <==> k < 8 * w && (Bit(l, k) || Bit(r, k))
    ensures Bit(AluResult(Xor, l, r, w), k) <==> k < 8 * w && Bit(l, k) != Bit(r, k)
  {
    hide BitOp, Trunc, Bit;
    LowBit(BitAnd(l, r), w, k);
    LowBit(BitOr(l, r), w, k);
    LowBit(BitXor(l, r), w, k);
    if k < 64 {
      BitOpAt(LAnd, l, r, 64, k);
      BitOpAt(LOr, l, r, 64, k);
      BitOpAt(LXor, l, r, 64, k);
    }
  }

  /** Every operation number, every pair of operands and every width. */
  lemma {:induction false} OperationIs(code: int, l: Word, r: Word, w: Width)
    ensures Operation(code, l, r, w, AluResult(BinOpOf(code), l, r, w), AluFlags(BinOpOf(code), l, r, w))
  {
    hide IsSum, IsDifference, IsAnd, IsOr, IsXor, AluResult, AluFlags;
    SumIs(l, r, w);
    DifferenceIs(l, r, w);
    AndIs(l, r, w);
    OrIs(l, r, w);
    XorIs(l, r, w);
    UnknownIs(l, r, w);
  }

  lemma {:induction false} UnknownIs(l: Word, r: Word, w: Width)
    ensures AluResult(Unknown, l, r, w) == 0
    ensures AluFlags(Unknown, l, r, w) == Flags(false, true, false, false)
  {
    SignTest(0, w);
    hide BitAnd;
  }

  // ---------------------------------------------------------------- records

  /** An operation into a register: with a register, or with an immediate.  Only the
      register and the flags change. */
  lemma {:induction false} RegisterOperationStep(code: Code, st: State)
    requires st.pc < |code| && code[st.pc].op in {OpBinOpReg, OpBinOpImm}
    ensures
      var ins, st' := code[st.pc], IrStep(code, st).st;
      var l := st.cpu.gpr[ins.dst];
      var r := if ins.op == OpBinOpReg then st.cpu.gpr[ins.src] else Wrap64(ins.imm);
      && st' == State(st.cpu.(gpr := st.cpu.gpr[ins.dst := st'.cpu.gpr[ins.dst]], flags := st'.cpu.flags), st.mem,
                      st.pc + 1)
      && Operation(ins.aux, l, r, ins.width, st'.cpu.gpr[ins.dst], st'.cpu.flags)
  {
    hide Operation, AluResult, AluFlags, BinOpOf, Wrap64;
    var ins := code[st.pc];
    OperationIs(ins.aux, st.cpu.gpr[ins.dst], st.cpu.gpr[ins.src], ins.width);
    OperationIs(ins.aux, st.cpu.gpr[ins.dst], Wrap64(ins.imm), ins.width);
  }

  /** The operation number of a read-modify-write. */
  function MemoryOperation(ins: Instr): int {
    if ins.op == OpBinOpMemImm then ins.src
    else if ins.aux % 16 == 6 then (ins.aux / 16) % 8
    else ins.aux % 16
  }

  /** An operation on memory, with a register or with an immediate: the result
      replaces the value loaded, in memory; registers keep their contents. */
  lemma {:induction false} MemoryOperationStep(code: Code, st: State)
    requires st.pc < |code| && code[st.pc].op in {OpBinOpMem, OpBinOpMemImm}
    ensures
      var ins, st' := code[st.pc], IrStep(code, st).st;
      var addr, w := EffAddr(st.cpu, ins, ins.dst), ins.width;
      var l := LoadMem(st.mem, addr, w);
      var r := if ins.op == OpBinOpMem then st.cpu.gpr[ins.src] else Wrap64(ins.imm);
      exists res: Word ::
        && st' == State(st.cpu.(flags := st'.cpu.flags), StoreMem(st.mem, addr, res, w), st.pc + 1)
        && Operation(MemoryOperation(ins), l, r, w, res, st'.cpu.flags)
  {
    hide Operation, AluResult, AluFlags, BinOpOf, Wrap64, EffAddr, LoadMem, StoreMem;
    var ins := code[st.pc];
    var l := LoadMem(st.mem, EffAddr(st.cpu, ins, ins.dst), ins.width);
    var r := if ins.op == OpBinOpMem then st.cpu.gpr[ins.src] else Wrap64(ins.imm);
    OperationIs(MemoryOperation(ins), l, r, ins.width);
    assert Operation(MemoryOperation(ins), l, r, ins.width, AluResult(BinOpOf(MemoryOperation(ins)), l, r, ins.width),
                     IrStep(code, st).st.cpu.flags);
  }

  /** The two values a comparison compares: registers, a register and memory in
      either order, or either of them and an immediate. */
  function LeftOf(ins: Instr, st: State): Word {
    if (ins.op == OpCmpReg && ins.aux == 8) || (ins.op == OpCmpImm && ins.aux == 7)
    then LoadMem(st.mem, BaseDisp(st.cpu, ins.dst, ins.disp), ins.width)
    else st.cpu.gpr[ins.dst]
  }

  function RightOf(ins: Instr, st: State): Word {
    if ins.op == OpCmpImm then Wrap64(ins.imm)
    else if ins.aux == 7 then LoadMem(st.mem, BaseDisp(st.cpu, ins.src, ins.disp), ins.width)
    else st.cpu.gpr[ins.src]
  }

  /** Whether a condition code holds after comparing l with r: unsigned order, equality,
      sign and overflow of the difference, and signed order. */
  predicate Holds(cc: int, l: Word, r: Word, w: Width) {
    var ul, ur, sl, sr := Trunc(l, w), Trunc(r, w), Signed(l, w), Signed(r, w);
    match cc
    case 0x0 => Leaves(sl - sr, w)
    case 0x1 => !Leaves(sl - sr, w)
    case 0x2 => ul < ur
    case 0x3 => ul >= ur
    case 0x4 => ul == ur
    case 0x5 => ul != ur
    case 0x6 => ul <= ur
    case 0x7 => ul > ur
    case 0x8 => Signed(l - r, w) < 0
    case 0x9 => Signed(l - r, w) >= 0
    case 0xA => sl < sr
    case 0xB => sl >= sr
    case 0xC => sl < sr
    case 0xD => sl >= sr
    case 0xE => sl <= sr
    case 0xF => sl > sr
    case _ => false
  }

  /** A comparison, then a conditional jump: it is taken exactly if the condition
      holds of the two values, and nothing but flags and pc has changed. */
  lemma {:induction false} CompareThenJump(code: Code, st: State)
    requires st.pc + 1 < |code| && code[st.pc].op in {OpCmpReg, OpCmpImm} && code[st.pc + 1].op == OpJcc
    ensures
      var ins, jump := code[st.pc], code[st.pc + 1];
      var first := IrStep(code, st);
      var second := IrStep(code, first.st);
      && first.status.Running? && second.status.Running?
      && second.st == State(st.cpu.(flags := first.st.cpu.flags), st.mem,
                            if Holds(jump.aux, LeftOf(ins, st), RightOf(ins, st), ins.width) then Wrap32(jump.imm)
                            else st.pc + 2)
  {
    hide CompareFlags, EvalCc, Holds, Wrap64, Wrap32, LoadMem, BaseDisp;
    var ins, jump := code[st.pc], code[st.pc + 1];
    HoldsIff(jump.aux, LeftOf(ins, st), RightOf(ins, st), ins.width);
  }

  lemma {:induction false} HoldsIff(cc: int, l: Word, r: Word, w: Width)
    ensures EvalCc(cc, CompareFlags(l, r, w)) <==> Holds(cc, l, r, w)
  {
    hide CompareFlags, Trunc, Signed;
    CompareThenBranch(l, r, w);
  }

  /** A multiplication: the destination times a register or memory. */
  lemma {:induction false} MultiplyStep(code: Code, st: State)
    requires st.pc < |code| && code[st.pc].op == OpImulReg
    ensures
      var ins, st' := code[st.pc], IrStep(code, st).st;
      var d, w := ins.dst, ins.width;
      var r := if ins.aux >= 128 then LoadMem(st.mem, EffAddr(st.cpu, ins, ins.src), w) else st.cpu.gpr[ins.src];
      var after := st'.cpu.gpr[d];
      && st' == State(st.cpu.(gpr := st.cpu.gpr[d := after]), st.mem, st.pc + 1) && after < Words.Span(w)
      && (Signed(after, w) - Signed(st.cpu.gpr[d], w) * Signed(r, w)) % Words.Span(w) == 0
  {
    hide Trunc, Signed, LoadMem, EffAddr;
    var ins := code[st.pc];
    var r := if ins.aux >= 128 then LoadMem(st.mem, EffAddr(st.cpu, ins, ins.src), ins.width)
             else st.cpu.gpr[ins.src];
    ImulCongruent(st.cpu.gpr[ins.dst], r, ins.width);
  }
}
