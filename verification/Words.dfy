/** Machine words.
 *
 * A 64-bit register is an integer below 2^64; wrap-around and truncation are
 * written out.  The bitwise operators of the source are given by their bits,
 * so that nothing here depends on bit-vector arithmetic.
 */
module Words {

  type Byte = x: int | 0 <= x < 0x100
  type Half = x: int | 0 <= x < 0x1_0000_0000
  type Word = x: int | 0 <= x < 0x1_0000_0000_0000_0000
  type Int32 = x: int | -0x8000_0000 <= x < 0x8000_0000
  type Int64 = x: int | -0x8000_0000_0000_0000 <= x < 0x8000_0000_0000_0000

  /** Operand widths, in bytes. */
  type Width = w: int | w == 1 || w == 2 || w == 4 || w == 8 witness 1

  /** The number of values of a w-byte field. */
  function Span(w: Width): int {
    if w == 1 then 0x100
    else if w == 2 then 0x1_0000
    else if w == 4 then 0x1_0000_0000
    else 0x1_0000_0000_0000_0000
  }

  /** `v & mask_width(w)`, on any integer, with the modulus written as a literal. */
  function Trunc(v: int, w: Width): (r: Word)
    ensures 0 <= r < Span(w)
  {
    if w == 1 then v % 0x100
    else if w == 2 then v % 0x1_0000
    else if w == 4 then v % 0x1_0000_0000
    else v % 0x1_0000_0000_0000_0000
  }

  function Wrap64(v: int): Word {
    v % 0x1_0000_0000_0000_0000
  }

  /** a + d in 64-bit arithmetic. */
  function Offset(a: int, d: int): Word {
    Wrap64(a + d)
  }

  function Wrap32(v: int): Half {
    v % 0x1_0000_0000
  }

  /** Wrapping an addend first changes nothing. */
  lemma {:induction false} WrapAdd(a: int, b: int)
    ensures Wrap64(Wrap64(a) + b) == Wrap64(a + b)
  {
  }

  /** Adding less than 2^64 changes a wrapped value. */
  lemma {:induction false} WrapApart(x: int, d: int)
    requires 0 < d < 0x1_0000_0000_0000_0000
    ensures Wrap64(x + d) != Wrap64(x)
  {
  }

  lemma {:induction false} TruncSmall(v: Word, w: Width)
    requires v < Span(w)
    ensures Trunc(v, w) == v
  {
  }

  /** Wrapping to 64 bits first does not change a narrower truncation. */
  lemma {:induction false} TruncWrap(v: int, w: Width)
    ensures Trunc(Wrap64(v), w) == Trunc(v, w)
  {
    var q, r := v / 0x1_0000_0000_0000_0000, Wrap64(v);
    if w == 1 {
      assert v == 0x100 * (0x100_0000_0000_0000 * q + r / 0x100) + r % 0x100;
    } else if w == 2 {
      assert v == 0x1_0000 * (0x1_0000_0000_0000 * q + r / 0x1_0000) + r % 0x1_0000;
    } else if w == 4 {
      assert v == 0x1_0000_0000 * (0x1_0000_0000 * q + r / 0x1_0000_0000) + r % 0x1_0000_0000;
    }
  }

  /** Truncation respects sums. */
  lemma {:induction false} TruncAdd(a: int, b: int, w: Width)
    ensures Trunc(a + b, w) == (if Trunc(a, w) + Trunc(b, w) < Span(w) then Trunc(a, w) + Trunc(b, w)
                                else Trunc(a, w) + Trunc(b, w) - Span(w))
  {
    if w == 1 {
      AddMod(a, b, 0x100);
    } else if w == 2 {
      AddMod(a, b, 0x1_0000);
    } else if w == 4 {
      AddMod(a, b, 0x1_0000_0000);
    } else {
      AddMod(a, b, 0x1_0000_0000_0000_0000);
    }
  }

  lemma {:induction false} AddMod(a: int, b: int, m: int)
    requires m > 0
    ensures (a + b) % m == if a % m + b % m < m then a % m + b % m else a % m + b % m - m
  {
    var q := a / m + b / m;
    assert a + b == m * q + (a % m + b % m);
    if a % m + b % m < m {
      ModUnique(a + b, m, q, a % m + b % m);
    } else {
      assert m * (q + 1) == m * q + m;
      ModUnique(a + b, m, q + 1, a % m + b % m - m);
    }
  }

  /** The two's-complement reading of the low w bytes of v. */
  function Signed(v: int, w: Width): (r: Int64)
    ensures -(Span(w) / 2) <= r < Span(w) / 2
    ensures r == Trunc(v, w) || r == Trunc(v, w) - Span(w)
  {
    var t := Trunc(v, w);
    if t < Span(w) / 2 then t else t - Span(w)
  }

  /** Casting to int64_t and back changes nothing. */
  lemma {:induction false} SignedRoundTrip(v: Word)
    ensures Wrap64(Signed(v, 8)) == v
  {
  }

  // ---------------------------------------------------------------- powers of two

  function Pow2(n: nat): (p: nat)
    ensures p > 0
  {
    if n == 0 then 1 else 2 * Pow2(n - 1)
  }

  lemma {:induction false} Pow2Add(a: nat, b: nat)
    ensures Pow2(a + b) == Pow2(a) * Pow2(b)
  {
    if a > 0 {
      Pow2Add(a - 1, b);
      assert 2 * (Pow2(a - 1) * Pow2(b)) == (2 * Pow2(a - 1)) * Pow2(b);
    }
  }

  lemma {:induction false} Pow2Double(n: nat)
    requires n > 0
    ensures Pow2(2 * n) == Pow2(n) * Pow2(n) && Pow2(2 * n) == 2 * Pow2(2 * n - 1)
  {
    Pow2Add(n, n);
  }

  lemma {:induction false} Pow2Values()
    ensures Pow2(7) == 0x80 && Pow2(8) == 0x100
    ensures Pow2(15) == 0x8000 && Pow2(16) == 0x1_0000
    ensures Pow2(31) == 0x8000_0000 && Pow2(32) == 0x1_0000_0000
    ensures Pow2(63) == 0x8000_0000_0000_0000 && Pow2(64) == 0x1_0000_0000_0000_0000
  {
    assert Pow2(8) == 0x100 && Pow2(7) == 0x80;
    Pow2Double(8);
    Pow2Double(16);
    Pow2Double(32);
    hide Pow2;
    assert 2 * Pow2(15) == Pow2(16) && 2 * Pow2(31) == Pow2(32) && 2 * Pow2(63) == Pow2(64);
  }

  // ---------------------------------------------------------------- bits

  datatype Logic = LAnd | LOr | LXor

  predicate BoolOp(op: Logic, a: bool, b: bool) {
    match op
    case LAnd => a && b
    case LOr => a || b
    case LXor => a != b
  }

  /** Bit k of x. */
  predicate Bit(x: nat, k: nat) {
    if k == 0 then x % 2 == 1 else Bit(x / 2, k - 1)
  }

  /** The low n bits of the bitwise combination of a and b. */
  function BitOp(op: Logic, a: nat, b: nat, n: nat): (r: nat)
    ensures r < Pow2(n)
    decreases n, a, b
  {
    if n == 0 then 0
    else (if BoolOp(op, a % 2 == 1, b % 2 == 1) then 1 else 0) + 2 * BitOp(op, a / 2, b / 2, n - 1)
  }

  function BitAnd(a: Word, b: Word): Word { Pow2Values(); BitOp(LAnd, a, b, 64) }
  function BitOr(a: Word, b: Word): Word { Pow2Values(); BitOp(LOr, a, b, 64) }
  function BitXor(a: Word, b: Word): Word { Pow2Values(); BitOp(LXor, a, b, 64) }
  function BitNot(a: Word): Word { 0xFFFF_FFFF_FFFF_FFFF - a }

  /** Each bit of the result is the Boolean combination of the operands' bits. */
  lemma {:induction false} BitOpAt(op: Logic, a: nat, b: nat, n: nat, k: nat)
    requires k < n
    ensures Bit(BitOp(op, a, b, n), k) <==> BoolOp(op, Bit(a, k), Bit(b, k))
    decreases n
  {
    var rest := BitOp(op, a / 2, b / 2, n - 1);
    assert BitOp(op, a, b, n) / 2 == rest;
    if k > 0 {
      BitOpAt(op, a / 2, b / 2, n - 1, k - 1);
    }
  }

  /** Complementing flips every bit. */
  lemma {:induction false} BitOfComplement(x: nat, n: nat, k: nat)
    requires x < Pow2(n) && k < n
    ensures Bit(Pow2(n) - 1 - x, k) <==> !Bit(x, k)
    decreases n
  {
    var c := Pow2(n) - 1 - x;
    assert c / 2 == Pow2(n - 1) - 1 - x / 2;
    if k > 0 {
      BitOfComplement(x / 2, n - 1, k - 1);
    }
  }

  /** The top bit tells the upper half of the range. */
  lemma {:induction false} TopBit(x: nat, k: nat)
    requires x < 2 * Pow2(k)
    ensures Bit(x, k) <==> x >= Pow2(k)
    decreases k
  {
    if k > 0 {
      TopBit(x / 2, k - 1);
    }
  }

  /** Masking with a single bit tests it. */
  lemma {:induction false} MaskedBit(x: nat, n: nat, k: nat)
    requires k < n
    ensures BitOp(LAnd, x, Pow2(k), n) != 0 <==> Bit(x, k)
    decreases n
  {
    if k == 0 {
      AndZero(x / 2, n - 1);
    } else {
      assert Pow2(k) / 2 == Pow2(k - 1);
      MaskedBit(x / 2, n - 1, k - 1);
    }
  }

  lemma {:induction false} AndZero(x: nat, n: nat)
    ensures BitOp(LAnd, x, 0, n) == 0
    decreases n
  {
    if n > 0 {
      AndZero(x / 2, n - 1);
    }
  }

  /** Masking with 2^k - 1 keeps the remainder modulo 2^k. */
  lemma {:induction false} AndLowMask(x: nat, k: nat, n: nat)
    requires k <= n
    ensures BitOp(LAnd, x, Pow2(k) - 1, n) == x % Pow2(k)
    decreases n
  {
    hide BitOp;
    if k == 0 {
      AndZero(x, n);
    } else {
      var p := Pow2(k - 1);
      assert Pow2(k) == 2 * p;
      HalfMask(x, k, n);
      AndLowMask(x / 2, k - 1, n - 1);
      HalfMod(x, p);
    }
  }

  lemma {:induction false} HalfMask(x: nat, k: nat, n: nat)
    requires 0 < k <= n
    ensures BitOp(LAnd, x, Pow2(k) - 1, n) == x % 2 + 2 * BitOp(LAnd, x / 2, Pow2(k - 1) - 1, n - 1)
  {
    assert (Pow2(k) - 1) / 2 == Pow2(k - 1) - 1 && (Pow2(k) - 1) % 2 == 1;
  }

  lemma {:induction false} HalfMod(x: nat, m: nat)
    requires m > 0
    ensures x % (2 * m) == x % 2 + 2 * ((x / 2) % m)
  {
    var q, r := (x / 2) / m, (x / 2) % m;
    assert x == 2 * m * q + (x % 2 + 2 * r);
    ModUnique(x, 2 * m, q, x % 2 + 2 * r);
  }

  lemma {:induction false} ByteMod(x: nat, m: nat)
    requires m > 0
    ensures x % (256 * m) == x % 256 + 256 * ((x / 256) % m)
  {
    var q, r := (x / 256) / m, (x / 256) % m;
    assert (256 * m) * q == 256 * (m * q);
    ModUnique(x, 256 * m, q, x % 256 + 256 * r);
  }

  /** Quotient and remainder are unique. */
  lemma {:induction false} ModUnique(x: int, m: int, q: int, r: int)
    requires m > 0 && 0 <= r < m && x == m * q + r
    ensures x % m == r && x / m == q
  {
    var q', r' := x / m, x % m;
    var d := q - q';
    assert m * d == r' - r by {
      assert m * q == m * (q' + d) == m * q' + m * d;
    }
    if d > 0 {
      ScaleMono(m, d);
    } else if d < 0 {
      ScaleMono(m, -d);
    }
  }

  lemma {:induction false} ScaleMono(m: int, d: int)
    requires m > 0 && d >= 1
    ensures m * d >= m && m * -d <= -m
  {
    assert m * (d - 1) >= 0;
  }
}
