/** The banded Mandelbrot guest and the host's compositing.
 *
 * Each vCPU renders a band of rows into its own copy of guest RAM; the host
 * takes row y from vCPU y / rows.  Local variables are 64-bit integers, so the
 * methods are also proofs that nothing overflows.
 */
module Mandelbrot {
  import opened Words

  const WIDTH: nat := 64
  const HEIGHT: nat := 32
  const FB_BASE: nat := 0x20_0000
  const MAX_ITER: nat := 12
  const LIMIT: nat := 262144

  /** `pick`: the character for a number of iterations. */
  function Pick(it: nat): (c: Byte)
    ensures c != 0
  {
    var idx := it / 2;
    if idx > 7 then '#' as int
    else if idx == 0 then ' ' as int
    else if idx == 1 then '.' as int
    else if idx == 2 then ':' as int
    else if idx == 3 then '-' as int
    else if idx == 4 then '=' as int
    else if idx == 5 then '+' as int
    else if idx == 6 then '*' as int
    else '#' as int
  }

  // ---------------------------------------------------------------- the escape time

  /** z has left the circle, in the source's fixed-point arithmetic. */
  predicate Escaped(zx: int, zy: int) {
    zx * zx / 256 + zy * zy / 256 >= LIMIT
  }

  function NextX(zx: int, zy: int, cx: int): int { zx * zx / 256 - zy * zy / 256 + cx }

  function NextY(zx: int, zy: int, cy: int): int { 2 * (zx * zy / 256) + cy }

  /** The value of the iteration counter when the inner loop ends. */
  function EscapeTime(cx: int, cy: int, zx: int, zy: int, it: nat): (n: nat)
    requires it <= MAX_ITER
    ensures it <= n <= MAX_ITER
    decreases MAX_ITER - it
  {
    if it == MAX_ITER || Escaped(zx, zy) then it
    else EscapeTime(cx, cy, NextX(zx, zy, cx), NextY(zx, zy, cy), it + 1)
  }

  function Cx(x: int): int { 14 * x - 512 }

  function Cy(y: int): int { 300 - 19 * y }

  function Pixel(x: int, y: int): Byte {
    Pick(EscapeTime(Cx(x), Cy(y), 0, 0, 0))
  }

  /** Every character the program draws is one of the first seven: twelve
      iterations are too few for '#'. */
  lemma {:induction false} NeverHash(x: int, y: int)
    ensures Pixel(x, y) != '#' as int
  {
    hide EscapeTime;
    assert EscapeTime(Cx(x), Cy(y), 0, 0, 0) <= 12;
  }

  // ---------------------------------------------------------------- the picture, from its definition

  /** The n-th point of a pixel's orbit: z' = z^2 + c in fixed point, every product
      rounded down to 1/256. */
  function OrbitAt(x: int, y: int, n: nat): (z: (int, int)) {
    if n == 0 then (0, 0)
    else
      var (a, b) := OrbitAt(x, y, n - 1);
      (a * a / 256 - b * b / 256 + (-512 + 14 * x), 2 * (a * b / 256) + (300 - 19 * y))
  }

  /** The point is outside the circle. */
  predicate Outside(x: int, y: int, n: nat) {
    var (a, b) := OrbitAt(x, y, n);
    a * a / 256 + b * b / 256 >= 4 * 256 * 256
  }

  /** n is the first point outside, or 12 if none of the first twelve is. */
  ghost predicate Leaves(x: int, y: int, n: nat) {
    n <= 12 && (n < 12 ==> Outside(x, y, n)) && forall k: nat :: k < n ==> !Outside(x, y, k)
  }

  /** The character for that number. */
  predicate DrawnAs(n: nat, c: int) {
    && (n <= 1 ==> c == ' ' as int) && (2 <= n <= 3 ==> c == '.' as int) && (4 <= n <= 5 ==> c == ':' as int)
    && (6 <= n <= 7 ==> c == '-' as int) && (8 <= n <= 9 ==> c == '=' as int) && (10 <= n <= 11 ==> c == '+' as int)
    && (n == 12 ==> c == '*' as int)
  }

  /** What is shown at (x, y) from RAM of the given size, whose framebuffer is 64
      wide and begins at 2 MB. */
  ghost predicate Shows(size: nat, x: nat, y: nat, c: int) {
    if 0x20_0000 + 64 * y + x < size then exists n: nat :: Leaves(x, y, n) && DrawnAs(n, c)
    else c == ' ' as int
  }

  ghost predicate IsPicture(size: nat, picture: seq<seq<Byte>>) {
    && |picture| == 32
    && forall y :: 0 <= y < 32 ==> |picture[y]| == 64 && forall x :: 0 <= x < 64 ==> Shows(size, x, y, picture[y][x])
  }

  lemma {:induction false} EscapeFrom(x: int, y: int, n: nat) returns (m: nat)
    requires n <= 12 && forall k: nat :: k < n ==> !Outside(x, y, k)
    ensures Leaves(x, y, m)
    ensures m == EscapeTime(Cx(x), Cy(y), OrbitAt(x, y, n).0, OrbitAt(x, y, n).1, n)
    decreases 12 - n
  {
    if n == 12 || Outside(x, y, n) {
      return n;
    }
    m := EscapeFrom(x, y, n + 1);
  }

  /** Every pixel of the program is drawn as its definition says. */
  lemma {:induction false} PixelIsDrawn(x: int, y: int) returns (n: nat)
    ensures Leaves(x, y, n) && DrawnAs(n, Pixel(x, y))
  {
    n := EscapeFrom(x, y, 0);
  }

  /** There is only one such number. */
  lemma {:induction false} LeavesOnce(x: int, y: int, m: nat, n: nat)
    requires Leaves(x, y, m) && Leaves(x, y, n)
    ensures m == n
  {
    hide Outside;
    if m != n {
      assert false;
    }
  }

  /** A pixel whose orbit never leaves the circle is a star. */
  lemma {:induction false} InteriorIsStar(x: int, y: int)
    requires forall n: nat :: !Outside(x, y, n)
    ensures Pixel(x, y) == '*' as int
  {
    var n := PixelIsDrawn(x, y);
  }

  /** Pixel (36, 16): c is a fixed point, so it is never left. */
  lemma {:induction false} FixedPoint(n: nat)
    ensures OrbitAt(36, 16, n) == if n == 0 then (0, 0) else (-8, -4)
    decreases n
  {
    if n > 0 {
      FixedPoint(n - 1);
    }
  }

  lemma {:induction false} InteriorPixel()
    ensures Pixel(36, 16) == '*' as int
  {
    forall n: nat ensures !Outside(36, 16, n) {
      FixedPoint(n);
    }
    InteriorIsStar(36, 16);
  }

  lemma {:induction false} OrbitNext(x: int, y: int, n: nat, a: int, b: int)
    requires OrbitAt(x, y, n) == (a, b)
    ensures OrbitAt(x, y, n + 1) == (a * a / 256 - b * b / 256 + (-512 + 14 * x), 2 * (a * b / 256) + (300 - 19 * y))
  {
  }

  /** Pixel (0, 0): the fifth point is the first outside. */
  lemma {:induction false} CornerPixel()
    ensures Pixel(0, 0) == ':' as int
  {
    hide Pixel;
    assert OrbitAt(0, 0, 0) == (0, 0);
    hide OrbitAt;
    OrbitNext(0, 0, 0, 0, 0);
    OrbitNext(0, 0, 1, -512, 300);
    OrbitNext(0, 0, 2, 161, -900);
    OrbitNext(0, 0, 3, -3575, -834);
    var n := PixelIsDrawn(0, 0);
    assert Outside(0, 0, 4) && !Outside(0, 0, 3) && !Outside(0, 0, 2) && !Outside(0, 0, 1) && !Outside(0, 0, 0);
    hide Outside;
    assert n == 4;
  }

  lemma {:induction false} RowShows(size: nat, y: nat)
    requires y < 32
    ensures forall x :: 0 <= x < 64 ==> Shows(size, x, y, Row(size, y)[x])
  {
    hide Pixel, Leaves, DrawnAs;
    forall x | 0 <= x < 64 ensures Shows(size, x, y, Row(size, y)[x]) {
      var n := PixelIsDrawn(x, y);
    }
  }

  /** The picture the methods below compute. */
  lemma {:induction false} PictureIs(size: nat)
    ensures IsPicture(size, Picture(size, HEIGHT))
    ensures size >= 0x20_0800 ==>
              Picture(size, HEIGHT)[16][36] == '*' as int && Picture(size, HEIGHT)[0][0] == ':' as int
  {
    hide Pixel, Shows;
    forall y | 0 <= y < 32 ensures forall x :: 0 <= x < 64 ==> Shows(size, x, y, Row(size, y)[x]) {
      RowShows(size, y);
    }
    InteriorPixel();
    CornerPixel();
  }

  // ---------------------------------------------------------------- bounds

  const BOUND: int := 0x8_0000
  const PRODUCT: int := 0x40_0000_0000

  predicate Small(z: int) { -BOUND < z < BOUND }

  lemma {:induction false} ProductBound(a: int, b: int)
    requires Small(a) && Small(b)
    ensures -PRODUCT < a * b < PRODUCT
  {
    var x, y := if a < 0 then -a else a, if b < 0 then -b else b;
    Monotone(x, BOUND, y);
    Monotone(y, BOUND, BOUND);
    assert x * y < PRODUCT by {
      if y == 0 { } else { Strict(x, BOUND, y); }
    }
    assert a * b == x * y || a * b == -(x * y) by {
      Signs(a, b);
    }
  }

  lemma {:induction false} Monotone(x: int, m: int, y: int)
    requires 0 <= x <= m && 0 <= y
    ensures 0 <= x * y <= m * y
  {
    assert (m - x) * y >= 0;
  }

  lemma {:induction false} Strict(x: int, m: int, y: int)
    requires 0 <= x < m && 0 < y
    ensures x * y < m * y
  {
    assert (m - x) * y > 0;
  }

  lemma {:induction false} Signs(a: int, b: int)
    ensures (-a) * b == -(a * b) && a * (-b) == -(a * b) && (-a) * (-b) == a * b
  {
  }

  /** Twice a product is at most the sum of the squares. */
  lemma {:induction false} TwiceProduct(a: int, b: int)
    ensures -(a * a + b * b) <= 2 * (a * b) <= a * a + b * b
    ensures a * a >= 0 && b * b >= 0
  {
    assert (a - b) * (a - b) >= 0 && (a + b) * (a + b) >= 0;
    assert (a - b) * (a - b) == a * a - 2 * (a * b) + b * b;
    assert (a + b) * (a + b) == a * a + 2 * (a * b) + b * b;
  }

  /** Inside the circle, the next z is small again. */
  lemma {:induction false} StaysSmall(zx: int, zy: int, cx: int, cy: int)
    requires !Escaped(zx, zy) && -1024 <= cx <= 1024 && -1024 <= cy <= 1024
    ensures Small(NextX(zx, zy, cx)) && Small(NextY(zx, zy, cy))
  {
    TwiceProduct(zx, zy);
    var xx, yy, xy := zx * zx, zy * zy, zx * zy;
    assert xx / 256 + yy / 256 < 262144;
  }

  /** The orbit of a pixel after n iterations, unless it has escaped before. */
  function OrbitX(cx: int, cy: int, n: nat): int
    decreases n, 0
  {
    if n == 0 then 0 else NextX(OrbitX(cx, cy, n - 1), OrbitY(cx, cy, n - 1), cx)
  }

  function OrbitY(cx: int, cy: int, n: nat): int
    decreases n, 1
  {
    if n == 0 then 0 else NextY(OrbitX(cx, cy, n - 1), OrbitY(cx, cy, n - 1), cy)
  }

  /** For every pixel, as long as the loop runs: the coordinates stay below 2^19
      and all their products below 2^38. */
  lemma {:induction false} OrbitBounded(x: nat, y: nat, n: nat)
    requires x < WIDTH && y < HEIGHT
    requires forall k :: 0 <= k < n ==> !Escaped(OrbitX(Cx(x), Cy(y), k), OrbitY(Cx(x), Cy(y), k))
    ensures
      var zx, zy := OrbitX(Cx(x), Cy(y), n), OrbitY(Cx(x), Cy(y), n);
      && Small(zx) && Small(zy)
      && -PRODUCT < zx * zx < PRODUCT && -PRODUCT < zy * zy < PRODUCT && -PRODUCT < zx * zy < PRODUCT
    decreases n
  {
    var zx, zy := OrbitX(Cx(x), Cy(y), n), OrbitY(Cx(x), Cy(y), n);
    if n > 0 {
      OrbitBounded(x, y, n - 1);
      StaysSmall(OrbitX(Cx(x), Cy(y), n - 1), OrbitY(Cx(x), Cy(y), n - 1), Cx(x), Cy(y));
    }
    hide OrbitX, OrbitY, NextX, NextY, Escaped;
    ProductBound(zx, zx);
    ProductBound(zy, zy);
    ProductBound(zx, zy);
  }

  // ---------------------------------------------------------------- one vCPU

  /** The inner loop of `_start`. */
  method Iterate(cx: Int64, cy: Int64) returns (it: nat)
    requires -1024 <= cx <= 1024 && -1024 <= cy <= 1024
    ensures it == EscapeTime(cx, cy, 0, 0, 0)
  {
    hide NextX, NextY, EscapeTime;
    it := 0;
    var zx: Int64, zy: Int64 := 0, 0;
    while it < MAX_ITER
      invariant 0 <= it <= MAX_ITER && Small(zx) && Small(zy)
      invariant EscapeTime(cx, cy, 0, 0, 0) == EscapeTime(cx, cy, zx, zy, it)
    {
      UnfoldEscape(cx, cy, zx, zy, it);
      ProductBound(zx, zx);
      ProductBound(zy, zy);
      ProductBound(zx, zy);
      var zx2: Int64 := zx * zx;
      var zy2: Int64 := zy * zy;
      if zx2 / 256 + zy2 / 256 >= LIMIT {
        return;
      }
      StaysSmall(zx, zy, cx, cy);
      NextIs(zx, zy, cx, cy);
      var zxy: Int64 := (zx * zy) / 256;
      zx := zx2 / 256 - zy2 / 256 + cx;
      zy := zxy + zxy + cy;
      it := it + 1;
    }
    UnfoldEscape(cx, cy, zx, zy, it);
  }

  lemma {:induction false} NextIs(zx: int, zy: int, cx: int, cy: int)
    ensures NextX(zx, zy, cx) == zx * zx / 256 - zy * zy / 256 + cx
    ensures NextY(zx, zy, cy) == zx * zy / 256 + zx * zy / 256 + cy
  {
  }

  lemma {:induction false} UnfoldEscape(cx: int, cy: int, zx: int, zy: int, it: nat)
    requires it <= MAX_ITER
    ensures EscapeTime(cx, cy, zx, zy, it) ==
            if it == MAX_ITER || Escaped(zx, zy) then it
            else EscapeTime(cx, cy, NextX(zx, zy, cx), NextY(zx, zy, cy), it + 1)
  {
  }

  /** Byte a of memory after rows [y0, y) and the first x pixels of row y. */
  function DrawnByte(mem: seq<Byte>, y0: nat, y: nat, x: nat, a: nat): Byte
    requires a < |mem|
  {
    if FB_BASE + 64 * y0 <= a < FB_BASE + 64 * y + x then Pixel((a - FB_BASE) % 64, (a - FB_BASE) / 64) else mem[a]
  }

  function Drawn(mem: seq<Byte>, y0: nat, y: nat, x: nat): (r: seq<Byte>)
    ensures |r| == |mem| && forall a :: 0 <= a < |mem| ==> r[a] == DrawnByte(mem, y0, y, x, a)
  {
    seq(|mem|, a requires 0 <= a < |mem| => DrawnByte(mem, y0, y, x, a))
  }

  /** `_start`: rows y0 up to y1 of the picture, and no other byte of memory. */
  method RenderBand(mem: array<Byte>, y0: nat, y1: nat)
    requires y0 <= y1 <= HEIGHT
    modifies mem
    ensures mem[..] == Drawn(old(mem[..]), y0, y1, 0)
  {
    hide Pixel;
    var y := y0;
    NothingDrawn(mem[..], y0);
    while y < y1
      invariant y0 <= y <= y1
      invariant mem[..] == Drawn(old(mem[..]), y0, y, 0)
    {
      var cy: Int64 := 300 - 16 * y - 2 * y - y;
      var x := 0;
      while x < WIDTH
        invariant 0 <= x <= WIDTH
        invariant mem[..] == Drawn(old(mem[..]), y0, y, x)
      {
        var cx: Int64 := -512 + 8 * x + 4 * x + 2 * x;
        var it := Iterate(cx, cy);
        PixelIs(x, y, it);
        NextDrawn(old(mem[..]), y0, y, x);
        var ch := Pick(it);
        // a store outside guest RAM is dropped
        if FB_BASE + y * WIDTH + x < mem.Length {
          mem[FB_BASE + y * WIDTH + x] := ch;
        }
        x := x + 1;
      }
      RowDrawn(old(mem[..]), y0, y);
      y := y + 1;
    }
  }

  lemma {:induction false} PixelIs(x: nat, y: nat, it: nat)
    requires it == EscapeTime(Cx(x), Cy(y), 0, 0, 0)
    ensures Pixel(x, y) == Pick(it)
  {
  }

  lemma {:induction false} NothingDrawn(mem: seq<Byte>, y0: nat)
    ensures Drawn(mem, y0, y0, 0) == mem
  {
  }

  lemma {:induction false} NextDrawn(mem: seq<Byte>, y0: nat, y: nat, x: nat)
    requires y0 <= y && x < 64
    ensures
      var p := FB_BASE + 64 * y + x;
      Drawn(mem, y0, y, x + 1) == if p < |mem| then Drawn(mem, y0, y, x)[p := Pixel(x, y)] else Drawn(mem, y0, y, x)
  {
    hide Pixel;
    assert (64 * y + x) % 64 == x && (64 * y + x) / 64 == y;
  }

  lemma {:induction false} RowDrawn(mem: seq<Byte>, y0: nat, y: nat)
    ensures Drawn(mem, y0, y, 64) == Drawn(mem, y0, y + 1, 0)
  {
    hide Pixel;
  }

  // ---------------------------------------------------------------- the host

  /** What is shown for a byte of the framebuffer. */
  function Shown(mem: seq<Byte>, addr: nat): Byte {
    if addr < |mem| && mem[addr] != 0 then mem[addr] else ' ' as int
  }

  /** The picture, for guest RAM of the given size. */
  function Row(size: nat, y: nat): (row: seq<Byte>)
    ensures |row| == WIDTH
  {
    seq(WIDTH, x requires 0 <= x < WIDTH =>
      if FB_BASE + 64 * y + x < size then Pixel(x, y) else ' ' as int)
  }

  function Picture(size: nat, rows: nat): (picture: seq<seq<Byte>>)
    ensures |picture| == rows && forall y :: 0 <= y < rows ==> picture[y] == Row(size, y)
  {
    seq(rows, y requires 0 <= y < rows => Row(size, y))
  }

  /** Bands are rows apart: row y is in band y / rows. */
  lemma {:induction false} BandOf(y: nat, rows: nat, n: nat)
    requires rows > 0 && y < n * rows
    ensures y / rows < n && (y / rows) * rows <= y < (y / rows + 1) * rows
  {
    var q := y / rows;
    assert y == rows * q + y % rows;
    assert (q - n) * rows < rows;
    if q >= n {
      Monotone(n, q, rows);
    }
  }

  lemma {:induction false} BandInside(i: nat, n: nat, rows: nat)
    requires i < n && n * rows == HEIGHT
    ensures i * rows <= (i + 1) * rows <= HEIGHT
  {
    assert (n - (i + 1)) * rows >= 0;
  }

  /** Each vCPU renders its band in its own copy of RAM. */
  method RenderBands(ram: seq<Byte>, n: nat, rows: nat) returns (mems: seq<array<Byte>>)
    requires n * rows == HEIGHT
    ensures |mems| == n
    ensures forall i :: 0 <= i < n ==> mems[i][..] == Drawn(ram, i * rows, (i + 1) * rows, 0)
    ensures fresh(mems)
  {
    hide Drawn;
    mems := [];
    while |mems| < n
      invariant |mems| <= n && fresh(mems)
      invariant forall i :: 0 <= i < |mems| ==> mems[i][..] == Drawn(ram, i * rows, (i + 1) * rows, 0)
    {
      var i := |mems|;
      var mem := new Byte[|ram|](a requires 0 <= a < |ram| => ram[a]);
      assert mem[..] == ram;
      BandInside(i, n, rows);
      RenderBand(mem, i * rows, (i + 1) * rows);
      mems := mems + [mem];
    }
  }

  /** In a band that contains row y, what is shown at (x, y) is the pixel. */
  lemma {:induction false} BandPixel(ram: seq<Byte>, y0: nat, y1: nat, x: nat, y: nat)
    requires x < WIDTH && y0 <= y < y1
    ensures Shown(Drawn(ram, y0, y1, 0), FB_BASE + 64 * y + x) == Row(|ram|, y)[x]
  {
    PixelVisible(x, y);
    hide Pixel;
    assert (64 * y + x) % 64 == x && (64 * y + x) / 64 == y;
  }

  lemma {:induction false} PixelVisible(x: nat, y: nat)
    ensures Pixel(x, y) != 0
  {
  }

  /** One printed row, from the vCPU whose band it is in. */
  method ShowRow(mem: array<Byte>, y: nat, ghost ram: seq<Byte>, ghost y0: nat, ghost y1: nat) returns (row: seq<Byte>)
    requires mem[..] == Drawn(ram, y0, y1, 0) && y0 <= y < y1
    ensures row == Row(|ram|, y)
  {
    hide Pixel, Drawn, Row;
    row := [];
    while |row| < WIDTH
      invariant |row| <= WIDTH && row == Row(|ram|, y)[..|row|]
    {
      BandPixel(ram, y0, y1, |row|, y);
      row := row + [Shown(mem[..], FB_BASE + y * WIDTH + |row|)];
    }
    assert row == Row(|ram|, y);
  }

  /** `print_mandel_framebuffer`: row y comes from vCPU y / rows.  The picture does
      not depend on the number of vCPUs, as long as it divides the height: it is
      the one a single vCPU draws. */
  method Render(ram: seq<Byte>, n: nat) returns (picture: seq<seq<Byte>>)
    requires n > 0 && HEIGHT % n == 0
    ensures picture == Picture(|ram|, HEIGHT) && IsPicture(|ram|, picture)
    ensures |ram| >= 0x20_0800 ==> picture[16][36] == '*' as int && picture[0][0] == ':' as int
  {
    hide Drawn, Picture, Row, IsPicture;
    var rows := HEIGHT / n;
    assert n * rows == HEIGHT;
    var mems := RenderBands(ram, n, rows);
    picture := [];
    NoRows(|ram|);
    while |picture| < HEIGHT
      invariant |picture| <= HEIGHT && picture == Picture(|ram|, |picture|)
      invariant forall i :: 0 <= i < n ==> mems[i][..] == Drawn(ram, i * rows, (i + 1) * rows, 0)
    {
      var y := |picture|;
      BandOf(y, rows, n);
      var i := y / rows;
      var row := ShowRow(mems[i], y, ram, i * rows, (i + 1) * rows);
      NextRow(|ram|, y);
      picture := picture + [row];
    }
    PictureIs(|ram|);
  }

  lemma {:induction false} NoRows(size: nat)
    ensures Picture(size, 0) == []
  {
  }

  lemma {:induction false} NextRow(size: nat, y: nat)
    ensures Picture(size, y + 1) == Picture(size, y) + [Row(size, y)]
  {
    hide Pixel;
  }
}
