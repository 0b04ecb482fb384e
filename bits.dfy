/**
 * Packing on/off pixels into bytes, eight to a byte, as every monochrome exporter does:
 * MSB first (`byte |= 1 << (7 - bit)`) or LSB first (`byte |= 1 << bit`), a missing pixel
 * leaving its bit clear, and the reading rules the emitted display loops use.
 */
module Bits {
  import opened JsText
  import opened Grid

  function Bit(b: bool): nat { if b then 1 else 0 }

  /** Pixel `i` is on; past either end of `bits` it is a clear padding bit. */
  predicate At(bits: seq<bool>, i: int) { 0 <= i < |bits| && bits[i] }

  /** The byte the first `n` MSB-first iterations build, read as an `n`-bit number. */
  function MsbValue(bits: seq<bool>, start: int, n: nat): (v: nat)
    ensures v < Pow2(n)
  {
    if n == 0 then 0 else 2 * MsbValue(bits, start, n - 1) + Bit(At(bits, start + n - 1))
  }

  /** The byte the first `n` LSB-first iterations build. */
  function LsbValue(bits: seq<bool>, start: int, n: nat): (v: nat)
    ensures v < Pow2(n)
  {
    if n == 0 then 0 else LsbValue(bits, start, n - 1) + Bit(At(bits, start + n - 1)) * Pow2(n - 1)
  }

  /** One MSB-first byte per started group of eight pixels. */
  function PackMsb(bits: seq<bool>): (r: seq<nat>)
    ensures |r| == (|bits| + 7) / 8
  {
    seq((|bits| + 7) / 8, k => MsbValue(bits, 8 * k, 8))
  }

  /** One LSB-first byte per started group of eight pixels. */
  function PackLsb(bits: seq<bool>): (r: seq<nat>)
    ensures |r| == (|bits| + 7) / 8
  {
    seq((|bits| + 7) / 8, k => LsbValue(bits, 8 * k, 8))
  }

  /** `(bytes[i / 8] >> (7 - i % 8)) & 1`: the MSB-first reading rule. */
  function ReadMsb(bytes: seq<nat>, i: nat): nat
    requires i / 8 < |bytes|
  {
    (bytes[i / 8] / Pow2(7 - i % 8)) % 2
  }

  /** `(bytes[i / 8] >> (i % 8)) & 1`: the LSB-first reading rule. */
  function ReadLsb(bytes: seq<nat>, i: nat): nat
    requires i / 8 < |bytes|
  {
    (bytes[i / 8] / Pow2(i % 8)) % 2
  }

  // ---------------------------------------------------------------- arithmetic

  lemma {:induction false} Pow2Add(a: nat, b: nat)
    ensures Pow2(a + b) == Pow2(a) * Pow2(b)
    decreases a
  {
    if a > 0 {
      Pow2Add(a - 1, b);
    }
  }

  lemma Pow2Small()
    ensures Pow2(0) == 1 && Pow2(1) == 2 && Pow2(2) == 4 && Pow2(3) == 8 && Pow2(4) == 16
    ensures Pow2(5) == 32 && Pow2(6) == 64 && Pow2(7) == 128 && Pow2(8) == 256 && Pow2(11) == 2048
  {
    assert Pow2(4) == 16;
    assert Pow2(8) == 256;
  }

  lemma DivTwice(x: nat, d: nat, y: nat)
    requires d < 2 && y > 0
    ensures (2 * x + d) / (2 * y) == x / y
  {
    var q, r := x / y, x % y;
    assert 2 * x + d == q * (2 * y) + (2 * r + d);
    DivModUnique(2 * x + d, 2 * y, q, 2 * r + d);
  }

  lemma DivAddMultiple(v: nat, m: nat, p: nat)
    requires p > 0
    ensures (v + m * p) / p == v / p + m
  {
    DivModUnique(v + m * p, p, v / p + m, v % p);
  }

  lemma ModEvenAdd(q: nat, t: nat)
    ensures (q + 2 * t) % 2 == q % 2
  {
    DivModUnique(q + 2 * t, 2, q / 2 + t, q % 2);
  }

  // ---------------------------------------------------------------- reading back

  /** Bit `b` of an MSB-first value, counted from the left, is pixel `start + b`. */
  lemma {:induction false} MsbBit(bits: seq<bool>, start: int, n: nat, b: nat)
    requires b < n
    ensures (MsbValue(bits, start, n) / Pow2(n - 1 - b)) % 2 == Bit(At(bits, start + b))
  {
    var v, d := MsbValue(bits, start, n - 1), Bit(At(bits, start + n - 1));
    if b < n - 1 {
      MsbBit(bits, start, n - 1, b);
      DivTwice(v, d, Pow2(n - 2 - b));
      assert Pow2(n - 1 - b) == 2 * Pow2(n - 2 - b);
    }
  }

  lemma EvenMultipleInvisible(v: nat, t: nat, p: nat)
    requires p > 0
    ensures ((v + (2 * t) * p) / p) % 2 == (v / p) % 2
  {
    DivAddMultiple(v, 2 * t, p);
    ModEvenAdd(v / p, t);
  }

  lemma Pow2Shifted(d: nat, b: nat, m: nat)
    requires m >= 1
    ensures d * Pow2(b + m) == (2 * (d * Pow2(m - 1))) * Pow2(b)
  {
    Pow2Add(b, m);
    var p, q := Pow2(b), Pow2(m);
    assert q == 2 * Pow2(m - 1);
    calc {
      d * Pow2(b + m);
      d * (p * q);
      { MulAssoc(d, p, q); }
      (d * q) * p;
    }
  }

  lemma MulAssoc(a: nat, b: nat, c: nat)
    ensures a * (b * c) == (a * c) * b
  {
  }

  /** Bits above position `b + m`, m >= 1, do not disturb bit `b`. */
  lemma HighBitsInvisible(v: nat, d: nat, b: nat, m: nat)
    requires m >= 1
    ensures ((v + d * Pow2(b + m)) / Pow2(b)) % 2 == (v / Pow2(b)) % 2
  {
    Pow2Shifted(d, b, m);
    EvenMultipleInvisible(v, d * Pow2(m - 1), Pow2(b));
  }

  /** Bit `b` of an LSB-first value, counted from the right, is pixel `start + b`. */
  lemma {:induction false} LsbBit(bits: seq<bool>, start: int, n: nat, b: nat)
    requires b < n
    ensures (LsbValue(bits, start, n) / Pow2(b)) % 2 == Bit(At(bits, start + b))
  {
    var v, d := LsbValue(bits, start, n - 1), Bit(At(bits, start + n - 1));
    assert LsbValue(bits, start, n) == v + d * Pow2(n - 1);
    if b == n - 1 {
      DivModUnique(v + d * Pow2(n - 1), Pow2(n - 1), d, v);
    } else {
      LsbBit(bits, start, n - 1, b);
      HighBitsInvisible(v, d, b, n - 1 - b);
    }
  }

  /** The MSB-first reading rule recovers every pixel, and reads the padding as off. */
  lemma ReadMsbPacked(bits: seq<bool>, i: nat)
    requires i < 8 * |PackMsb(bits)|
    ensures ReadMsb(PackMsb(bits), i) == Bit(At(bits, i))
  {
    var k, b := i / 8, i % 8;
    MsbBit(bits, 8 * k, 8, b);
  }

  /** The LSB-first reading rule recovers every pixel of an LSB-first packing. */
  lemma ReadLsbPacked(bits: seq<bool>, i: nat)
    requires i < 8 * |PackLsb(bits)|
    ensures ReadLsb(PackLsb(bits), i) == Bit(At(bits, i))
  {
    var k, b := i / 8, i % 8;
    LsbBit(bits, 8 * k, 8, b);
  }

  /** Every packed value is a byte. */
  lemma PackedAreBytes(bits: seq<bool>)
    ensures forall k | 0 <= k < |PackMsb(bits)| :: PackMsb(bits)[k] < 256
    ensures forall k | 0 <= k < |PackLsb(bits)| :: PackLsb(bits)[k] < 256
  {
    Pow2Small();
  }

  // ---------------------------------------------------------------- the loop steps

  /** `1 << k` for a small `k` */
  lemma ShiftOne(k: nat)
    requires k < 8
    ensures ShiftLeft(1, k) == Pow2(k)
  {
    Pow2Small();
    Pow2Mono(k, 8);
  }

  /** `a | b` on two values below 2^31 is the bitwise or of naturals. */
  lemma BitOrSmall(a: nat, b: nat)
    requires a < 256 && b < 256
    ensures BitOr(a, b) == OrNat(a, b)
  {
    Pow2Small();
    OrNatBound(a, b, 8);
    DivModUnique(a, TwoTo32, 0, a);
    DivModUnique(b, TwoTo32, 0, b);
  }

  lemma {:induction false} OrNatBound(a: nat, b: nat, k: nat)
    requires a < Pow2(k) && b < Pow2(k)
    ensures OrNat(a, b) < Pow2(k)
    decreases a + b
  {
    if a != 0 && b != 0 {
      OrNatBound(a / 2, b / 2, k - 1);
    }
  }

  /** A number below 2^n, shifted into the top `n` bits of a byte. */
  lemma TopBitsBound(m: nat, n: nat)
    requires n <= 8 && m < Pow2(n)
    ensures m * Pow2(8 - n) < 256
  {
    var p := Pow2(8 - n);
    Pow2Add(n, 8 - n);
    Pow2Small();
    MulMono(m + 1, Pow2(n), p);
    assert m * p < (m + 1) * p;
  }

  /** `(2m) << k` and `m << (k + 1)` agree. */
  lemma ShiftDouble(m: nat, k: nat)
    ensures m * Pow2(k + 1) == (2 * m) * Pow2(k)
  {
    assert Pow2(k + 1) == 2 * Pow2(k);
  }

  /** Setting the clear bit below the top `n` bits adds it. */
  lemma SetNextBit(m: nat, n: nat)
    requires n < 8 && m < Pow2(n)
    ensures m * Pow2(8 - n) < 256
    ensures BitOr(m * Pow2(8 - n), ShiftLeft(1, 7 - n)) == (2 * m + 1) * Pow2(7 - n)
  {
    var h, p := Pow2(7 - n), Pow2(8 - n);
    assert p == 2 * h;
    TopBitsBound(m, n);
    ShiftOne(7 - n);
    assert h < 256 by {
      Pow2Mono(7 - n, 7);
      Pow2Small();
    }
    BitOrSmall(m * p, h);
    OrNatDisjoint(m, h, 8 - n);
    DoubleAdd(m, h);
  }

  lemma DoubleAdd(m: nat, h: nat)
    ensures m * (2 * h) + h == (2 * m + 1) * h
  {
  }

  /** The byte after `n` MSB-first iterations: the first `n` pixels in its top `n` bits. */
  function Shifted(bits: seq<bool>, start: int, n: nat): (byte: nat)
    requires n <= 8
    ensures byte < 256
  {
    TopBitsBound(MsbValue(bits, start, n), n);
    MsbValue(bits, start, n) * Pow2(8 - n)
  }

  /**
   * One iteration of `if (on) byte |= (1 << (7 - bit))`: a byte holding the first `n`
   * pixels in its top `n` bits gains pixel `n` in the next bit down.
   */
  lemma MsbStep(bits: seq<bool>, start: int, n: nat)
    requires n < 8
    ensures (if At(bits, start + n) then BitOr(Shifted(bits, start, n), ShiftLeft(1, 7 - n)) else Shifted(bits, start, n))
              == Shifted(bits, start, n + 1)
  {
    var m := MsbValue(bits, start, n);
    ShiftDouble(m, 7 - n);
    if At(bits, start + n) {
      SetNextBit(m, n);
    }
  }

  /** Iterations stopped early at the end of a row leave the same byte as all eight. */
  lemma {:induction false} MsbTail(bits: seq<bool>, start: int, n: nat)
    requires n <= 8 && start + n >= |bits|
    ensures Shifted(bits, start, n) == MsbValue(bits, start, 8)
    decreases 8 - n
  {
    if n < 8 {
      MsbStep(bits, start, n);
      MsbTail(bits, start, n + 1);
    } else {
      assert Pow2(0) == 1;
    }
  }

  /** One iteration of `if (on) byte |= (1 << bit)`. */
  lemma LsbStep(bits: seq<bool>, start: int, n: nat)
    requires n < 8
    ensures (if At(bits, start + n) then BitOr(LsbValue(bits, start, n), ShiftLeft(1, n)) else LsbValue(bits, start, n))
         == LsbValue(bits, start, n + 1)
  {
    if At(bits, start + n) {
      var v := LsbValue(bits, start, n);
      Pow2Small();
      Pow2Mono(n, 8);
      ShiftOne(n);
      BitOrSmall(v, Pow2(n));
      OrNatSymmetric(v, Pow2(n));
      OrNatDisjoint(1, v, n);
    }
  }

  /** Iterations stopped early leave the same LSB-first byte as all eight. */
  lemma {:induction false} LsbTail(bits: seq<bool>, start: int, n: nat)
    requires n <= 8 && start + n >= |bits|
    ensures LsbValue(bits, start, n) == LsbValue(bits, start, 8)
    decreases 8 - n
  {
    if n < 8 {
      LsbTail(bits, start, n + 1);
    }
  }

  // ---------------------------------------------------------------- row-aligned packing

  /** Rows packed one after another, each starting on a fresh byte. */
  function PackRowsMsb(rows: seq<seq<bool>>): seq<nat>
    decreases |rows|
  {
    if rows == [] then [] else PackRowsMsb(rows[..|rows| - 1]) + PackMsb(rows[|rows| - 1])
  }

  function PackRowsLsb(rows: seq<seq<bool>>): seq<nat>
    decreases |rows|
  {
    if rows == [] then [] else PackRowsLsb(rows[..|rows| - 1]) + PackLsb(rows[|rows| - 1])
  }

  /** Rows of `w` pixels take `ceil(w / 8)` bytes each. */
  lemma {:induction false} PackRowsLength(rows: seq<seq<bool>>, w: nat)
    requires forall y | 0 <= y < |rows| :: |rows[y]| == w
    ensures |PackRowsMsb(rows)| == |rows| * ((w + 7) / 8)
    ensures |PackRowsLsb(rows)| == |rows| * ((w + 7) / 8)
    decreases |rows|
  {
    if rows != [] {
      var n := |rows| - 1;
      PackRowsLength(rows[..n], w);
      assert |rows| * ((w + 7) / 8) == n * ((w + 7) / 8) + (w + 7) / 8;
    }
  }

  lemma RowOffsetBound(y: nat, n: nat, k: nat, bpr: nat)
    requires y < n && k < bpr
    ensures y * bpr + k < n * bpr
  {
    MulMono(y + 1, n, bpr);
  }

  /** Byte `k` of row `y` sits at `y * ceil(w / 8) + k`. */
  lemma {:induction false} PackRowsMsbAt(rows: seq<seq<bool>>, w: nat, y: nat, k: nat)
    requires forall r | 0 <= r < |rows| :: |rows[r]| == w
    requires y < |rows| && k < (w + 7) / 8
    ensures y * ((w + 7) / 8) + k < |PackRowsMsb(rows)|
    ensures PackRowsMsb(rows)[y * ((w + 7) / 8) + k] == PackMsb(rows[y])[k]
    decreases |rows|
  {
    var n, bpr := |rows| - 1, (w + 7) / 8;
    PackRowsLength(rows, w);
    PackRowsLength(rows[..n], w);
    RowOffsetBound(y, |rows|, k, bpr);
    if y < n {
      PackRowsMsbAt(rows[..n], w, y, k);
      RowOffsetBound(y, n, k, bpr);
    }
  }

  lemma {:induction false} PackRowsLsbAt(rows: seq<seq<bool>>, w: nat, y: nat, k: nat)
    requires forall r | 0 <= r < |rows| :: |rows[r]| == w
    requires y < |rows| && k < (w + 7) / 8
    ensures y * ((w + 7) / 8) + k < |PackRowsLsb(rows)|
    ensures PackRowsLsb(rows)[y * ((w + 7) / 8) + k] == PackLsb(rows[y])[k]
    decreases |rows|
  {
    var n, bpr := |rows| - 1, (w + 7) / 8;
    PackRowsLength(rows, w);
    PackRowsLength(rows[..n], w);
    RowOffsetBound(y, |rows|, k, bpr);
    if y < n {
      PackRowsLsbAt(rows[..n], w, y, k);
      RowOffsetBound(y, n, k, bpr);
    }
  }

  /**
   * The row-aligned MSB-first reading rule: pixel (x, y) is bit `7 - x % 8` of byte
   * `y * ceil(w / 8) + x / 8`, and it reads back what was packed.
   */
  lemma ReadRowsMsb(rows: seq<seq<bool>>, w: nat, x: nat, y: nat)
    requires forall r | 0 <= r < |rows| :: |rows[r]| == w
    requires x < w && y < |rows|
    ensures y * ((w + 7) / 8) + x / 8 < |PackRowsMsb(rows)|
    ensures (PackRowsMsb(rows)[y * ((w + 7) / 8) + x / 8] / Pow2(7 - x % 8)) % 2 == Bit(rows[y][x])
  {
    assert x / 8 < (w + 7) / 8;
    PackRowsMsbAt(rows, w, y, x / 8);
    ReadMsbPacked(rows[y], x);
  }

  /** The row-aligned LSB-first reading rule: pixel (x, y) is bit `x % 8` of byte `y * ceil(w / 8) + x / 8`. */
  lemma ReadRowsLsb(rows: seq<seq<bool>>, w: nat, x: nat, y: nat)
    requires forall r | 0 <= r < |rows| :: |rows[r]| == w
    requires x < w && y < |rows|
    ensures y * ((w + 7) / 8) + x / 8 < |PackRowsLsb(rows)|
    ensures (PackRowsLsb(rows)[y * ((w + 7) / 8) + x / 8] / Pow2(x % 8)) % 2 == Bit(rows[y][x])
  {
    assert x / 8 < (w + 7) / 8;
    PackRowsLsbAt(rows, w, y, x / 8);
    ReadLsbPacked(rows[y], x);
  }

  // ---------------------------------------------------------------- the packing loops

  /** `for (bit = 0; bit < 8; bit++) if (start + bit < n && on) byte |= 1 << (7 - bit)` */
  method MsbByte(bits: seq<bool>, start: nat) returns (byte: nat)
    ensures byte == MsbValue(bits, start, 8) && byte < 256
  {
    byte := 0;
    var bit := 0;
    while bit < 8
      invariant 0 <= bit <= 8
      invariant byte == Shifted(bits, start, bit)
    {
      MsbStep(bits, start, bit);
      if start + bit < |bits| && bits[start + bit] {
        byte := BitOr(byte, ShiftLeft(1, 7 - bit));
      }
      bit := bit + 1;
    }
    assert Pow2(0) == 1;
  }

  /** `for (i = 0; i < n; i += 8)` around `MsbByte`: the whole sequence, MSB first. */
  method PackMsbLoop(bits: seq<bool>) returns (bytes: seq<nat>)
    ensures bytes == PackMsb(bits)
  {
    bytes := [];
    var i := 0;
    while i < |bits|
      invariant i == 8 * |bytes| && |bytes| <= (|bits| + 7) / 8
      invariant bytes == PackMsb(bits)[..|bytes|]
    {
      var byte := MsbByte(bits, i);
      bytes := bytes + [byte];
      i := i + 8;
    }
  }

  /** `for (bit = 0; bit < 8; bit++) if (start + bit < n && on) byte |= 1 << bit` */
  method LsbByte(bits: seq<bool>, start: nat) returns (byte: nat)
    ensures byte == LsbValue(bits, start, 8) && byte < 256
  {
    byte := 0;
    var bit := 0;
    while bit < 8
      invariant 0 <= bit <= 8
      invariant byte == LsbValue(bits, start, bit)
    {
      LsbStep(bits, start, bit);
      if start + bit < |bits| && bits[start + bit] {
        byte := BitOr(byte, ShiftLeft(1, bit));
      }
      bit := bit + 1;
    }
    assert Pow2(8) == 256;
  }

  /** The whole sequence, LSB first. */
  method PackLsbLoop(bits: seq<bool>) returns (bytes: seq<nat>)
    ensures bytes == PackLsb(bits)
  {
    bytes := [];
    var i := 0;
    while i < |bits|
      invariant i == 8 * |bytes| && |bytes| <= (|bits| + 7) / 8
      invariant bytes == PackLsb(bits)[..|bytes|]
    {
      var byte := LsbByte(bits, i);
      bytes := bytes + [byte];
      i := i + 8;
    }
  }

  /** `for (bit = 0; bit < 8 && x + bit < width; bit++) if (on) byte |= 1 << (7 - bit)` */
  method RowMsbByte(row: seq<bool>, x: nat) returns (byte: nat)
    ensures byte == MsbValue(row, x, 8) && byte < 256
  {
    byte := 0;
    var bit := 0;
    while bit < 8 && x + bit < |row|
      invariant 0 <= bit <= 8
      invariant byte == Shifted(row, x, bit)
    {
      MsbStep(row, x, bit);
      if row[x + bit] {
        byte := BitOr(byte, ShiftLeft(1, 7 - bit));
      }
      bit := bit + 1;
    }
    if bit < 8 {
      MsbTail(row, x, bit);
    } else {
      assert Pow2(0) == 1;
    }
  }

  /** `for (bit = 0; bit < 8 && x + bit < width; bit++) if (on) byte |= 1 << bit` */
  method RowLsbByte(row: seq<bool>, x: nat) returns (byte: nat)
    ensures byte == LsbValue(row, x, 8) && byte < 256
  {
    byte := 0;
    var bit := 0;
    while bit < 8 && x + bit < |row|
      invariant 0 <= bit <= 8
      invariant byte == LsbValue(row, x, bit)
    {
      LsbStep(row, x, bit);
      if row[x + bit] {
        byte := BitOr(byte, ShiftLeft(1, bit));
      }
      bit := bit + 1;
    }
    if bit < 8 {
      LsbTail(row, x, bit);
    }
    assert Pow2(8) == 256;
  }
}
