/**
 * Fixed-width machine integers as the C++ execution core sees them.
 *
 * A bit pattern is kept as its unsigned value (an unbounded `int` in a
 * subset type), and every C++ conversion, wrap-around, truncating division
 * and bitwise operator used by the core is written out explicitly here.
 */
module Bits {

  type u8 = x: int | 0 <= x < 0x100
  type u16 = x: int | 0 <= x < 0x1_0000
  type u32 = x: int | 0 <= x < 0x1_0000_0000
  type u64 = x: int | 0 <= x < 0x1_0000_0000_0000_0000
  type i8 = x: int | -0x80 <= x < 0x80
  type i16 = x: int | -0x8000 <= x < 0x8000
  type i32 = x: int | -0x8000_0000 <= x < 0x8000_0000
  type i64 = x: int | -0x8000_0000_0000_0000 <= x < 0x8000_0000_0000_0000

  const INT32_MIN: i32 := -0x8000_0000
  const INT64_MIN: i64 := -0x8000_0000_0000_0000
  const UINT32_MAX: u32 := 0xFFFF_FFFF
  const UINT64_MAX: u64 := 0xFFFF_FFFF_FFFF_FFFF

  /** The four integer widths of the C++ fixed-width types. */
  datatype Width = W8 | W16 | W32 | W64 {
    function Bits(): nat {
      match this
      case W8 => 8
      case W16 => 16
      case W32 => 32
      case W64 => 64
    }

    function Bytes(): nat {
      match this
      case W8 => 1
      case W16 => 2
      case W32 => 4
      case W64 => 8
    }

    /** 2^Bits(), written as a literal. */
    function Modulus(): nat {
      match this
      case W8 => 0x100
      case W16 => 0x1_0000
      case W32 => 0x1_0000_0000
      case W64 => 0x1_0000_0000_0000_0000
    }

    /** 2^(Bits() - 1): the first value whose top bit is set. */
    function Half(): nat {
      match this
      case W8 => 0x80
      case W16 => 0x8000
      case W32 => 0x8000_0000
      case W64 => 0x8000_0000_0000_0000
    }
  }

  function Pow2(n: nat): (r: nat)
    ensures r >= 1
  {
    if n == 0 then 1 else 2 * Pow2(n - 1)
  }

  lemma {:induction false} Pow2Add(a: nat, b: nat)
    ensures Pow2(a + b) == Pow2(a) * Pow2(b)
  {
    if a > 0 {
      Pow2Add(a - 1, b);
      assert Pow2(a + b) == 2 * Pow2(a - 1 + b);
    }
  }

  lemma {:induction false} Pow2Monotone(a: nat, b: nat)
    requires a <= b
    ensures Pow2(a) <= Pow2(b)
  {
    if a < b {
      Pow2Monotone(a, b - 1);
    }
  }

  /** The powers of two that the widths and the shift masks use. */
  lemma Pow2Table()
    ensures Pow2(5) == 32 && Pow2(6) == 64 && Pow2(8) == 0x100
    ensures Pow2(7) == 0x80 && Pow2(15) == 0x8000 && Pow2(16) == 0x1_0000
    ensures Pow2(31) == 0x8000_0000 && Pow2(32) == 0x1_0000_0000
    ensures Pow2(63) == 0x8000_0000_0000_0000 && Pow2(64) == 0x1_0000_0000_0000_0000
    ensures Pow2(24) == 0x100_0000
  {
    assert Pow2(1) == 2;
    assert Pow2(2) == 4;
    assert Pow2(3) == 8;
    assert Pow2(4) == 16;
    assert Pow2(5) == 32;
    assert Pow2(6) == 64;
    assert Pow2(7) == 128;
    assert Pow2(8) == 256;
    Pow2Add(8, 7);
    Pow2Add(8, 8);
    Pow2Add(16, 8);
    Pow2Add(16, 15);
    Pow2Add(16, 16);
    Pow2Add(32, 31);
    Pow2Add(32, 32);
  }

  lemma ModulusIsPow2(w: Width)
    ensures w.Modulus() == Pow2(w.Bits()) == Pow2(8 * w.Bytes())
    ensures w.Half() == Pow2(w.Bits() - 1)
    ensures w.Modulus() == 2 * w.Half()
  {
    Pow2Table();
  }

  /** C++ conversion of an integer to uintN_t: the value modulo 2^N. */
  function Unsigned(x: int, w: Width): (r: nat)
    ensures r < w.Modulus()
    ensures (x - r) % w.Modulus() == 0
  {
    RemainderDifference(x, w.Modulus());
    x % w.Modulus()
  }

  lemma RemainderDifference(x: int, m: int)
    requires m > 0
    ensures (x - x % m) % m == 0
  {
    assert x - x % m == 0 + m * (x / m);
    ModAddMultiple(0, x / m, m);
  }

  /**
   * C++ conversion of an integer to intN_t (modular, as C++20 defines it):
   * the two's-complement reading of the low N bits.
   */
  function Signed(x: int, w: Width): (r: int)
    ensures -(w.Half() as int) <= r < w.Half()
    ensures Unsigned(r, w) == Unsigned(x, w)
  {
    var u := Unsigned(x, w);
    if u >= w.Half() then u - w.Modulus() else u
  }

  lemma UnsignedOfInRange(x: int, w: Width)
    requires 0 <= x < w.Modulus()
    ensures Unsigned(x, w) == x
  {
  }

  lemma SignedOfInRange(x: int, w: Width)
    requires -(w.Half() as int) <= x < w.Half()
    ensures Signed(x, w) == x
  {
  }

  /** The signed reading depends only on the value modulo 2^N. */
  lemma SignedCongruent(x: int, y: int, w: Width)
    requires Unsigned(x, w) == Unsigned(y, w)
    ensures Signed(x, w) == Signed(y, w)
  {
  }

  /** A value in the signed range survives the trip to its N-bit pattern and back. */
  lemma SignedOfPattern(v: int, w: Width)
    requires -(w.Half() as int) <= v < w.Half()
    ensures Signed(Unsigned(v, w), w) == v
  {
    UnsignedOfInRange(Unsigned(v, w), w);
    SignedCongruent(Unsigned(v, w), v, w);
    SignedOfInRange(v, w);
  }

  /** Addition respects congruence modulo 2^N. */
  lemma SumCongruent(a: int, b: int, c: int, d: int, w: Width)
    requires Unsigned(a, w) == Unsigned(c, w) && Unsigned(b, w) == Unsigned(d, w)
    ensures Unsigned(a + b, w) == Unsigned(c + d, w)
  {
    var m := w.Modulus();
    ModSum(a, b, m);
    ModSum(c, b, m);
    ModSum(b, c, m);
    ModSum(d, c, m);
  }

  /** Negation respects congruence modulo 2^N. */
  lemma NegCongruent(b: int, d: int, w: Width)
    requires Unsigned(b, w) == Unsigned(d, w)
    ensures Unsigned(-b, w) == Unsigned(-d, w)
  {
    var m := w.Modulus();
    NegatedResidue(b, m);
    NegatedResidue(d, m);
  }

  lemma NegatedResidue(b: int, m: int)
    requires m > 0
    ensures (-b) % m == (-(b % m)) % m
  {
    assert -b == -(b % m) + m * (-(b / m));
    ModAddMultiple(-(b % m), -(b / m), m);
  }

  /** Multiplication respects congruence modulo 2^N. */
  lemma ProductCongruent(a: int, b: int, c: int, d: int, w: Width)
    requires Unsigned(a, w) == Unsigned(c, w) && Unsigned(b, w) == Unsigned(d, w)
    ensures Unsigned(a * b, w) == Unsigned(c * d, w)
  {
    ModProduct(a, b, w.Modulus());
    ModProduct(c, d, w.Modulus());
  }

  /** Reducing modulo 2^N first does not change the value modulo 2^N. */
  lemma UnsignedCongruent(x: int, y: int, w: Width)
    requires (x - y) % w.Modulus() == 0
    ensures Unsigned(x, w) == Unsigned(y, w)
  {
    var m := w.Modulus();
    var k := (x - y) / m;
    assert x == y + m * k;
    ModAddMultiple(y, k, m);
  }

  lemma ModAddMultiple(y: int, k: int, m: int)
    requires m > 0
    ensures (y + m * k) % m == y % m
  {
    var q := y / m;
    var r := y % m;
    assert y + m * k == m * (q + k) + r;
    DivModUnique(y + m * k, m, q + k, r);
  }

  /** Euclidean division has exactly one quotient/remainder pair. */
  lemma DivModUnique(x: int, d: int, q: int, r: int)
    requires d > 0 && 0 <= r < d && x == d * q + r
    ensures x / d == q && x % d == r
  {
    var k := q - x / d;
    assert d * k == x % d - r;
    if k >= 1 {
      MulMonotone(d, 1, k);
      assert false;
    }
    if k <= -1 {
      MulMonotone(d, k, -1);
      assert false;
    }
  }

  lemma MulMonotone(d: int, a: int, b: int)
    requires d >= 0 && a <= b
    ensures d * a <= d * b
  {
  }

  lemma ModProduct(x: int, y: int, m: int)
    requires m > 0
    ensures ((x % m) * (y % m)) % m == (x * y) % m
  {
    var qx, rx := x / m, x % m;
    var qy, ry := y / m, y % m;
    assert x * y == (m * qx + rx) * (m * qy + ry);
    assert x * y == rx * ry + m * (qx * m * qy + qx * ry + rx * qy);
    ModAddMultiple(rx * ry, qx * m * qy + qx * ry + rx * qy, m);
  }

  lemma ModSum(x: int, y: int, m: int)
    requires m > 0
    ensures ((x % m) + y) % m == (x + y) % m
  {
    var q := x / m;
    assert x + y == (x % m + y) + m * q;
    ModAddMultiple(x % m + y, q, m);
  }

  /** Floor division by a positive divisor moves toward zero and keeps the sign. */
  lemma FloorDivBounds(v: int, d: int)
    requires d >= 1
    ensures v >= 0 ==> 0 <= v / d <= v
    ensures v < 0 ==> v <= v / d < 0
    ensures (v / d) * d <= v < (v / d + 1) * d
  {
    var q, r := v / d, v % d;
    assert v == d * q + r && 0 <= r < d;
    assert q * d == d * q;
    if v >= 0 {
      if q < 0 {
        MulMonotone(d, q, -1);
        assert false;
      }
      MulMonotone(q, 1, d);
    } else {
      if q >= 0 {
        MulMonotone(d, 0, q);
        assert false;
      }
      MulMonotone(d - 1, q, -1);
      assert d * q == q + (d - 1) * q;
    }
  }

  /** Adding k multiples of m to the dividend adds k to the floor quotient. */
  lemma DivAddMultiple(y: int, k: int, m: int)
    requires m > 0
    ensures (y + m * k) / m == y / m + k
  {
    var q, r := y / m, y % m;
    assert y + m * k == m * (q + k) + r;
    DivModUnique(y + m * k, m, q + k, r);
  }

  /** Floor division of the one's complement: floor((-1 - u) / d) == -1 - floor(u / d). */
  lemma FloorDivComplement(u: int, d: int)
    requires u >= 0 && d >= 1
    ensures (-1 - u) / d == -1 - u / d
  {
    var q, r := u / d, u % d;
    assert -1 - u == d * (-1 - q) + (d - 1 - r);
    DivModUnique(-1 - u, d, -1 - q, d - 1 - r);
  }

  /** Bits m.. of a value reduced modulo m*k are the quotient by m, reduced modulo k. */
  lemma ModThenDiv(p: int, m: int, k: int)
    requires m > 0 && k > 0
    ensures (p % (m * k)) / m == (p / m) % k
  {
    var Q, U := p / (m * k), p % (m * k);
    var u1, u0 := U / m, U % m;
    assert p == m * (k * Q + u1) + u0 by {
      assert p == (m * k) * Q + U;
      assert U == m * u1 + u0;
      assert (m * k) * Q == m * (k * Q);
    }
    DivModUnique(p, m, k * Q + u1, u0);
    assert u1 < k by {
      if u1 >= k {
        MulMonotone(m, k, u1);
        assert false;
      }
    }
    assert p / m == k * Q + u1;
    DivModUnique(p / m, k, Q, u1);
  }

  /** A product of two bounded factors is bounded by the product of the bounds. */
  lemma ProductBounds(a: int, b: int, A: int, B: int)
    requires -A <= a <= A && -B <= b <= B
    ensures -(A * B) <= a * b <= A * B
  {
    var x, y := Abs(a), Abs(b);
    MulMonotone(y, x, A);
    MulMonotone(A, y, B);
    assert x * y <= A * B;
    assert a * b == x * y || a * b == -(x * y) by {
      if a < 0 && b < 0 {
        assert x * y == (-a) * (-b);
      } else if a < 0 {
        assert x * y == (-a) * b;
      } else if b < 0 {
        assert x * y == a * (-b);
      }
    }
  }

  /** A floor quotient lies in [lo, hi) when the dividend lies in [lo*d, hi*d). */
  lemma FloorDivRange(v: int, d: int, lo: int, hi: int)
    requires d >= 1 && lo * d <= v < hi * d
    ensures lo <= v / d < hi
  {
    FloorDivBounds(v, d);
    var q := v / d;
    if q < lo {
      MulMonotone(d, q + 1, lo);
      assert false;
    }
    if q >= hi {
      MulMonotone(d, hi, q);
      assert false;
    }
  }

  // ---------------------------------------------------------------------
  // C++ truncating division
  // ---------------------------------------------------------------------

  function Abs(x: int): nat {
    if x < 0 then -x else x
  }

  /** C++ `/` on signed operands: the quotient rounded toward zero. */
  function TruncDiv(a: int, b: int): int
    requires b != 0
  {
    var q := Abs(a) / Abs(b);
    if (a < 0) == (b < 0) then q else -q
  }

  /** C++ `%` on signed operands: the remainder takes the dividend's sign. */
  function TruncRem(a: int, b: int): int
    requires b != 0
  {
    var r := Abs(a) % Abs(b);
    if a < 0 then -r else r
  }

  /**
   * The quotient and remainder of C++ division fit together as the
   * language promises: a == q*b + r, |r| < |b|, r is zero or has the sign
   * of a, and the quotient never has a larger magnitude than a.
   */
  lemma TruncDivRem(a: int, b: int)
    requires b != 0
    ensures a == TruncDiv(a, b) * b + TruncRem(a, b)
    ensures Abs(TruncRem(a, b)) < Abs(b)
    ensures TruncRem(a, b) == 0 || (TruncRem(a, b) < 0 <==> a < 0)
    ensures Abs(TruncDiv(a, b)) <= Abs(a)
    ensures Abs(b) > 1 ==> 2 * Abs(TruncDiv(a, b)) <= Abs(a)
  {
    var A, B := Abs(a), Abs(b);
    var q, r := A / B, A % B;
    assert A == B * q + r;
    assert q <= A by {
      MulMonotone(q, 1, B);
    }
    if B > 1 {
      assert 2 * q <= A by {
        MulMonotone(q, 2, B);
      }
    }
    TruncCases(a, b, A, B, q, r);
  }

  /**
   * Truncating division of N-bit signed values fits in N bits, except for
   * the one overflowing case -2^(N-1) / -1.
   */
  lemma TruncDivFits(a: int, b: int, w: Width)
    requires -(w.Half() as int) <= a < w.Half() && -(w.Half() as int) <= b < w.Half()
    requires b != 0 && !(a == -(w.Half() as int) && b == -1)
    ensures -(w.Half() as int) <= TruncDiv(a, b) < w.Half()
    ensures -(w.Half() as int) <= TruncRem(a, b) < w.Half()
  {
    TruncDivRem(a, b);
    if b == 1 {
      assert TruncDiv(a, b) == a;
    } else if b == -1 {
      assert TruncDiv(a, b) == -a;
    }
  }

  lemma TruncCases(a: int, b: int, A: int, B: int, q: int, r: int)
    requires b != 0 && A == Abs(a) && B == Abs(b) && A == B * q + r && q >= 0 && r >= 0
    requires q == A / B && r == A % B
    ensures a == TruncDiv(a, b) * b + TruncRem(a, b)
  {
    if a < 0 && b < 0 {
      assert q * b == -(q * B);
    } else if a < 0 {
      assert (-q) * b == -(q * B);
    } else if b < 0 {
      assert (-q) * b == q * B;
    }
  }

  // ---------------------------------------------------------------------
  // Bit-by-bit operators on the low n bits
  // ---------------------------------------------------------------------

  /** Bit i of x (bit 0 is the least significant). */
  function Bit(x: nat, i: nat): (b: nat)
    ensures b <= 1
  {
    if i == 0 then x % 2 else Bit(x / 2, i - 1)
  }

  /** C++ `&` on n-bit unsigned operands. */
  function BitAnd(x: nat, y: nat, n: nat): (r: nat)
    ensures r < Pow2(n)
  {
    if n == 0 then 0
    else 2 * BitAnd(x / 2, y / 2, n - 1) + (if x % 2 == 1 && y % 2 == 1 then 1 else 0)
  }

  /** C++ `|` on n-bit unsigned operands. */
  function BitOr(x: nat, y: nat, n: nat): (r: nat)
    ensures r < Pow2(n)
  {
    if n == 0 then 0
    else 2 * BitOr(x / 2, y / 2, n - 1) + (if x % 2 == 1 || y % 2 == 1 then 1 else 0)
  }

  /** C++ `^` on n-bit unsigned operands. */
  function BitXor(x: nat, y: nat, n: nat): (r: nat)
    ensures r < Pow2(n)
  {
    if n == 0 then 0
    else 2 * BitXor(x / 2, y / 2, n - 1) + (if x % 2 != y % 2 then 1 else 0)
  }

  /** C++ `~` on an n-bit unsigned operand. */
  function BitNot(x: nat, n: nat): (r: nat)
    ensures r < Pow2(n)
  {
    if n == 0 then 0
    else 2 * BitNot(x / 2, n - 1) + (if x % 2 == 0 then 1 else 0)
  }

  /** Bit i of BitAnd is set exactly when bit i is set in both operands. */
  lemma {:induction false} BitAndBit(x: nat, y: nat, n: nat, i: nat)
    requires i < n
    ensures Bit(BitAnd(x, y, n), i) == 1 <==> Bit(x, i) == 1 && Bit(y, i) == 1
  {
    if i > 0 {
      BitAndBit(x / 2, y / 2, n - 1, i - 1);
    }
  }

  /** Bit i of BitOr is set exactly when bit i is set in either operand. */
  lemma {:induction false} BitOrBit(x: nat, y: nat, n: nat, i: nat)
    requires i < n
    ensures Bit(BitOr(x, y, n), i) == 1 <==> Bit(x, i) == 1 || Bit(y, i) == 1
  {
    if i > 0 {
      BitOrBit(x / 2, y / 2, n - 1, i - 1);
    }
  }

  /** Bit i of BitXor is set exactly when the operands differ in bit i. */
  lemma {:induction false} BitXorBit(x: nat, y: nat, n: nat, i: nat)
    requires i < n
    ensures Bit(BitXor(x, y, n), i) == 1 <==> Bit(x, i) != Bit(y, i)
  {
    if i > 0 {
      BitXorBit(x / 2, y / 2, n - 1, i - 1);
    }
  }

  /** Bit i of BitNot is set exactly when bit i of the operand is clear. */
  lemma {:induction false} BitNotBit(x: nat, n: nat, i: nat)
    requires i < n
    ensures Bit(BitNot(x, n), i) == 1 <==> Bit(x, i) == 0
  {
    if i > 0 {
      BitNotBit(x / 2, n - 1, i - 1);
    }
  }

  /** On n bits, `~x` is 2^n - 1 - x. */
  lemma {:induction false} BitNotComplement(x: nat, n: nat)
    requires x < Pow2(n)
    ensures BitNot(x, n) == Pow2(n) - 1 - x
  {
    if n > 0 {
      BitNotComplement(x / 2, n - 1);
    }
  }

  /** Masking with 2^k - 1 keeps the low k bits: `x & (2^k - 1) == x % 2^k`. */
  lemma {:induction false} BitAndLowMask(x: nat, k: nat, n: nat)
    requires k <= n
    ensures BitAnd(x, Pow2(k) - 1, n) == x % Pow2(k)
  {
    if k == 0 {
      BitAndZero(x, n);
      assert x % 1 == 0;
    } else {
      BitAndLowMask(x / 2, k - 1, n - 1);
      LowMaskStep(x, k, n);
    }
  }

  /** `x & 0 == 0`. */
  lemma {:induction false} BitAndZero(x: nat, n: nat)
    ensures BitAnd(x, 0, n) == 0
  {
    if n > 0 {
      BitAndZero(x / 2, n - 1);
    }
  }

  /** One more mask bit keeps one more bit of x. */
  lemma LowMaskStep(x: nat, k: nat, n: nat)
    requires 0 < k <= n
    requires BitAnd(x / 2, Pow2(k - 1) - 1, n - 1) == (x / 2) % Pow2(k - 1)
    ensures BitAnd(x, Pow2(k) - 1, n) == x % Pow2(k)
  {
    var p := Pow2(k - 1);
    var mask := Pow2(k) - 1;
    assert Pow2(k) == 2 * p;
    assert mask == 2 * (p - 1) + 1;
    DivModUnique(mask, 2, p - 1, 1);
    BitAndOddMask(x, mask, n);
    ModDouble(x, p);
  }

  /** An odd mask keeps bit 0 of x; the other bits are the halves masked. */
  lemma BitAndOddMask(x: nat, mask: nat, n: nat)
    requires n > 0 && mask % 2 == 1
    ensures BitAnd(x, mask, n) == 2 * BitAnd(x / 2, mask / 2, n - 1) + x % 2
  {
  }

  lemma ModDouble(x: nat, m: nat)
    requires m > 0
    ensures x % (2 * m) == 2 * ((x / 2) % m) + x % 2
  {
    var h, b := x / 2, x % 2;
    var q, s := h / m, h % m;
    assert x == (2 * m) * q + (2 * s + b);
    DivModUnique(x, 2 * m, q, 2 * s + b);
  }

  lemma DivDouble(x: nat, m: nat)
    requires m > 0
    ensures x / (2 * m) == (x / 2) / m
  {
    var h, b := x / 2, x % 2;
    var q, s := h / m, h % m;
    assert x == (2 * m) * q + (2 * s + b);
    DivModUnique(x, 2 * m, q, 2 * s + b);
  }

  /** Two n-bit values with the same n bits are equal. */
  lemma {:induction false} BitsEqual(x: nat, y: nat, n: nat)
    requires x < Pow2(n) && y < Pow2(n)
    requires forall i :: 0 <= i < n ==> Bit(x, i) == Bit(y, i)
    ensures x == y
  {
    if n > 0 {
      forall i | 0 <= i < n - 1
        ensures Bit(x / 2, i) == Bit(y / 2, i)
      {
        assert Bit(x, i + 1) == Bit(y, i + 1);
      }
      BitsEqual(x / 2, y / 2, n - 1);
      assert Bit(x, 0) == Bit(y, 0);
    }
  }

  /** `_a >> s` on an unsigned operand. */
  function ShiftRightLogical(x: nat, s: nat): (r: nat)
    ensures r <= x
  {
    FloorDivBounds(x, Pow2(s));
    x / Pow2(s)
  }

  /** `x << s` before any truncation: x times 2^s. */
  function ShiftLeftExact(x: nat, s: nat): nat {
    MulMonotone(x, 0, Pow2(s));
    x * Pow2(s)
  }

  /** A logical right shift by s moves bit i + s down to bit i. */
  lemma {:induction false} ShiftRightBit(x: nat, s: nat, i: nat)
    ensures Bit(ShiftRightLogical(x, s), i) == Bit(x, i + s)
  {
    if s > 0 {
      DivDouble(x, Pow2(s - 1));
      ShiftRightBit(x / 2, s - 1, i);
      assert Bit(x, i + s) == Bit(x / 2, i + s - 1);
    }
  }

  /** A left shift by s moves bit i up to bit i + s and fills with zeros. */
  lemma {:induction false} ShiftLeftBit(x: nat, s: nat, i: nat)
    ensures Bit(ShiftLeftExact(x, s), i) == if i < s then 0 else Bit(x, i - s)
  {
    if s > 0 {
      var y := ShiftLeftExact(x, s - 1);
      assert ShiftLeftExact(x, s) == 2 * y;
      assert (2 * y) / 2 == y && (2 * y) % 2 == 0;
      if i > 0 {
        ShiftLeftBit(x, s - 1, i - 1);
      }
    }
  }

  /** Reducing modulo 2^n keeps bits below n. */
  lemma {:induction false} TruncateBit(x: nat, n: nat, i: nat)
    requires i < n
    ensures Bit(x % Pow2(n), i) == Bit(x, i)
  {
    if i > 0 {
      var y, h := x % Pow2(n), x / 2;
      HalfOfTruncate(x, n);
      assert y / 2 == h % Pow2(n - 1);
      TruncateBit(h, n - 1, i - 1);
      calc {
        Bit(y, i);
        Bit(y / 2, i - 1);
        Bit(h % Pow2(n - 1), i - 1);
        Bit(h, i - 1);
        Bit(x, i);
      }
    } else {
      var p := Pow2(n - 1);
      assert Pow2(n) == 2 * p;
      ModDouble(x, p);
      var y := x % (2 * p);
      assert y == 2 * ((x / 2) % p) + x % 2;
      assert y % 2 == x % 2;
    }
  }

  lemma HalfOfTruncate(x: nat, n: nat)
    requires n > 0
    ensures (x % Pow2(n)) / 2 == (x / 2) % Pow2(n - 1)
  {
    var p := Pow2(n - 1);
    assert Pow2(n) == 2 * p;
    ModDouble(x, p);
  }
  /** A value below 2^n has no bit set at or above n. */
  lemma {:induction false} BitHighZero(x: nat, n: nat, j: nat)
    requires x < Pow2(n) && n <= j
    ensures Bit(x, j) == 0
  {
    if j == 0 {
    } else if n == 0 {
      BitHighZero(x / 2, 0, j - 1);
    } else {
      BitHighZero(x / 2, n - 1, j - 1);
    }
  }
}
