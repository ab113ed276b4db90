/**
 * What the execution unit's routines mean: wrap-around arithmetic, shift
 * amounts taken from the low bits only, shifts described bit by bit,
 * comparisons, the non-trapping division table of the RISC-V "M"
 * extension, and the high halves of products.
 */
module AluProperties {
  import opened Bits
  import opened RegisterValues
  import opened Alu

  const M32: nat := 0x1_0000_0000
  const M64: nat := 0x1_0000_0000_0000_0000

  // ---------------------------------------------------------------------
  // ADD and SUB
  // ---------------------------------------------------------------------

  /**
   * `x + y` and `x + -y` on uintN_t are the sum and the difference of any
   * operands congruent to x and y, reduced modulo 2^N.
   */
  lemma WrapAddMeaning(x: int, y: int, xs: int, ys: int, w: Width)
    requires Unsigned(x, w) == Unsigned(xs, w) && Unsigned(y, w) == Unsigned(ys, w)
    ensures WrapAdd(x, y, false, w) == Unsigned(xs + ys, w)
    ensures WrapAdd(x, y, true, w) == Unsigned(xs - ys, w)
  {
    SumCongruent(x, y, xs, ys, w);
    NegCongruent(y, ys, w);
    UnsignedOfInRange(Unsigned(-y, w), w);
    SumCongruent(x, Unsigned(-y, w), xs, -ys, w);
  }

  /** 64-bit ADD is the sum modulo 2^64; with `modified` it is the difference. */
  lemma AddSub64(a: RegisterValue, b: RegisterValue)
    ensures Alu64(Add, false, Scalar(a), Scalar(b)) == (a.data + b.data) % M64
    ensures Alu64(Add, true, Scalar(a), Scalar(b)) == (a.data - b.data) % M64
  {
    WrapAddMeaning(a.data, b.data, a.data, b.data, W64);
  }

  /**
   * 32-bit ADD is the low 32 bits of the 64-bit sum, read as int32_t; with
   * `modified` the same holds for the difference.
   */
  lemma AddSub32(a: RegisterValue, b: RegisterValue)
    ensures Alu32(Add, false, Scalar(a), Scalar(b)) == Signed(a.data + b.data, W32)
    ensures Alu32(Add, true, Scalar(a), Scalar(b)) == Signed(a.data - b.data, W32)
  {
    var x, y := a.AsU32(), b.AsU32();
    UnsignedOfInRange(x, W32);
    UnsignedOfInRange(y, W32);
    WrapAddMeaning(x, y, a.data, b.data, W32);
    UnsignedOfInRange(Unsigned(a.data + b.data, W32), W32);
    SignedCongruent(Unsigned(a.data + b.data, W32), a.data + b.data, W32);
    UnsignedOfInRange(Unsigned(a.data - b.data, W32), W32);
    SignedCongruent(Unsigned(a.data - b.data, W32), a.data - b.data, W32);
  }

  // ---------------------------------------------------------------------
  // Shift amounts
  // ---------------------------------------------------------------------

  /** A 64-bit shift reads only the low 6 bits of b. */
  lemma ShiftUsesLowBits64(op: AluOp, modified: bool, a: RegisterValue, b: RegisterValue, c: RegisterValue)
    requires op == Sll || op == Sr
    requires b.data % 64 == c.data % 64
    ensures Alu64(op, modified, Scalar(a), Scalar(b)) == Alu64(op, modified, Scalar(a), Scalar(c))
  {
    assert ShiftAmount64(b.AsU64()) == ShiftAmount64(c.AsU64());
  }

  /** Masking b with SHIFT_MASK64 first, or adding multiples of 64 to it, leaves a 64-bit shift unchanged. */
  lemma ShiftMasked64(op: AluOp, modified: bool, a: RegisterValue, b: RegisterValue, k: int)
    requires op == Sll || op == Sr
    requires 0 <= b.data + 64 * k < M64
    ensures Alu64(op, modified, Scalar(a), Scalar(b))
         == Alu64(op, modified, Scalar(a), Scalar(FromU64(ShiftAmount64(b.data))))
    ensures Alu64(op, modified, Scalar(a), Scalar(b))
         == Alu64(op, modified, Scalar(a), Scalar(FromU64(b.data + 64 * k)))
  {
    var amount := ShiftAmount64(b.data);
    var masked, shifted := FromU64(amount), FromU64(b.data + 64 * k);
    assert masked.data == amount == b.data % 64;
    DivModUnique(amount, 64, 0, amount);
    ModAddMultiple(b.data, k, 64);
    assert shifted.data % 64 == b.data % 64;
    ShiftUsesLowBits64(op, modified, a, b, masked);
    ShiftUsesLowBits64(op, modified, a, b, shifted);
  }

  /** The low 5 bits of a register are those of its low 32 bits. */
  lemma LowBitsOfLow32(v: RegisterValue)
    ensures v.AsU32() % 32 == v.data % 32
  {
    ModOfMultiple(v.data, 32, 0x800_0000);
  }

  /** A 32-bit shift reads only the low 5 bits of b. */
  lemma ShiftUsesLowBits32(op: AluOp, modified: bool, a: RegisterValue, b: RegisterValue, c: RegisterValue)
    requires op == Sll || op == Sr
    requires b.data % 32 == c.data % 32
    ensures Alu32(op, modified, Scalar(a), Scalar(b)) == Alu32(op, modified, Scalar(a), Scalar(c))
  {
    LowBitsOfLow32(b);
    LowBitsOfLow32(c);
    assert ShiftAmount32(b.AsU32()) == ShiftAmount32(c.AsU32());
  }

  /** Masking b with SHIFT_MASK32 first, or adding multiples of 32 to it, leaves a 32-bit shift unchanged. */
  lemma ShiftMasked32(op: AluOp, modified: bool, a: RegisterValue, b: RegisterValue, k: int)
    requires op == Sll || op == Sr
    requires 0 <= b.data + 32 * k < M64
    ensures Alu32(op, modified, Scalar(a), Scalar(b))
         == Alu32(op, modified, Scalar(a), Scalar(FromU64(ShiftAmount32(b.AsU32()))))
    ensures Alu32(op, modified, Scalar(a), Scalar(b))
         == Alu32(op, modified, Scalar(a), Scalar(FromU64(b.data + 32 * k)))
  {
    var amount := ShiftAmount32(b.AsU32());
    var masked, shifted := FromU64(amount), FromU64(b.data + 32 * k);
    LowBitsOfLow32(b);
    assert masked.data == amount == b.data % 32;
    DivModUnique(amount, 32, 0, amount);
    ModAddMultiple(b.data, k, 32);
    assert shifted.data % 32 == b.data % 32;
    ShiftUsesLowBits32(op, modified, a, b, masked);
    ShiftUsesLowBits32(op, modified, a, b, shifted);
  }

  // ---------------------------------------------------------------------
  // Shifts, bit by bit
  // ---------------------------------------------------------------------

  /**
   * An arithmetic right shift of an n-bit two's-complement value (floor
   * division by 2^s) moves bit i + s down to bit i and fills with the sign bit.
   */
  lemma ArithShiftBits(v: int, n: nat, s: nat, i: nat)
    requires 1 <= n && -(Pow2(n - 1) as int) <= v < Pow2(n - 1) && i < n
    ensures Bit((v / Pow2(s)) % Pow2(n), i)
         == if i + s < n then Bit(v % Pow2(n), i + s) else Bit(v % Pow2(n), n - 1)
  {
    assert Pow2(n) == 2 * Pow2(n - 1);
    if v >= 0 {
      ArithShiftBitsNonNegative(v, n, s, i);
    } else {
      ArithShiftBitsNegative(v, n, s, i);
    }
  }

  lemma ArithShiftBitsNonNegative(v: nat, n: nat, s: nat, i: nat)
    requires 1 <= n && v < Pow2(n - 1) && Pow2(n) == 2 * Pow2(n - 1) && i < n
    ensures Bit((v / Pow2(s)) % Pow2(n), i)
         == if i + s < n then Bit(v % Pow2(n), i + s) else Bit(v % Pow2(n), n - 1)
  {
    var N, q := Pow2(n), ShiftRightLogical(v, s);
    DivModUnique(v, N, 0, v);
    DivModUnique(q, N, 0, q);
    assert (v / Pow2(s)) % N == q && v % N == v;
    ShiftRightBit(v, s, i);
    BitHighZero(v, n - 1, n - 1);
    if i + s >= n {
      BitHighZero(v, n - 1, i + s);
    }
  }

  /**
   * For negative v = -1 - u the n-bit pattern of v is `~u` and the floor
   * quotient is -1 - u / 2^s, whose pattern is `~(u >> s)`.
   */
  lemma ArithShiftBitsNegative(v: int, n: nat, s: nat, i: nat)
    requires 1 <= n && -(Pow2(n - 1) as int) <= v < 0 && Pow2(n) == 2 * Pow2(n - 1) && i < n
    ensures Bit((v / Pow2(s)) % Pow2(n), i)
         == if i + s < n then Bit(v % Pow2(n), i + s) else Bit(v % Pow2(n), n - 1)
  {
    var d := Pow2(s);
    var u := -1 - v;
    FloorDivComplement(u, d);
    var q := ShiftRightLogical(u, s);
    assert v / d == -1 - (q as int);
    NegativePattern(v, n);
    NegativePattern(v / d, n);
    assert -1 - (v / d) == q;
    NotShiftBit(u, n, s, i);
  }

  /** Bit i of `~(u >> s)` is bit i + s of `~u`, or its sign bit past the top. */
  lemma NotShiftBit(u: nat, n: nat, s: nat, i: nat)
    requires 1 <= n && u < Pow2(n - 1) && i < n
    ensures Bit(BitNot(ShiftRightLogical(u, s), n), i)
         == if i + s < n then Bit(BitNot(u, n), i + s) else Bit(BitNot(u, n), n - 1)
  {
    BitNotBit(ShiftRightLogical(u, s), n, i);
    ShiftRightBit(u, s, i);
    BitNotBit(u, n, n - 1);
    BitHighZero(u, n - 1, n - 1);
    if i + s < n {
      BitNotBit(u, n, i + s);
    } else {
      BitHighZero(u, n - 1, i + s);
    }
  }

  /** The n-bit pattern of a negative v >= -2^n is `~(-1 - v)`. */
  lemma NegativePattern(v: int, n: nat)
    requires -(Pow2(n) as int) <= v < 0
    ensures v % Pow2(n) == BitNot(-1 - v, n)
  {
    var u := -1 - v;
    DivModUnique(v, Pow2(n), -1, Pow2(n) - 1 - u);
    BitNotComplement(u, n);
  }

  /** 64-bit SLL moves bit i - s up to bit i and fills the low s bits with zeros. */
  lemma ShiftLeftBits64(a: RegisterValue, b: RegisterValue, modified: bool, i: nat)
    requires i < 64
    ensures var s := b.data % 64;
      Bit(Alu64(Sll, modified, Scalar(a), Scalar(b)), i) == if i < s then 0 else Bit(a.data, i - s)
  {
    Pow2Table();
    var s := b.data % 64;
    TruncateBit(ShiftLeftExact(a.data, s), 64, i);
    ShiftLeftBit(a.data, s, i);
  }

  /** 64-bit SR is a logical shift: bit i + s moves to bit i, zeros fill from the top. */
  lemma ShiftRightLogicalBits64(a: RegisterValue, b: RegisterValue, i: nat)
    requires i < 64
    ensures var s := b.data % 64;
      Bit(Alu64(Sr, false, Scalar(a), Scalar(b)), i) == if i + s < 64 then Bit(a.data, i + s) else 0
  {
    Pow2Table();
    var s := b.data % 64;
    ShiftRightBit(a.data, s, i);
    if i + s >= 64 {
      BitHighZero(a.data, 64, i + s);
    }
  }

  /**
   * 64-bit SR with `modified` is an arithmetic shift: the floor of a / 2^s,
   * so bit i + s moves to bit i and the sign bit fills from the top.
   */
  lemma ShiftRightArithBits64(a: RegisterValue, b: RegisterValue, i: nat)
    requires i < 64
    ensures var s := b.data % 64; var r := Signed(Alu64(Sr, true, Scalar(a), Scalar(b)), W64);
      r * Pow2(s) <= a.AsI64() < (r + 1) * Pow2(s)
    ensures var s := b.data % 64;
      Bit(Alu64(Sr, true, Scalar(a), Scalar(b)), i) == if i + s < 64 then Bit(a.data, i + s) else Bit(a.data, 63)
  {
    Pow2Table();
    var s := b.data % 64;
    var sa := a.AsI64();
    var q := sa / Pow2(s);
    FloorDivBounds(sa, Pow2(s));
    assert Alu64(Sr, true, Scalar(a), Scalar(b)) == Unsigned(q, W64);
    SignedOfPattern(q, W64);
    assert Unsigned(q, W64) == q % Pow2(64);
    UnsignedOfInRange(a.data, W64);
    assert Unsigned(sa, W64) == Unsigned(a.data, W64) == a.data;
    ArithShiftBits(sa, 64, s, i);
  }

  /** 32-bit SLL: the same on the low 32 bits. */
  lemma ShiftLeftBits32(a: RegisterValue, b: RegisterValue, modified: bool, i: nat)
    requires i < 32
    ensures var s := b.data % 32;
      Bit(Unsigned(Alu32(Sll, modified, Scalar(a), Scalar(b)), W32), i) == if i < s then 0 else Bit(a.AsU32(), i - s)
  {
    Pow2Table();
    LowBitsOfLow32(b);
    var x, s := a.AsU32(), b.data % 32;
    var u := ShiftLeft(x, s, W32);
    assert Alu32(Sll, modified, Scalar(a), Scalar(b)) == Signed(u, W32);
    UnsignedOfInRange(u, W32);
    assert u == ShiftLeftExact(x, s) % Pow2(32);
    TruncateBit(ShiftLeftExact(x, s), 32, i);
    ShiftLeftBit(x, s, i);
  }

  /** 32-bit SR: a logical shift of the low 32 bits. */
  lemma ShiftRightLogicalBits32(a: RegisterValue, b: RegisterValue, i: nat)
    requires i < 32
    ensures var s := b.data % 32;
      Bit(Unsigned(Alu32(Sr, false, Scalar(a), Scalar(b)), W32), i) == if i + s < 32 then Bit(a.AsU32(), i + s) else 0
  {
    Pow2Table();
    LowBitsOfLow32(b);
    var s := b.data % 32;
    var x := a.AsU32();
    FloorDivBounds(x, Pow2(s));
    UnsignedOfInRange(x / Pow2(s), W32);
    ShiftRightBit(x, s, i);
    if i + s >= 32 {
      BitHighZero(x, 32, i + s);
    }
  }

  /** 32-bit SR with `modified`: an arithmetic shift of the int32_t reading. */
  lemma ShiftRightArithBits32(a: RegisterValue, b: RegisterValue, i: nat)
    requires i < 32
    ensures var s := b.data % 32; var r := Alu32(Sr, true, Scalar(a), Scalar(b));
      r * Pow2(s) <= a.AsI32() < (r + 1) * Pow2(s)
    ensures var s := b.data % 32;
      Bit(Unsigned(Alu32(Sr, true, Scalar(a), Scalar(b)), W32), i)
      == if i + s < 32 then Bit(a.AsU32(), i + s) else Bit(a.AsU32(), 31)
  {
    Pow2Table();
    LowBitsOfLow32(b);
    var s := b.data % 32;
    var sa := a.AsI32();
    FloorDivBounds(sa, Pow2(s));
    ArithShiftBits(sa, 32, s, i);
  }

  // ---------------------------------------------------------------------
  // Comparisons
  // ---------------------------------------------------------------------

  /** The top bit of a w-bit pattern is set exactly when the value reaches 2^(w-1). */
  lemma SignBit(x: nat, w: Width)
    requires x < w.Modulus()
    ensures Bit(x, w.Bits() - 1) == 1 <==> x >= w.Half()
  {
    ModulusIsPow2(w);
    ShiftRightBit(x, w.Bits() - 1, 0);
    FloorDivRange(x, w.Half(), if x >= w.Half() then 1 else 0, if x >= w.Half() then 2 else 1);
  }

  /**
   * SLT and SLTU yield 0 or 1. SLT compares the signed readings, SLTU the
   * unsigned ones; they agree when the sign bits agree and disagree
   * otherwise.
   */
  lemma SetLessThan64(a: RegisterValue, b: RegisterValue, modified: bool)
    ensures var lt := Alu64(Slt, modified, Scalar(a), Scalar(b));
      (lt == 0 || lt == 1) && (lt == 1 <==> a.AsI64() < b.AsI64())
    ensures var ltu := Alu64(Sltu, modified, Scalar(a), Scalar(b));
      (ltu == 0 || ltu == 1) && (ltu == 1 <==> a.AsU64() < b.AsU64())
    ensures Bit(a.data, 63) == Bit(b.data, 63) ==>
      Alu64(Slt, modified, Scalar(a), Scalar(b)) == Alu64(Sltu, modified, Scalar(a), Scalar(b))
    ensures Bit(a.data, 63) != Bit(b.data, 63) ==>
      Alu64(Slt, modified, Scalar(a), Scalar(b)) == 1 - Alu64(Sltu, modified, Scalar(a), Scalar(b))
  {
    SignBit(a.data, W64);
    SignBit(b.data, W64);
  }

  /** The same for the low 32 bits. */
  lemma SetLessThan32(a: RegisterValue, b: RegisterValue, modified: bool)
    ensures var lt := Alu32(Slt, modified, Scalar(a), Scalar(b));
      (lt == 0 || lt == 1) && (lt == 1 <==> a.AsI32() < b.AsI32())
    ensures var ltu := Alu32(Sltu, modified, Scalar(a), Scalar(b));
      (ltu == 0 || ltu == 1) && (ltu == 1 <==> a.AsU32() < b.AsU32())
    ensures Bit(a.AsU32(), 31) == Bit(b.AsU32(), 31) ==>
      Alu32(Slt, modified, Scalar(a), Scalar(b)) == Alu32(Sltu, modified, Scalar(a), Scalar(b))
    ensures Bit(a.AsU32(), 31) != Bit(b.AsU32(), 31) ==>
      Alu32(Slt, modified, Scalar(a), Scalar(b)) == 1 - Alu32(Sltu, modified, Scalar(a), Scalar(b))
  {
    SignBit(a.AsU32(), W32);
    SignBit(b.AsU32(), W32);
  }

  // ---------------------------------------------------------------------
  // Logic operations
  // ---------------------------------------------------------------------

  /** XOR, OR and AND act bit by bit on the 64-bit patterns. */
  lemma LogicBits64(a: RegisterValue, b: RegisterValue, modified: bool, i: nat)
    requires i < 64
    ensures Bit(Alu64(Xor, modified, Scalar(a), Scalar(b)), i) == 1 <==> Bit(a.data, i) != Bit(b.data, i)
    ensures Bit(Alu64(Or, modified, Scalar(a), Scalar(b)), i) == 1 <==> Bit(a.data, i) == 1 || Bit(b.data, i) == 1
    ensures Bit(Alu64(And, false, Scalar(a), Scalar(b)), i) == 1 <==> Bit(a.data, i) == 1 && Bit(b.data, i) == 1
  {
    BitXorBit(a.data, b.data, 64, i);
    BitOrBit(a.data, b.data, 64, i);
    BitAndBit(a.data, b.data, 64, i);
  }

  /** XOR, OR and AND act bit by bit on the low 32 bits. */
  lemma LogicBits32(a: RegisterValue, b: RegisterValue, modified: bool, i: nat)
    requires i < 32
    ensures Bit(Unsigned(Alu32(Xor, modified, Scalar(a), Scalar(b)), W32), i) == 1
        <==> Bit(a.AsU32(), i) != Bit(b.AsU32(), i)
    ensures Bit(Unsigned(Alu32(Or, modified, Scalar(a), Scalar(b)), W32), i) == 1
        <==> Bit(a.AsU32(), i) == 1 || Bit(b.AsU32(), i) == 1
    ensures Bit(Unsigned(Alu32(And, false, Scalar(a), Scalar(b)), W32), i) == 1
        <==> Bit(a.AsU32(), i) == 1 && Bit(b.AsU32(), i) == 1
  {
    Pow2Table();
    var x, y := a.AsU32(), b.AsU32();
    UnsignedOfInRange(BitXor(x, y, 32), W32);
    UnsignedOfInRange(BitOr(x, y, 32), W32);
    UnsignedOfInRange(BitAnd(x, y, 32), W32);
    BitXorBit(x, y, 32, i);
    BitOrBit(x, y, 32, i);
    BitAndBit(x, y, 32, i);
  }

  /**
   * AND with `modified` (ANDN) is `~a & b`: b with every bit of a cleared,
   * the same as b AND (2^64 - 1 - a).
   */
  lemma AndNot64(a: RegisterValue, b: RegisterValue)
    ensures Alu64(And, true, Scalar(a), Scalar(b)) == BitAnd(UINT64_MAX - a.data, b.data, 64)
    ensures BitAnd(Alu64(And, true, Scalar(a), Scalar(b)), a.data, 64) == 0
    ensures forall i :: 0 <= i < 64 ==>
      (Bit(Alu64(And, true, Scalar(a), Scalar(b)), i) == 1 <==> Bit(b.data, i) == 1 && Bit(a.data, i) == 0)
  {
    Pow2Table();
    AndNotBits(a.data, b.data, 64);
  }

  /** ANDN on the low 32 bits. */
  lemma AndNot32(a: RegisterValue, b: RegisterValue)
    ensures Unsigned(Alu32(And, true, Scalar(a), Scalar(b)), W32) == BitAnd(UINT32_MAX - a.AsU32(), b.AsU32(), 32)
    ensures BitAnd(Unsigned(Alu32(And, true, Scalar(a), Scalar(b)), W32), a.AsU32(), 32) == 0
    ensures forall i :: 0 <= i < 32 ==>
      (Bit(Unsigned(Alu32(And, true, Scalar(a), Scalar(b)), W32), i) == 1
       <==> Bit(b.AsU32(), i) == 1 && Bit(a.AsU32(), i) == 0)
  {
    Pow2Table();
    var x, y := a.AsU32(), b.AsU32();
    UnsignedOfInRange(BitAnd(BitNot(x, 32), y, 32), W32);
    AndNotBits(x, y, 32);
  }

  /** `~x & y` on n bits, bit by bit and as a complement. */
  lemma AndNotBits(x: nat, y: nat, n: nat)
    requires x < Pow2(n)
    ensures BitAnd(BitNot(x, n), y, n) == BitAnd(Pow2(n) - 1 - x, y, n)
    ensures BitAnd(BitAnd(BitNot(x, n), y, n), x, n) == 0
    ensures forall i :: 0 <= i < n ==>
      (Bit(BitAnd(BitNot(x, n), y, n), i) == 1 <==> Bit(y, i) == 1 && Bit(x, i) == 0)
  {
    BitNotComplement(x, n);
    var r := BitAnd(BitNot(x, n), y, n);
    forall i | 0 <= i < n
      ensures Bit(r, i) == 1 <==> Bit(y, i) == 1 && Bit(x, i) == 0
    {
      BitAndBit(BitNot(x, n), y, n, i);
      BitNotBit(x, n, i);
    }
    var z := BitAnd(r, x, n);
    forall i | 0 <= i < n
      ensures Bit(z, i) == Bit(0, i)
    {
      BitAndBit(r, x, n, i);
      BitHighZero(0, 0, i);
    }
    BitsEqual(z, 0, n);
  }

  // ---------------------------------------------------------------------
  // Division and remainder
  // ---------------------------------------------------------------------

  /**
   * Signed division on any width follows the RISC-V "M" table: x / 0 is -1,
   * x % 0 is x, INT_MIN / -1 is INT_MIN with remainder 0; otherwise the
   * results are the truncating quotient and remainder with a == q*b + r
   * exactly, and for every nonzero divisor a == q*b + r modulo 2^N.
   */
  lemma SignedDivTable(a: int, b: int, w: Width)
    requires InSignedRange(a, w) && InSignedRange(b, w)
    ensures b == 0 ==> DivEdge(a, b, w) == -1 && RemEdge(a, b, w) == a
    ensures a == -(w.Half() as int) && b == -1 ==> DivEdge(a, b, w) == a && RemEdge(a, b, w) == 0
    ensures b != 0 && !(a == -(w.Half() as int) && b == -1) ==>
      var q, r := DivEdge(a, b, w), RemEdge(a, b, w);
      q * b + r == a && Abs(r) < Abs(b) && (r == 0 || (r < 0 <==> a < 0))
    ensures b != 0 ==>
      (DivEdge(a, b, w) * b + RemEdge(a, b, w) - a) % w.Modulus() == 0
  {
    ModulusIsPow2(w);
    if b != 0 && !(a == -(w.Half() as int) && b == -1) {
      TruncDivRem(a, b);
    }
  }

  /** Unsigned division on any width: UINT_MAX and x for a zero divisor, else x == q*y + r with r < y. */
  lemma UnsignedDivTable(x: nat, y: nat, w: Width)
    requires x < w.Modulus()
    ensures y == 0 ==> DivuEdge(x, y, w) == w.Modulus() - 1 && RemuEdge(x, y) == x
    ensures y != 0 ==> DivuEdge(x, y, w) * y + RemuEdge(x, y) == x && RemuEdge(x, y) < y
  {
  }

  /** 64-bit DIV/DIVU/REM/REMU: the division tables, on the int64_t and uint64_t readings of the result. */
  lemma DivRem64(a: RegisterValue, b: RegisterValue)
    ensures b.AsI64() == 0 ==>
      Mul64(Div, Scalar(a), Scalar(b)) == UINT64_MAX && Mul64(Rem, Scalar(a), Scalar(b)) == a.data
    ensures a.AsI64() == INT64_MIN && b.AsI64() == -1 ==>
      Mul64(Div, Scalar(a), Scalar(b)) == 0x8000_0000_0000_0000 && Mul64(Rem, Scalar(a), Scalar(b)) == 0
    ensures b.data == 0 ==>
      Mul64(Divu, Scalar(a), Scalar(b)) == UINT64_MAX && Mul64(Remu, Scalar(a), Scalar(b)) == a.data
    ensures b.data != 0 ==>
      Mul64(Divu, Scalar(a), Scalar(b)) * b.data + Mul64(Remu, Scalar(a), Scalar(b)) == a.data &&
      Mul64(Remu, Scalar(a), Scalar(b)) < b.data
    ensures b.AsI64() != 0 && !(a.AsI64() == INT64_MIN && b.AsI64() == -1) ==>
      var q, r := Signed(Mul64(Div, Scalar(a), Scalar(b)), W64), Signed(Mul64(Rem, Scalar(a), Scalar(b)), W64);
      q * b.AsI64() + r == a.AsI64() && Abs(r) < Abs(b.AsI64()) && (r == 0 || (r < 0 <==> a.AsI64() < 0))
    ensures b.AsI64() != 0 ==>
      var q, r := Signed(Mul64(Div, Scalar(a), Scalar(b)), W64), Signed(Mul64(Rem, Scalar(a), Scalar(b)), W64);
      (q * b.AsI64() + r - a.AsI64()) % M64 == 0
  {
    var sa, sb := a.AsI64(), b.AsI64();
    SignedDivTable(sa, sb, W64);
    UnsignedDivTable(a.data, b.data, W64);
    SignedOfPattern(DivEdge(sa, sb, W64), W64);
    SignedOfPattern(RemEdge(sa, sb, W64), W64);
  }

  /** 32-bit DIV/DIVU/REM/REMU: the division tables, on the int32_t result and its uint32_t reading. */
  lemma DivRem32(a: RegisterValue, b: RegisterValue)
    ensures b.AsI32() == 0 ==>
      Mul32(Div, Scalar(a), Scalar(b)) == -1 && Mul32(Rem, Scalar(a), Scalar(b)) == a.AsI32()
    ensures a.AsI32() == INT32_MIN && b.AsI32() == -1 ==>
      Mul32(Div, Scalar(a), Scalar(b)) == INT32_MIN && Mul32(Rem, Scalar(a), Scalar(b)) == 0
    ensures b.AsU32() == 0 ==>
      Mul32(Divu, Scalar(a), Scalar(b)) == -1 && Unsigned(Mul32(Remu, Scalar(a), Scalar(b)), W32) == a.AsU32()
    ensures b.AsU32() != 0 ==>
      var q, r := Unsigned(Mul32(Divu, Scalar(a), Scalar(b)), W32), Unsigned(Mul32(Remu, Scalar(a), Scalar(b)), W32);
      q * b.AsU32() + r == a.AsU32() && r < b.AsU32()
    ensures b.AsI32() != 0 && !(a.AsI32() == INT32_MIN && b.AsI32() == -1) ==>
      var q, r := Mul32(Div, Scalar(a), Scalar(b)), Mul32(Rem, Scalar(a), Scalar(b));
      q * b.AsI32() + r == a.AsI32() && Abs(r) < Abs(b.AsI32()) && (r == 0 || (r < 0 <==> a.AsI32() < 0))
    ensures b.AsI32() != 0 ==>
      var q, r := Mul32(Div, Scalar(a), Scalar(b)), Mul32(Rem, Scalar(a), Scalar(b));
      (q * b.AsI32() + r - a.AsI32()) % M32 == 0
  {
    var x, y := a.AsU32(), b.AsU32();
    SignedDivTable(a.AsI32(), b.AsI32(), W32);
    UnsignedDivTable(x, y, W32);
    UnsignedOfInRange(x, W32);
    UnsignedOfInRange(DivuEdge(x, y, W32), W32);
    UnsignedOfInRange(RemuEdge(x, y), W32);
  }

  // ---------------------------------------------------------------------
  // Multiplication
  // ---------------------------------------------------------------------

  /**
   * At 64 bits, MULH/MULHSU/MULHU are the high halves of the exact 128-bit
   * products: high * 2^64 + MUL reconstructs a*b for the signed/signed,
   * signed/unsigned and unsigned/unsigned readings.
   */
  lemma MulHigh64(a: RegisterValue, b: RegisterValue)
    ensures Mul64(Mulhu, Scalar(a), Scalar(b)) * M64 + Mul64(Mul, Scalar(a), Scalar(b)) == a.AsU64() * b.AsU64()
    ensures Signed(Mul64(Mulh, Scalar(a), Scalar(b)), W64) * M64 + Mul64(Mul, Scalar(a), Scalar(b))
         == a.AsI64() * b.AsI64()
    ensures Signed(Mul64(Mulhsu, Scalar(a), Scalar(b)), W64) * M64 + Mul64(Mul, Scalar(a), Scalar(b))
         == a.AsI64() * b.AsU64()
  {
    var x, y, sa, sb := a.AsU64(), b.AsU64(), a.AsI64(), b.AsI64();
    ProductBounds(x, y, M64 - 1, M64 - 1);
    FloorDivRange(x * y, M64, 0, M64);
    UnsignedOfInRange((x * y) / M64, W64);
    ProductBounds(sa, sb, 0x8000_0000_0000_0000, 0x8000_0000_0000_0000);
    FloorDivRange(sa * sb, M64, -0x4000_0000_0000_0000, 0x4000_0000_0000_0001);
    SignedOfPattern((sa * sb) / M64, W64);
    ProductCongruent(x, y, sa, sb, W64);
    ProductBounds(sa, y, 0x8000_0000_0000_0000, M64 - 1);
    FloorDivRange(sa * y, M64, -0x8000_0000_0000_0000, 0x8000_0000_0000_0000);
    SignedOfPattern((sa * y) / M64, W64);
    ProductCongruent(x, y, sa, y, W64);
  }

  /**
   * At 32 bits, the cast chain of the source computes the true high halves:
   * MULH and MULHSU are floor(a*b / 2^32) of the signed/signed and
   * signed/unsigned products, MULHU is bits 32..63 of the unsigned product,
   * and each, put above the low word of MUL, reconstructs the product.
   */
  lemma MulHigh32(a: RegisterValue, b: RegisterValue)
    ensures Mul32(Mulh, Scalar(a), Scalar(b)) == (a.AsI32() * b.AsI32()) / M32
    ensures Mul32(Mulhsu, Scalar(a), Scalar(b)) == (a.AsI32() * b.AsU32()) / M32
    ensures Unsigned(Mul32(Mulhu, Scalar(a), Scalar(b)), W32) == (a.AsU32() * b.AsU32()) / M32
    ensures Mul32(Mulh, Scalar(a), Scalar(b)) * M32 + Unsigned(Mul32(Mul, Scalar(a), Scalar(b)), W32)
         == a.AsI32() * b.AsI32()
    ensures Mul32(Mulhsu, Scalar(a), Scalar(b)) * M32 + Unsigned(Mul32(Mul, Scalar(a), Scalar(b)), W32)
         == a.AsI32() * b.AsU32()
    ensures Unsigned(Mul32(Mulhu, Scalar(a), Scalar(b)), W32) * M32 + Unsigned(Mul32(Mul, Scalar(a), Scalar(b)), W32)
         == a.AsU32() * b.AsU32()
  {
    var x, y, sa, sb := a.AsU32(), b.AsU32(), a.AsI32(), b.AsI32();
    assert Mul32(Mulh, Scalar(a), Scalar(b)) == MulHigh32Chain(sa, sb);
    assert Mul32(Mulhsu, Scalar(a), Scalar(b)) == MulHigh32Chain(sa, y);
    assert Mul32(Mulhu, Scalar(a), Scalar(b)) == MulHigh32Chain(x, y);
    MulhChain(sa, sb);
    MulhsuChain(sa, y);
    MulhuChain(x, y);
    UnsignedOfInRange(x, W32);
    UnsignedOfInRange(y, W32);
    ProductCongruent(x, y, sa, sb, W32);
    ProductCongruent(x, y, sa, y, W32);
    assert Mul32(Mul, Scalar(a), Scalar(b)) == Signed(WrapMul(x, y, W32), W32);
  }

  /** The MULH cast chain on two int32_t operands is floor(a*b / 2^32). */
  lemma MulhChain(sa: i32, sb: i32)
    ensures MulHigh32Chain(sa, sb) == (sa * sb) / M32
  {
    ProductCongruent(Unsigned(sa, W64), Unsigned(sb, W64), sa, sb, W64);
    HighWord32(sa * sb, Unsigned(sa, W64) * Unsigned(sb, W64));
    ProductBounds(sa, sb, 0x8000_0000, 0x8000_0000);
    FloorDivRange(sa * sb, M32, -0x4000_0000, 0x4000_0001);
    SignedOfInRange((sa * sb) / M32, W32);
  }

  /** The MULHSU cast chain on an int32_t and a uint32_t operand is floor(a*b / 2^32). */
  lemma MulhsuChain(sa: i32, y: u32)
    ensures MulHigh32Chain(sa, y) == (sa * y) / M32
  {
    UnsignedOfInRange(y, W64);
    ProductCongruent(Unsigned(sa, W64), y, sa, y, W64);
    HighWord32(sa * y, Unsigned(sa, W64) * y);
    ProductBounds(sa, y, 0x8000_0000, M32 - 1);
    FloorDivRange(sa * y, M32, -0x8000_0000, 0x8000_0000);
    SignedOfInRange((sa * y) / M32, W32);
  }

  /** The MULHU cast chain on two uint32_t operands is bits 32..63 of the product. */
  lemma MulhuChain(x: u32, y: u32)
    ensures Unsigned(MulHigh32Chain(x, y), W32) == (x * y) / M32
  {
    UnsignedOfInRange(x, W64);
    UnsignedOfInRange(y, W64);
    ProductBounds(x, y, M32 - 1, M32 - 1);
    UnsignedOfInRange(x * y, W64);
    FloorDivRange(x * y, M32, 0, M32);
    UnsignedOfInRange((x * y) / M32, W32);
  }

  /**
   * Shifting the 64-bit pattern of a product right by 32 and converting to
   * int32_t gives the high word of the exact product, read as signed.
   */
  lemma HighWord32(p: int, q: int)
    requires Unsigned(q, W64) == Unsigned(p, W64)
    ensures Signed(Unsigned(q, W64) / M32, W32) == Signed(p / M32, W32)
  {
    ModThenDiv(p, M32, M32);
    UnsignedCongruent((p / M32) % M32, p / M32, W32);
    SignedCongruent((p / M32) % M32, p / M32, W32);
  }

  // ---------------------------------------------------------------------
  // Worked values
  // ---------------------------------------------------------------------

  /** ADD of 5 and 3, SUB of 5 and 3, and SUB of 3 and 5, which wraps. */
  lemma ExampleAddSub()
    ensures Alu64(Add, false, Scalar(RegisterValue(5)), Scalar(RegisterValue(3))) == 8
    ensures Alu64(Add, true, Scalar(RegisterValue(5)), Scalar(RegisterValue(3))) == 2
    ensures Alu64(Add, true, Scalar(RegisterValue(3)), Scalar(RegisterValue(5))) == UINT64_MAX - 1
  {
    AddSub64(RegisterValue(5), RegisterValue(3));
    AddSub64(RegisterValue(3), RegisterValue(5));
  }

  /** 32-bit SUB of 5 and 3, and of 3 and 5, which gives -2 as an int32_t. */
  lemma ExampleSub32()
    ensures Alu32(Add, true, Scalar(RegisterValue(5)), Scalar(RegisterValue(3))) == 2
    ensures Alu32(Add, true, Scalar(RegisterValue(3)), Scalar(RegisterValue(5))) == -2
  {
    AddSub32(RegisterValue(5), RegisterValue(3));
    AddSub32(RegisterValue(3), RegisterValue(5));
    SignedOfInRange(2, W32);
    SignedOfInRange(-2, W32);
  }

  /** VREDSUM of lanes 1, 2, 3 into an accumulator of 100 with vl = 3 gives 106. */
  method ExampleRedSum() returns (r: RegisterValue)
    ensures r.AsU64() == 106
  {
    var lanes: LaneArray := [1, 2, 3] + seq(29, _ => 0);
    r := VectorRedSum(RegisterValue(100), VectorRegisterValue(lanes), 3);
    assert lanes[0] == 1 && lanes[1] == 2 && lanes[2] == 3;
    assert LaneSum(lanes, 1) == 1;
    assert LaneSum(lanes, 2) == 3;
    assert LaneSum(lanes, 3) == 6;
  }

  /** A 32-bit shift by 35 shifts by 3. */
  lemma ExampleShift32()
    ensures Alu32(Sll, false, Scalar(RegisterValue(1)), Scalar(RegisterValue(35))) == 8
  {
    var one, b := RegisterValue(1), RegisterValue(35);
    ShiftMasked32(Sll, false, one, b, -1);
    var three := FromU64(3);
    assert three.AsU32() == 3 && one.AsU32() == 1;
    assert ShiftAmount32(3) == 3;
    assert Pow2(3) == 8;
    assert ShiftLeftExact(1, 3) == 8;
    UnsignedOfInRange(8, W32);
    assert ShiftLeft(1, 3, W32) == 8;
    SignedOfInRange(8, W32);
    assert Alu32(Sll, false, Scalar(one), Scalar(three)) == Signed(8, W32);
  }

  /** DIV and REM of -7 by 2 round toward zero; INT64_MIN / -1 overflows to INT64_MIN. */
  lemma ExampleDivision()
    ensures Mul32(Div, Scalar(RegisterValue(M64 - 7)), Scalar(RegisterValue(2))) == -3
    ensures Mul32(Rem, Scalar(RegisterValue(M64 - 7)), Scalar(RegisterValue(2))) == -1
    ensures Mul32(Div, Scalar(RegisterValue(7)), Scalar(RegisterValue(0))) == -1
    ensures Mul64(Div, Scalar(RegisterValue(0x8000_0000_0000_0000)), Scalar(RegisterValue(UINT64_MAX)))
         == 0x8000_0000_0000_0000
  {
    var m7, two := RegisterValue(M64 - 7), RegisterValue(2);
    assert m7.AsI32() == -7 && two.AsI32() == 2;
    DivRem32(m7, two);
    assert TruncDiv(-7, 2) == -3 && TruncRem(-7, 2) == -1;
    assert Mul32(Rem, Scalar(m7), Scalar(two)) == RemEdge(-7, 2, W32);
    assert Mul32(Div, Scalar(m7), Scalar(two)) == DivEdge(-7, 2, W32);
    DivRem32(RegisterValue(7), RegisterValue(0));
    DivRem64(RegisterValue(0x8000_0000_0000_0000), RegisterValue(UINT64_MAX));
  }

  /** MULHU of 0xFFFFFFFF by itself: the high word of 0xFFFFFFFE_00000001. */
  lemma ExampleMulhu()
    ensures Unsigned(Mul32(Mulhu, Scalar(RegisterValue(UINT32_MAX)), Scalar(RegisterValue(UINT32_MAX))), W32)
         == 0xFFFF_FFFE
  {
    MulHigh32(RegisterValue(UINT32_MAX), RegisterValue(UINT32_MAX));
    assert RegisterValue(UINT32_MAX).AsU32() == UINT32_MAX;
  }
}
