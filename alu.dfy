/**
 * The execution unit: a total function of the component, the operation,
 * the width and modifier flags, the two operands and the active vector
 * length. Scalar results are computed in C++ fixed-width arithmetic, written
 * out over unbounded integers; vector results are filled lane by lane.
 */
module Alu {
  import opened Bits
  import opened RegisterValues

  datatype AluOp = Add | Sll | Slt | Sltu | Xor | Sr | Or | And
  datatype MulOp = Mul | Mulh | Mulhsu | Mulhu | Div | Divu | Rem | Remu
  datatype VecOp = VAddVV | VAddVI | VMulVV | VRedSum

  /** The operation family selected by the decoder. */
  datatype AluComponent = ComponentAlu | ComponentMul | ComponentVec | ComponentPass

  /** The operation code, read as the member of its family. */
  datatype AluCombinedOp = AluOpCode(aluOp: AluOp) | MulOpCode(mulOp: MulOp) | VecOpCode(vecOp: VecOp)

  /** Shift amounts use only the low 5 (32-bit) or 6 (64-bit) bits of b. */
  const SHIFT_MASK32: nat := 31
  const SHIFT_MASK64: nat := 63

  /** `_b & SHIFT_MASK64`: the shift amount of a 64-bit shift. */
  function ShiftAmount64(y: u64): (s: nat)
    ensures s == y % 64
  {
    Pow2Table();
    BitAndLowMask(y, 6, 64);
    BitAnd(y, SHIFT_MASK64, 64)
  }

  /** `_b & SHIFT_MASK32`: the shift amount of a 32-bit shift. */
  function ShiftAmount32(y: u32): (s: nat)
    ensures s == y % 32
  {
    Pow2Table();
    BitAndLowMask(y, 5, 64);
    BitAnd(y, SHIFT_MASK32, 64)
  }

  // ---------------------------------------------------------------------
  // The C++ expressions the routines are built from, at either width
  // ---------------------------------------------------------------------

  /** `_a + (modified ? -_b : _b)` on uintN_t. */
  function WrapAdd(x: int, y: int, subtract: bool, w: Width): (r: nat)
    ensures r < w.Modulus()
  {
    Unsigned(x + (if subtract then Unsigned(-y, w) else y), w)
  }

  /** `_a * _b` on uintN_t. */
  function WrapMul(x: int, y: int, w: Width): (r: nat)
    ensures r < w.Modulus()
  {
    Unsigned(x * y, w)
  }

  /** `_a << s` on uintN_t: bits shifted past the top are lost. */
  function ShiftLeft(x: nat, s: nat, w: Width): (r: nat)
    ensures r < w.Modulus()
  {
    Unsigned(ShiftLeftExact(x, s), w)
  }

  /** `a >> s` on a signed operand: the floor of a / 2^s. */
  function ShiftRightArith(v: int, s: nat): (r: int)
    ensures v >= 0 ==> 0 <= r <= v
    ensures v < 0 ==> v <= r < 0
  {
    FloorDivBounds(v, Pow2(s));
    v / Pow2(s)
  }

  /** The signed range of w. */
  predicate InSignedRange(v: int, w: Width) {
    -(w.Half() as int) <= v < w.Half()
  }

  /** DIV on intN_t: -1 for a zero divisor, INT_MIN for INT_MIN / -1, else C++ `/`. */
  function DivEdge(a: int, b: int, w: Width): (r: int)
    requires InSignedRange(a, w) && InSignedRange(b, w)
    ensures InSignedRange(r, w)
  {
    if b == 0 then -1
    else if a == -(w.Half() as int) && b == -1 then -(w.Half() as int)
    else (TruncDivFits(a, b, w); TruncDiv(a, b))
  }

  /** REM on intN_t: a for a zero divisor, 0 for INT_MIN % -1, else C++ `%`. */
  function RemEdge(a: int, b: int, w: Width): (r: int)
    requires InSignedRange(a, w) && InSignedRange(b, w)
    ensures InSignedRange(r, w)
  {
    if b == 0 then a
    else if a == -(w.Half() as int) && b == -1 then 0
    else (TruncDivFits(a, b, w); TruncRem(a, b))
  }

  /** DIVU on uintN_t: UINT_MAX for a zero divisor, else `/`. */
  function DivuEdge(x: nat, y: nat, w: Width): (r: nat)
    requires x < w.Modulus()
    ensures r < w.Modulus()
  {
    if y == 0 then w.Modulus() - 1 else (FloorDivBounds(x, y); x / y)
  }

  /** REMU on uintN_t: x for a zero divisor, else `%`. */
  function RemuEdge(x: nat, y: nat): (r: nat)
    ensures r <= x
  {
    if y == 0 then x else x % y
  }

  /** `mulh64` and its variants: the high 64 bits of an exact 128-bit product. */
  function HighHalf64(p: int): (r: u64)
  {
    Unsigned(p / 0x1_0000_0000_0000_0000, W64)
  }

  /**
   * `((uint64_t)a * (uint64_t)b) >> 32`, converted to int32_t: both operands
   * are widened to uint64_t (sign-extending the signed ones), multiplied
   * modulo 2^64 and shifted right by 32.
   */
  function MulHigh32Chain(a: int, b: int): (r: i32)
  {
    Signed(Unsigned(Unsigned(a, W64) * Unsigned(b, W64), W64) / 0x1_0000_0000, W32)
  }

  // ---------------------------------------------------------------------
  // The four scalar routines
  // ---------------------------------------------------------------------

  /**
   * `alu64_operate`: the 64-bit pattern of the int64_t result. Every
   * expression is computed on uint64_t, except SLT and the arithmetic shift,
   * which read the operands as int64_t.
   */
  function Alu64(op: AluOp, modified: bool, aRaw: RegisterValueUnion, bRaw: RegisterValueUnion): (r: u64)
    requires aRaw.Scalar? && bRaw.Scalar?
  {
    Pow2Table();
    var a, b := aRaw.i, bRaw.i;
    var x, y := a.AsU64(), b.AsU64();
    match op
    case Add => WrapAdd(x, y, modified, W64)
    case Sll => ShiftLeft(x, ShiftAmount64(y), W64)
    case Slt => if a.AsI64() < b.AsI64() then 1 else 0
    case Sltu => if x < y then 1 else 0
    case Xor => BitXor(x, y, 64)
    case Sr =>
      if modified then Unsigned(ShiftRightArith(a.AsI64(), ShiftAmount64(y)), W64)
      else ShiftRightLogical(x, ShiftAmount64(y))
    case Or => BitOr(x, y, 64)
    case And => BitAnd(if modified then BitNot(x, 64) else x, y, 64)
  }

  /**
   * `alu32_operate`: computed on uint32_t (SLT and the arithmetic shift on
   * int32_t) and returned as int32_t.
   */
  function Alu32(op: AluOp, modified: bool, aRaw: RegisterValueUnion, bRaw: RegisterValueUnion): (r: i32)
    requires aRaw.Scalar? && bRaw.Scalar?
  {
    Pow2Table();
    var a, b := aRaw.i, bRaw.i;
    var x, y := a.AsU32(), b.AsU32();
    match op
    case Add => Signed(WrapAdd(x, y, modified, W32), W32)
    case Sll => Signed(ShiftLeft(x, ShiftAmount32(y), W32), W32)
    case Slt => if a.AsI32() < b.AsI32() then 1 else 0
    case Sltu => if x < y then 1 else 0
    case Xor => Signed(BitXor(x, y, 32), W32)
    case Sr =>
      if modified then ShiftRightArith(a.AsI32(), ShiftAmount32(y))
      else Signed(ShiftRightLogical(x, ShiftAmount32(y)), W32)
    case Or => Signed(BitOr(x, y, 32), W32)
    case And => Signed(BitAnd(if modified then BitNot(x, 32) else x, y, 32), W32)
  }

  /**
   * `mul64_operate`: the 64-bit pattern of the int64_t result. MULH,
   * MULHSU and MULHU are the high 64 bits of the exact 128-bit product of
   * the signed/signed, signed/unsigned and unsigned/unsigned readings.
   * Division never traps.
   */
  function Mul64(op: MulOp, aRaw: RegisterValueUnion, bRaw: RegisterValueUnion): (r: u64)
    requires aRaw.Scalar? && bRaw.Scalar?
  {
    var a, b := aRaw.i, bRaw.i;
    var x, y := a.AsU64(), b.AsU64();
    var sa, sb := a.AsI64(), b.AsI64();
    match op
    case Mul => WrapMul(x, y, W64)
    case Mulh => HighHalf64(sa * sb)
    case Mulhsu => HighHalf64(sa * y)
    case Mulhu => HighHalf64(x * y)
    case Div => Unsigned(DivEdge(sa, sb, W64), W64)
    case Divu => DivuEdge(x, y, W64)
    case Rem => Unsigned(RemEdge(sa, sb, W64), W64)
    case Remu => RemuEdge(x, y)
  }

  /** `mul32_operate`: computed as the source writes it and returned as int32_t. */
  function Mul32(op: MulOp, aRaw: RegisterValueUnion, bRaw: RegisterValueUnion): (r: i32)
    requires aRaw.Scalar? && bRaw.Scalar?
  {
    var a, b := aRaw.i, bRaw.i;
    var x, y := a.AsU32(), b.AsU32();
    var sa, sb := a.AsI32(), b.AsI32();
    match op
    case Mul => Signed(WrapMul(x, y, W32), W32)
    case Mulh => MulHigh32Chain(sa, sb)
    case Mulhsu => MulHigh32Chain(sa, y)
    case Mulhu => MulHigh32Chain(x, y)
    case Div => DivEdge(sa, sb, W32)
    case Divu => Signed(DivuEdge(x, y, W32), W32)
    case Rem => RemEdge(sa, sb, W32)
    case Remu => Signed(RemuEdge(x, y), W32)
  }

  // ---------------------------------------------------------------------
  // Vector operations
  // ---------------------------------------------------------------------

  /** The exact sum of the first n lanes. */
  function LaneSum(lanes: LaneArray, n: nat): nat
    requires n <= VECTOR_LANES
  {
    if n == 0 then 0 else LaneSum(lanes, n - 1) + lanes[n - 1]
  }

  /** VADDVV: lane i of the result is a[i] + b[i] modulo 2^32, for i < vl. */
  method VectorAddVV(a: VectorRegisterValue, b: VectorRegisterValue, vl: u8) returns (r: VectorRegisterValue)
    requires vl as nat <= VECTOR_LANES
    ensures forall i :: 0 <= i < vl ==> r.Lane(i) == (a.Lane(i) + b.Lane(i)) % 0x1_0000_0000
    ensures forall i :: vl <= i < VECTOR_LANES ==> r.Lane(i) == 0
  {
    var result := new u32[32](_ => 0);
    for i := 0 to vl
      invariant forall j :: 0 <= j < i ==> result[j] == (a.Lane(j) + b.Lane(j)) % 0x1_0000_0000
      invariant forall j :: i <= j < 32 ==> result[j] == 0
    {
      result[i] := Unsigned(a.Lane(i) + b.Lane(i), W32);
    }
    r := VectorRegisterValue(result[..]);
  }

  /** VADDVI: lane i of the result is a[i] plus the scalar's low 32 bits, modulo 2^32. */
  method VectorAddVI(a: VectorRegisterValue, b: RegisterValue, vl: u8) returns (r: VectorRegisterValue)
    requires vl as nat <= VECTOR_LANES
    ensures forall i :: 0 <= i < vl ==> r.Lane(i) == (a.Lane(i) + b.AsU32()) % 0x1_0000_0000
    ensures forall i :: vl <= i < VECTOR_LANES ==> r.Lane(i) == 0
  {
    var result := new u32[32](_ => 0);
    for i := 0 to vl
      invariant forall j :: 0 <= j < i ==> result[j] == (a.Lane(j) + b.AsU32()) % 0x1_0000_0000
      invariant forall j :: i <= j < 32 ==> result[j] == 0
    {
      result[i] := Unsigned(a.Lane(i) + b.AsU32(), W32);
    }
    r := VectorRegisterValue(result[..]);
  }

  /** VMULVV: lane i of the result is a[i] * b[i] modulo 2^32, for i < vl. */
  method VectorMulVV(a: VectorRegisterValue, b: VectorRegisterValue, vl: u8) returns (r: VectorRegisterValue)
    requires vl as nat <= VECTOR_LANES
    ensures forall i :: 0 <= i < vl ==> r.Lane(i) == (a.Lane(i) * b.Lane(i)) % 0x1_0000_0000
    ensures forall i :: vl <= i < VECTOR_LANES ==> r.Lane(i) == 0
  {
    var result := new u32[32](_ => 0);
    for i := 0 to vl
      invariant forall j :: 0 <= j < i ==> result[j] == (a.Lane(j) * b.Lane(j)) % 0x1_0000_0000
      invariant forall j :: i <= j < 32 ==> result[j] == 0
    {
      result[i] := Unsigned(a.Lane(i) * b.Lane(i), W32);
    }
    r := VectorRegisterValue(result[..]);
  }

  /**
   * VREDSUM: the scalar accumulator's low 32 bits plus the first vl lanes,
   * accumulated in uint32_t, i.e. the exact sum modulo 2^32.
   */
  method VectorRedSum(a: RegisterValue, b: VectorRegisterValue, vl: u8) returns (r: RegisterValue)
    requires vl as nat <= VECTOR_LANES
    ensures r.AsU64() == (a.AsU32() + LaneSum(b.data, vl as nat)) % 0x1_0000_0000
  {
    var result: u32 := a.AsU32();
    for i := 0 to vl
      invariant result == (a.AsU32() + LaneSum(b.data, i)) % 0x1_0000_0000
    {
      ModSum(a.AsU32() + LaneSum(b.data, i), b.Lane(i), 0x1_0000_0000);
      result := Unsigned(result + b.Lane(i), W32);
    }
    r := FromU32(result);
  }

  /** The operand tags each vector operation reads. */
  predicate VecOperandsFit(op: VecOp, a: RegisterValueUnion, b: RegisterValueUnion) {
    match op
    case VAddVV => a.Vector? && b.Vector?
    case VAddVI => a.Vector? && b.Scalar?
    case VMulVV => a.Vector? && b.Vector?
    case VRedSum => a.Scalar? && b.Vector?
  }

  /** `vec32_operate`. */
  method Vec32Operate(op: VecOp, a: RegisterValueUnion, b: RegisterValueUnion, vl: u8)
    returns (r: RegisterValueUnion)
    requires vl as nat <= VECTOR_LANES
    requires VecOperandsFit(op, a, b)
    ensures op == VRedSum <==> r.Scalar?
    ensures op == VAddVV ==> forall i :: 0 <= i < vl ==>
      r.v.Lane(i) == (a.v.Lane(i) + b.v.Lane(i)) % 0x1_0000_0000
    ensures op == VAddVI ==> forall i :: 0 <= i < vl ==>
      r.v.Lane(i) == (a.v.Lane(i) + b.i.AsU32()) % 0x1_0000_0000
    ensures op == VMulVV ==> forall i :: 0 <= i < vl ==>
      r.v.Lane(i) == (a.v.Lane(i) * b.v.Lane(i)) % 0x1_0000_0000
    ensures op == VRedSum ==> r.i.AsU64() == (a.i.AsU32() + LaneSum(b.v.data, vl as nat)) % 0x1_0000_0000
  {
    match op
    case VAddVV =>
      var v := VectorAddVV(a.v, b.v, vl);
      r := Vector(v);
    case VAddVI =>
      var v := VectorAddVI(a.v, b.i, vl);
      r := Vector(v);
    case VMulVV =>
      var v := VectorMulVV(a.v, b.v, vl);
      r := Vector(v);
    case VRedSum =>
      var s := VectorRedSum(a.i, b.v, vl);
      r := Scalar(s);
  }

  /** The operation code is read as the member its component selects. */
  predicate OpFits(component: AluComponent, op: AluCombinedOp) {
    match component
    case ComponentAlu => op.AluOpCode?
    case ComponentMul => op.MulOpCode?
    case ComponentVec => op.VecOpCode?
    case ComponentPass => true
  }

  /** The operand tags the selected routine reads. */
  predicate OperandsFit(component: AluComponent, op: AluCombinedOp, a: RegisterValueUnion, b: RegisterValueUnion)
    requires OpFits(component, op)
  {
    match component
    case ComponentAlu => a.Scalar? && b.Scalar?
    case ComponentMul => a.Scalar? && b.Scalar?
    case ComponentVec => VecOperandsFit(op.vecOp, a, b)
    case ComponentPass => true
  }

  /**
   * `alu_combined_operate`. The conditional `w ? op32(..) : op64(..)` has
   * type int64_t, so a 32-bit result is sign-extended to 64 bits before it
   * reaches `RegisterValue(int64_t)`; a 64-bit result is stored as it is.
   */
  method AluCombinedOperate(op: AluCombinedOp, component: AluComponent, wOperation: bool, modified: bool,
                            a: RegisterValueUnion, b: RegisterValueUnion, vl: u8)
    returns (r: RegisterValueUnion)
    requires OpFits(component, op) && OperandsFit(component, op, a, b)
    requires component == ComponentVec ==> vl as nat <= VECTOR_LANES
    ensures component == ComponentAlu && wOperation ==>
      r.Scalar? && r.i.AsI64() == Alu32(op.aluOp, modified, a, b)
    ensures component == ComponentAlu && !wOperation ==>
      r.Scalar? && r.i.AsU64() == Alu64(op.aluOp, modified, a, b)
    ensures component == ComponentMul && wOperation ==>
      r.Scalar? && r.i.AsI64() == Mul32(op.mulOp, a, b)
    ensures component == ComponentMul && !wOperation ==>
      r.Scalar? && r.i.AsU64() == Mul64(op.mulOp, a, b)
    ensures component == ComponentVec && op.vecOp == VRedSum ==>
      r.Scalar? && r.i.AsU64() == (a.i.AsU32() + LaneSum(b.v.data, vl as nat)) % 0x1_0000_0000
    ensures component == ComponentVec && op.vecOp != VRedSum ==> r.Vector?
    ensures component == ComponentVec && op.vecOp == VAddVV ==> forall i :: 0 <= i < vl ==>
      r.v.Lane(i) == (a.v.Lane(i) + b.v.Lane(i)) % 0x1_0000_0000
    ensures component == ComponentVec && op.vecOp == VAddVI ==> forall i :: 0 <= i < vl ==>
      r.v.Lane(i) == (a.v.Lane(i) + b.i.AsU32()) % 0x1_0000_0000
    ensures component == ComponentVec && op.vecOp == VMulVV ==> forall i :: 0 <= i < vl ==>
      r.v.Lane(i) == (a.v.Lane(i) * b.v.Lane(i)) % 0x1_0000_0000
    ensures component == ComponentPass ==> r == a
  {
    match component
    case ComponentAlu =>
      r := Scalar(if wOperation then FromI64(Alu32(op.aluOp, modified, a, b))
                  else FromU64(Alu64(op.aluOp, modified, a, b)));
    case ComponentMul =>
      r := Scalar(if wOperation then FromI64(Mul32(op.mulOp, a, b))
                  else FromU64(Mul64(op.mulOp, a, b)));
    case ComponentVec =>
      r := Vec32Operate(op.vecOp, a, b, vl);
    case ComponentPass =>
      r := a;
  }
}
