/**
 * Register values: a scalar 64-bit pattern with no signedness or width, a
 * vector of 32 lanes of 32 bits, and the tagged union of the two that every
 * pipeline slot carries.
 */
module RegisterValues {
  import opened Bits

  const VECTOR_LANES: nat := 32

  /** The machine word length that `as_xlen` selects. */
  datatype Xlen = Xlen32 | Xlen64

  /**
   * A scalar register value. `data` is the stored 64-bit pattern, kept as
   * its unsigned value; every reading of it is an explicit accessor.
   */
  datatype RegisterValue = RegisterValue(data: u64) {

    /** The low bits of the pattern read as an unsigned number of width w. */
    function AsUnsigned(w: Width): (r: nat)
      ensures r < w.Modulus()
      ensures (data - r) % w.Modulus() == 0
    {
      Unsigned(data, w)
    }

    /** The low bits of the pattern read as a two's-complement number of width w. */
    function AsSigned(w: Width): (r: int)
      ensures -(w.Half() as int) <= r < w.Half()
      ensures (data - r) % w.Modulus() == 0
    {
      var r := Signed(data, w);
      assert (data - r) % w.Modulus() == 0 by {
        assert Unsigned(r, w) == Unsigned(data, w);
      }
      r
    }

    function AsU8(): u8 { AsUnsigned(W8) }
    function AsU16(): u16 { AsUnsigned(W16) }
    function AsU32(): u32 { AsUnsigned(W32) }
    /** The full 64-bit pattern is the stored data itself. */
    function AsU64(): (r: u64)
      ensures r == data
    {
      AsUnsigned(W64)
    }
    function AsI8(): i8 { AsSigned(W8) }
    function AsI16(): i16 { AsSigned(W16) }
    function AsI32(): i32 { AsSigned(W32) }
    function AsI64(): i64 { AsSigned(W64) }

    /** The value as an unsigned machine word of the given length. */
    function AsXlen(xlen: Xlen): (r: u64)
      ensures xlen == Xlen32 ==> r < 0x1_0000_0000 && (data - r) % 0x1_0000_0000 == 0
      ensures xlen == Xlen64 ==> r == data
    {
      match xlen
      case Xlen32 => AsU32()
      case Xlen64 => AsU64()
    }

    /** Bit-by-bit equality of the stored patterns. */
    function Equals(other: RegisterValue): (r: bool)
      ensures r <==> this == other
    {
      data == other.data
    }

    function NotEquals(other: RegisterValue): (r: bool)
      ensures r <==> this != other
    {
      !other.Equals(this)
    }
  }

  /** `RegisterValue()`: the all-zero pattern. */
  function Zero(): (r: RegisterValue)
    ensures forall w: Width :: r.AsUnsigned(w) == 0 && r.AsSigned(w) == 0
  {
    RegisterValue(0)
  }

  /** The unsigned constructors keep the value and zero-extend it. */
  function FromU64(value: u64): (r: RegisterValue)
    ensures r.AsU64() == value
  {
    RegisterValue(value)
  }

  function FromU32(value: u32): (r: RegisterValue)
    ensures r.AsU64() == value && r.AsU32() == value
  {
    RegisterValue(value)
  }

  /** The signed constructors store the value sign-extended to 64 bits. */
  function FromI64(value: i64): (r: RegisterValue)
    ensures r.AsI64() == value
  {
    var r := RegisterValue(Unsigned(value, W64));
    SignedOfInRange(value, W64);
    r
  }

  function FromI32(value: i32): (r: RegisterValue)
    ensures r.AsI32() == value && r.AsI64() == value
  {
    SignExtend(value, W32)
  }

  function FromI16(value: i16): (r: RegisterValue)
    ensures r.AsI16() == value && r.AsI64() == value
  {
    SignExtend(value, W16)
  }

  function FromI8(value: i8): (r: RegisterValue)
    ensures r.AsI8() == value && r.AsI64() == value
  {
    SignExtend(value, W8)
  }

  /**
   * C++ conversion of a signed value of width w into the 64-bit container:
   * the value modulo 2^64, so that every bit above w copies the sign bit.
   */
  function SignExtend(value: int, w: Width): (r: RegisterValue)
    requires -(w.Half() as int) <= value < w.Half()
    ensures r.AsSigned(w) == value && r.AsSigned(W64) == value
  {
    var r := RegisterValue(Unsigned(value, W64));
    NarrowTruncation(value, w);
    SignedOfInRange(value, w);
    SignedOfInRange(value, W64);
    r
  }

  /** Truncating to 64 bits and then to w bits is truncating to w bits. */
  lemma NarrowTruncation(x: int, w: Width)
    ensures Unsigned(Unsigned(x, W64), w) == Unsigned(x, w)
  {
    Truncation(x, w, W64);
  }

  /** Truncating to a wide width and then to a narrow one is truncating to the narrow one. */
  lemma Truncation(x: int, narrow: Width, wide: Width)
    requires narrow.Bits() <= wide.Bits()
    ensures Unsigned(Unsigned(x, wide), narrow) == Unsigned(x, narrow)
  {
    var m := narrow.Modulus();
    var k := wide.Modulus() / m;
    assert wide.Modulus() == m * k by {
      match narrow
      case W8 =>
      case W16 =>
      case W32 =>
      case W64 =>
    }
    ModOfMultiple(x, m, k);
  }

  lemma ModOfMultiple(x: int, m: int, k: int)
    requires m > 0 && k > 0
    ensures (x % (m * k)) % m == x % m
  {
    var q, r := x / (m * k), x % (m * k);
    assert x == (m * k) * q + r;
    assert (m * k) * q == m * (k * q);
    ModAddMultiple(r, k * q, m);
  }

  /** The sign-extending constructors, read back with the matching accessor. */
  lemma SignedRoundTrips(v8: i8, v16: i16, v32: i32, v64: i64)
    ensures FromI8(v8).AsI8() == v8 && FromI8(v8).AsU8() == Unsigned(v8, W8)
    ensures FromI16(v16).AsI16() == v16 && FromI16(v16).AsU16() == Unsigned(v16, W16)
    ensures FromI32(v32).AsI32() == v32 && FromI32(v32).AsU32() == Unsigned(v32, W32)
    ensures FromI64(v64).AsI64() == v64 && FromI64(v64).AsU64() == Unsigned(v64, W64)
  {
    NarrowTruncation(v8, W8);
    NarrowTruncation(v16, W16);
    NarrowTruncation(v32, W32);
  }

  /** Sign extension: the stored pattern is the value, or 2^64 plus a negative value. */
  lemma SignExtensionPattern(v: i32)
    ensures v >= 0 ==> FromI32(v).data == v
    ensures v < 0 ==> FromI32(v).data == 0x1_0000_0000_0000_0000 + v
    ensures v < 0 ==> FromI32(v).data / 0x8000_0000 == 0x1_FFFF_FFFF
    ensures v >= 0 ==> FromI32(v).data / 0x8000_0000 == 0
  {
  }

  /** Every accessor is the one of a wider width, truncated. */
  lemma AccessorsTruncate(x: RegisterValue)
    ensures x.AsU8() == x.AsU16() % 0x100 == x.AsU32() % 0x100
    ensures x.AsU16() == x.AsU32() % 0x1_0000
    ensures x.AsU32() == x.AsU64() % 0x1_0000_0000
    ensures x.AsI32() == Signed(x.AsI64(), W32)
  {
    Truncation(x.data, W8, W16);
    Truncation(x.data, W8, W32);
    Truncation(x.data, W16, W32);
    assert Unsigned(x.AsI64(), W32) == Unsigned(x.data, W32) by {
      Truncation(x.AsI64(), W32, W64);
      Truncation(x.data, W32, W64);
    }
  }

  // ---------------------------------------------------------------------
  // Vector register values
  // ---------------------------------------------------------------------

  type LaneArray = s: seq<u32> | |s| == 32 witness seq(32, i => 0)

  /** A vector register value of 32 lanes of 32-bit patterns. */
  datatype VectorRegisterValue = VectorRegisterValue(data: LaneArray) {

    function AsVec(): LaneArray { data }

    /** `value[index]` read through the const subscript. */
    function Lane(index: nat): u32
      requires index < VECTOR_LANES
    {
      data[index]
    }

    /** `value[index] = x` through the mutable lane reference. */
    function WithLane(index: nat, x: u32): (r: VectorRegisterValue)
      requires index < VECTOR_LANES
      ensures r.Lane(index) == x
      ensures forall j :: 0 <= j < VECTOR_LANES && j != index ==> r.Lane(j) == Lane(j)
    {
      VectorRegisterValue(data[index := x])
    }

    /** Equality compares all 32 lanes, active or not. */
    function Equals(other: VectorRegisterValue): (r: bool)
      ensures r <==> forall j :: 0 <= j < VECTOR_LANES ==> data[j] == other.data[j]
      ensures r <==> this == other
    {
      assert |data| == |other.data| == VECTOR_LANES;
      data == other.data
    }

    function NotEquals(other: VectorRegisterValue): (r: bool)
      ensures r <==> exists j :: 0 <= j < VECTOR_LANES && data[j] != other.data[j]
    {
      !other.Equals(this)
    }
  }

  /** `VectorRegisterValue()`: every lane zero. */
  function ZeroVector(): (r: VectorRegisterValue)
    ensures forall j :: 0 <= j < VECTOR_LANES ==> r.Lane(j) == 0
  {
    VectorRegisterValue(seq(32, j => 0))
  }

  // ---------------------------------------------------------------------
  // The tagged union
  // ---------------------------------------------------------------------

  /** The tag of a union: which member is valid. */
  datatype RegisterValueType = TypeI | TypeV

  /**
   * `RegisterValueUnion` as a sum type: the constructor is the tag and the
   * payload is the union member that tag selects.
   */
  datatype RegisterValueUnion = Scalar(i: RegisterValue) | Vector(v: VectorRegisterValue) {
    function Type(): RegisterValueType {
      if Scalar? then TypeI else TypeV
    }

    /** Tags first, then the payloads of that tag. */
    function Equals(other: RegisterValueUnion): (r: bool)
      ensures Type() != other.Type() ==> !r
      ensures r <==> this == other
    {
      if Type() != other.Type() then false
      else if Type() == TypeI then i.Equals(other.i)
      else v.Equals(other.v)
    }
  }

  /** `RegisterValueUnion()`: a scalar zero. */
  function DefaultUnion(): (r: RegisterValueUnion)
    ensures r.Type() == TypeI && r.i.AsU64() == 0
  {
    Scalar(Zero())
  }

  /** `RegisterValueUnion(register_storage_t)`. */
  function UnionFromBits(value: u64): (r: RegisterValueUnion)
    ensures r.Type() == TypeI && r.i.AsU64() == value
  {
    Scalar(RegisterValue(value))
  }

  /** `RegisterValueUnion(vector_register_storage_t)`. */
  function UnionFromLanes(value: LaneArray): (r: RegisterValueUnion)
    ensures r.Type() == TypeV
    ensures forall j :: 0 <= j < VECTOR_LANES ==> r.v.Lane(j) == value[j]
  {
    Vector(VectorRegisterValue(value))
  }

  /**
   * A `RegisterValueUnion` object that is assigned to in place: the tag and
   * the two members of the C++ union. Assigning one member leaves the other
   * unspecified, as the shared storage is overwritten.
   */
  class UnionObject {
    var tag: RegisterValueType
    var i: RegisterValue
    var v: VectorRegisterValue

    /** The value the object currently holds: the member its tag selects. */
    function Value(): RegisterValueUnion
      reads this
    {
      if tag == TypeI then Scalar(i) else Vector(v)
    }

    constructor ()
      ensures Value() == DefaultUnion()
    {
      tag := TypeI;
      i := Zero();
      v := ZeroVector();
    }

    /** `operator=(RegisterValue)`; returns the copy of `*this`. */
    method AssignScalar(value: RegisterValue) returns (copy: RegisterValueUnion)
      modifies this
      ensures tag == TypeI && i == value
      ensures Value() == Scalar(value) && copy == Value()
    {
      tag := TypeI;
      i := value;
      copy := Value();
    }

    /** `operator=(register_storage_t)`. */
    method AssignBits(value: u64) returns (copy: RegisterValueUnion)
      modifies this
      ensures tag == TypeI && i.AsU64() == value
      ensures Value() == UnionFromBits(value) && copy == Value()
    {
      tag := TypeI;
      i := RegisterValue(value);
      copy := Value();
    }

    /** `operator=(VectorRegisterValue)`. */
    method AssignVector(value: VectorRegisterValue) returns (copy: RegisterValueUnion)
      modifies this
      ensures tag == TypeV && v == value
      ensures Value() == Vector(value) && copy == Value()
    {
      tag := TypeV;
      v := value;
      copy := Value();
    }

    /** `operator=(vector_register_storage_t)`. */
    method AssignLanes(value: LaneArray) returns (copy: RegisterValueUnion)
      modifies this
      ensures tag == TypeV && v.AsVec() == value
      ensures Value() == UnionFromLanes(value) && copy == Value()
    {
      tag := TypeV;
      v := VectorRegisterValue(value);
      copy := Value();
    }
  }
}
