/**
 * The memory frontend: typed reads and writes of 1, 2, 4 and 8 bytes in the
 * simulated machine's byte order, vector transfers of `vl` 32-bit lanes, and
 * the access-control dispatch of `read_ctl`/`write_ctl`.
 *
 * The backend the frontend calls is a byte map laid out in the host's
 * (native) order; a byte that was never written reads as zero. Addresses are
 * 64-bit and wrap around.
 */
module FrontendMemories {
  import opened Bits
  import opened ByteOrder
  import opened RegisterValues

  type Address = u64
  type Memory = map<Address, u8>

  const ADDRESS_SPACE: nat := 0x1_0000_0000_0000_0000

  /** `address + k` on the 64-bit address type. */
  function AddrAdd(address: Address, k: nat): (r: Address)
    ensures (address + k - r) % ADDRESS_SPACE == 0
  {
    (address + k) % ADDRESS_SPACE
  }

  /** How far x lies above base, counting with wrap-around. */
  function Offset(base: Address, x: Address): (k: nat)
    ensures k < ADDRESS_SPACE
  {
    (x - base) % ADDRESS_SPACE
  }

  /** The thrown `SimulatorException`s, as values. */
  datatype SimulatorException = UnknownMemoryControl(ctl: nat)

  datatype Result<T> = Ok(value: T) | Err(error: SimulatorException)

  /** The access-control codes; any other code is unknown. */
  datatype AccessControl =
    | AcNone
    | AcI8 | AcU8 | AcI16 | AcU16 | AcI32 | AcU32 | AcI64 | AcU64
    | AcV32
    | AcUnknown(code: nat)

  // ---------------------------------------------------------------------
  // The byte-map backend
  // ---------------------------------------------------------------------

  function ByteAt(mem: Memory, x: Address): u8 {
    if x in mem then mem[x] else 0
  }

  /** The n bytes at address, in address order. */
  function Load(mem: Memory, address: Address, n: nat): (r: seq<u8>)
    ensures |r| == n
  {
    seq(n, k requires 0 <= k => ByteAt(mem, AddrAdd(address, k)))
  }

  /** The addresses of an n-byte access at address. */
  function Footprint(address: Address, n: nat): set<Address> {
    set k | 0 <= k < n :: AddrAdd(address, k)
  }

  /** The memory after storing bytes at address, in address order. */
  function Store(mem: Memory, address: Address, bytes: seq<u8>): Memory
    requires |bytes| <= ADDRESS_SPACE
  {
    map x | x in mem.Keys + Footprint(address, |bytes|) ::
      if Offset(address, x) < |bytes| then bytes[Offset(address, x)] else ByteAt(mem, x)
  }

  /** A store sets exactly the bytes it covers. */
  lemma StoreByteAt(mem: Memory, address: Address, bytes: seq<u8>, x: Address)
    requires |bytes| <= ADDRESS_SPACE
    ensures ByteAt(Store(mem, address, bytes), x)
         == if Offset(address, x) < |bytes| then bytes[Offset(address, x)] else ByteAt(mem, x)
  {
    if Offset(address, x) < |bytes| {
      OffsetInverse(address, x);
      assert x in Footprint(address, |bytes|);
    }
  }

  lemma OffsetOfAdd(address: Address, k: nat)
    requires k < ADDRESS_SPACE
    ensures Offset(address, AddrAdd(address, k)) == k
  {
    var x := AddrAdd(address, k);
    var q := (address + k) / ADDRESS_SPACE;
    assert x - address == k - ADDRESS_SPACE * q;
    ModAddMultiple(k, -q, ADDRESS_SPACE);
  }

  lemma OffsetInverse(base: Address, x: Address)
    ensures AddrAdd(base, Offset(base, x)) == x
  {
    var k := Offset(base, x);
    var q := (x - base) / ADDRESS_SPACE;
    assert base + k == x + ADDRESS_SPACE * (-q);
    ModAddMultiple(x, -q, ADDRESS_SPACE);
  }

  lemma AddrAddAssoc(address: Address, j: nat, k: nat)
    ensures AddrAdd(AddrAdd(address, j), k) == AddrAdd(address, j + k)
  {
    var q := (address + j) / ADDRESS_SPACE;
    assert AddrAdd(address, j) + k == (address + j + k) + ADDRESS_SPACE * (-q);
    ModAddMultiple(address + j + k, -q, ADDRESS_SPACE);
  }

  /** The value of width n at address, read in byte order e. */
  function LoadValue(mem: Memory, address: Address, n: nat, e: Endian): (r: nat)
    ensures r < Pow256(n)
  {
    FromBytesBound(Load(mem, address, n), e);
    FromBytes(Load(mem, address, n), e)
  }

  // ---------------------------------------------------------------------
  // Vector lanes
  // ---------------------------------------------------------------------

  /** `address + i * sizeof(uint32_t)`: where lane i is transferred. */
  function LaneAddress(address: Address, i: nat): Address {
    AddrAdd(address, 4 * i)
  }

  /** Memory after the first k lane writes of `write_vec_u32`, in ascending lane order. */
  function StoreLanes(mem: Memory, address: Address, lanes: LaneArray, k: nat, e: Endian): Memory
    requires k <= VECTOR_LANES
  {
    if k == 0 then mem
    else Store(StoreLanes(mem, address, lanes, k - 1, e), LaneAddress(address, k - 1), ToBytes(lanes[k - 1], 4, e))
  }

  /** The lanes `read_vec_u32` fills: lanes below vl from memory, the rest zero. */
  function LoadLanes(mem: Memory, address: Address, vl: nat, e: Endian): (r: LaneArray)
    requires vl <= VECTOR_LANES
  {
    seq(32, i requires 0 <= i < 32 => if i < vl then LoadValue(mem, LaneAddress(address, i), 4, e) else 0)
  }

  /** Whether the write of lane j reports a change, against the memory before the vector write. */
  predicate LaneChanged(mem: Memory, address: Address, lanes: LaneArray, j: nat, e: Endian)
    requires j < VECTOR_LANES
  {
    LoadValue(mem, LaneAddress(address, j), 4, e) != lanes[j]
  }

  /** The value held before a write differs from the one written exactly when the bytes differ. */
  lemma ChangedMeansBytesDiffer(mem: Memory, address: Address, v: nat, n: nat, e: Endian)
    requires v < Pow256(n)
    ensures (LoadValue(mem, address, n, e) != v) <==> (Load(mem, address, n) != ToBytes(v, n, e))
  {
    FromToBytes(v, n, e);
    ToFromBytes(Load(mem, address, n), e);
  }

  /** Whether the writes of lanes 0 .. k - 1 all report a change. */
  predicate AllLanesChanged(mem: Memory, address: Address, lanes: LaneArray, k: nat, e: Endian)
    requires k <= VECTOR_LANES
  {
    k == 0 || (AllLanesChanged(mem, address, lanes, k - 1, e) && LaneChanged(mem, address, lanes, k - 1, e))
  }

  lemma {:induction false} AllLanesChangedMeaning(mem: Memory, address: Address, lanes: LaneArray, k: nat, e: Endian)
    requires k <= VECTOR_LANES
    ensures AllLanesChanged(mem, address, lanes, k, e) <==> forall j :: 0 <= j < k ==> LaneChanged(mem, address, lanes, j, e)
  {
    if k > 0 {
      AllLanesChangedMeaning(mem, address, lanes, k - 1, e);
    }
  }

  // ---------------------------------------------------------------------
  // The access-control dispatch, as functions of the memory
  // ---------------------------------------------------------------------

  /** The width of a scalar code. */
  function CtlWidth(ctl: AccessControl): Width
    requires IsScalarCtl(ctl)
  {
    match ctl
    case AcI8 => W8
    case AcU8 => W8
    case AcI16 => W16
    case AcU16 => W16
    case AcI32 => W32
    case AcU32 => W32
    case AcI64 => W64
    case AcU64 => W64
  }

  predicate IsScalarCtl(ctl: AccessControl) {
    !(ctl.AcNone? || ctl.AcV32? || ctl.AcUnknown?)
  }

  predicate IsSignedCtl(ctl: AccessControl) {
    ctl.AcI8? || ctl.AcI16? || ctl.AcI32? || ctl.AcI64?
  }

  /** The operand a code reads must carry the matching tag; V32 needs vl <= 32. */
  predicate CtlOperandFits(ctl: AccessControl, value: RegisterValueUnion, vl: nat) {
    (IsScalarCtl(ctl) ==> value.Scalar?) && (ctl.AcV32? ==> value.Vector? && vl <= VECTOR_LANES)
  }

  /** What `write_ctl` reports: an exception for an unknown code. */
  function CtlOutcome(ctl: AccessControl): Result<()> {
    if ctl.AcUnknown? then Err(UnknownMemoryControl(ctl.code)) else Ok(())
  }

  /**
   * The memory after `write_ctl`: a scalar code stores the low w bits of the
   * register in w/8 bytes whatever its signedness, AC_V32 stores vl lanes,
   * and AC_NONE and unknown codes store nothing.
   */
  function StoreCtl(mem: Memory, ctl: AccessControl, offset: Address, value: RegisterValueUnion, vl: nat, e: Endian): Memory
    requires CtlOperandFits(ctl, value, vl)
  {
    if IsScalarCtl(ctl) then
      Store(mem, offset, ToBytes(value.i.AsUnsigned(CtlWidth(ctl)), CtlWidth(ctl).Bytes(), e))
    else if ctl.AcV32? then
      StoreLanes(mem, offset, value.v.data, vl, e)
    else
      mem
  }

  /**
   * The result of `read_ctl`. The signed codes go through the intN_t
   * constructors; `RegisterValue(uint8_t)` and `RegisterValue(uint16_t)`
   * promote their argument to int and so pick the int32_t constructor.
   */
  function LoadCtl(mem: Memory, ctl: AccessControl, address: Address, vl: nat, e: Endian): Result<RegisterValueUnion>
    requires ctl.AcV32? ==> vl <= VECTOR_LANES
  {
    match ctl
    case AcNone => Ok(Scalar(Zero()))
    case AcI8 => Ok(Scalar(FromI8(Signed(LoadValue(mem, address, 1, e), W8))))
    case AcU8 => Ok(Scalar(FromI32(LoadValue(mem, address, 1, e))))
    case AcI16 => Ok(Scalar(FromI16(Signed(LoadValue(mem, address, 2, e), W16))))
    case AcU16 => Ok(Scalar(FromI32(LoadValue(mem, address, 2, e))))
    case AcI32 => Ok(Scalar(FromI32(Signed(LoadValue(mem, address, 4, e), W32))))
    case AcU32 => Ok(Scalar(FromU32(LoadValue(mem, address, 4, e))))
    case AcI64 => Ok(Scalar(FromI64(Signed(LoadValue(mem, address, 8, e), W64))))
    case AcU64 => Ok(Scalar(FromU64(LoadValue(mem, address, 8, e))))
    case AcV32 => Ok(Vector(VectorRegisterValue(LoadLanes(mem, address, vl, e))))
    case AcUnknown(code) => Err(UnknownMemoryControl(code))
  }

  // ---------------------------------------------------------------------
  // The frontend object
  // ---------------------------------------------------------------------

  class FrontendMemory {
    const simulatedEndian: Endian
    const nativeEndian: Endian
    var mem: Memory

    /** `FrontendMemory(simulated_endian)` over an empty backend. */
    constructor (simulated: Endian, native: Endian)
      ensures simulatedEndian == simulated && nativeEndian == native && mem == map[]
    {
      simulatedEndian := simulated;
      nativeEndian := native;
      mem := map[];
    }

    /**
     * `read_generic<T>` with sizeof(T) == n: the backend's n bytes taken in
     * native order, swapped when the simulated order differs. The result
     * is the value as the simulated machine reads those bytes.
     */
    function ReadGeneric(address: Address, n: nat): (r: nat)
      reads this
      ensures r == LoadValue(mem, address, n, simulatedEndian)
    {
      NativeLoadIsSimulatedOrder(Load(mem, address, n), simulatedEndian, nativeEndian);
      ByteSwapIf(FromBytes(Load(mem, address, n), nativeEndian), n, simulatedEndian != nativeEndian)
    }

    /**
     * `write_generic<T>` with sizeof(T) == n: swap when the orders differ,
     * then store the native bytes. The bytes land in the simulated order.
     * `changed` is the backend's report that the write altered the bytes it
     * held, stated as the value held before differing from the value
     * written (ChangedMeansBytesDiffer shows the two agree).
     */
    method WriteGeneric(address: Address, value: nat, n: nat) returns (changed: bool)
      requires value < Pow256(n) && n <= 8
      modifies this
      ensures mem == Store(old(mem), address, ToBytes(value, n, simulatedEndian))
      ensures changed == (LoadValue(old(mem), address, n, simulatedEndian) != value)
    {
      var swapped := ByteSwapIf(value, n, simulatedEndian != nativeEndian);
      NativeStoreIsSimulatedOrder(value, n, simulatedEndian, nativeEndian);
      var bytes := ToBytes(swapped, n, nativeEndian);
      changed := ReadGeneric(address, n) != value;
      mem := Store(mem, address, bytes);
    }

    function ReadU8(address: Address): (r: u8)
      reads this
      ensures r == LoadValue(mem, address, 1, simulatedEndian)
    {
      ReadGeneric(address, 1)
    }

    function ReadU16(address: Address): (r: u16)
      reads this
      ensures r == LoadValue(mem, address, 2, simulatedEndian)
    {
      ReadGeneric(address, 2)
    }

    function ReadU32(address: Address): (r: u32)
      reads this
      ensures r == LoadValue(mem, address, 4, simulatedEndian)
    {
      ReadGeneric(address, 4)
    }

    function ReadU64(address: Address): (r: u64)
      reads this
      ensures r == LoadValue(mem, address, 8, simulatedEndian)
    {
      ReadGeneric(address, 8)
    }

    method WriteU8(address: Address, value: u8) returns (changed: bool)
      modifies this
      ensures mem == Store(old(mem), address, ToBytes(value, 1, simulatedEndian))
      ensures changed == (LoadValue(old(mem), address, 1, simulatedEndian) != value)
    {
      changed := WriteGeneric(address, value, 1);
    }

    method WriteU16(address: Address, value: u16) returns (changed: bool)
      modifies this
      ensures mem == Store(old(mem), address, ToBytes(value, 2, simulatedEndian))
      ensures changed == (LoadValue(old(mem), address, 2, simulatedEndian) != value)
    {
      changed := WriteGeneric(address, value, 2);
    }

    method WriteU32(address: Address, value: u32) returns (changed: bool)
      modifies this
      ensures mem == Store(old(mem), address, ToBytes(value, 4, simulatedEndian))
      ensures changed == (LoadValue(old(mem), address, 4, simulatedEndian) != value)
    {
      changed := WriteGeneric(address, value, 4);
    }

    method WriteU64(address: Address, value: u64) returns (changed: bool)
      modifies this
      ensures mem == Store(old(mem), address, ToBytes(value, 8, simulatedEndian))
      ensures changed == (LoadValue(old(mem), address, 8, simulatedEndian) != value)
    {
      changed := WriteGeneric(address, value, 8);
    }

    /**
     * `write_vec_u32`: vl 4-byte writes at address + 4*i in ascending i;
     * the result is true exactly when every lane's write reported a change.
     */
    method WriteVecU32(address: Address, value: LaneArray, vl: u8) returns (flag: bool)
      requires vl as nat <= VECTOR_LANES
      modifies this
      ensures mem == StoreLanes(old(mem), address, value, vl as nat, simulatedEndian)
      ensures flag <==> forall j :: 0 <= j < vl ==> LaneChanged(old(mem), address, value, j, simulatedEndian)
    {
      flag := true;
      for i := 0 to vl
        invariant mem == StoreLanes(old(mem), address, value, i, simulatedEndian)
        invariant flag == AllLanesChanged(old(mem), address, value, i, simulatedEndian)
      {
        LaneWriteStep(old(mem), address, value, i, simulatedEndian);
        var changed := WriteU32(LaneAddress(address, i), value[i]);
        flag := flag && changed;
      }
      AllLanesChangedMeaning(old(mem), address, value, vl as nat, simulatedEndian);
    }

    /** `read_vec_u32`: lanes below vl read from address + 4*i; the others are zero. */
    method ReadVecU32(address: Address, vl: u8) returns (value: LaneArray)
      requires vl as nat <= VECTOR_LANES
      ensures value == LoadLanes(mem, address, vl as nat, simulatedEndian)
    {
      var lanes := new u32[32](_ => 0);
      for i := 0 to vl
        invariant forall j :: 0 <= j < i ==> lanes[j] == LoadValue(mem, LaneAddress(address, j), 4, simulatedEndian)
        invariant forall j :: i <= j < 32 ==> lanes[j] == 0
      {
        lanes[i] := ReadU32(LaneAddress(address, i));
      }
      value := lanes[..];
      assert forall j :: 0 <= j < 32 ==> value[j] == LoadLanes(mem, address, vl as nat, simulatedEndian)[j];
    }

    /** `write_ctl`: the write the code selects, or UnknownMemoryControl with memory untouched. */
    method WriteCtl(ctl: AccessControl, offset: Address, value: RegisterValueUnion, vl: u8) returns (result: Result<()>)
      requires CtlOperandFits(ctl, value, vl as nat)
      modifies this
      ensures result == CtlOutcome(ctl)
      ensures mem == StoreCtl(old(mem), ctl, offset, value, vl as nat, simulatedEndian)
    {
      result := Ok(());
      match ctl
      case AcNone =>
      case AcI8 =>
        assert value.i.AsU8() == value.i.AsUnsigned(CtlWidth(ctl)) && CtlWidth(ctl).Bytes() == 1;
        var _ := WriteU8(offset, value.i.AsU8());
      case AcU8 =>
        assert value.i.AsU8() == value.i.AsUnsigned(CtlWidth(ctl)) && CtlWidth(ctl).Bytes() == 1;
        var _ := WriteU8(offset, value.i.AsU8());
      case AcI16 =>
        assert value.i.AsU16() == value.i.AsUnsigned(CtlWidth(ctl)) && CtlWidth(ctl).Bytes() == 2;
        var _ := WriteU16(offset, value.i.AsU16());
      case AcU16 =>
        assert value.i.AsU16() == value.i.AsUnsigned(CtlWidth(ctl)) && CtlWidth(ctl).Bytes() == 2;
        var _ := WriteU16(offset, value.i.AsU16());
      case AcI32 =>
        assert value.i.AsU32() == value.i.AsUnsigned(CtlWidth(ctl)) && CtlWidth(ctl).Bytes() == 4;
        var _ := WriteU32(offset, value.i.AsU32());
      case AcU32 =>
        assert value.i.AsU32() == value.i.AsUnsigned(CtlWidth(ctl)) && CtlWidth(ctl).Bytes() == 4;
        var _ := WriteU32(offset, value.i.AsU32());
      case AcI64 =>
        assert value.i.AsU64() == value.i.AsUnsigned(CtlWidth(ctl)) && CtlWidth(ctl).Bytes() == 8;
        var _ := WriteU64(offset, value.i.AsU64());
      case AcU64 =>
        assert value.i.AsU64() == value.i.AsUnsigned(CtlWidth(ctl)) && CtlWidth(ctl).Bytes() == 8;
        var _ := WriteU64(offset, value.i.AsU64());
      case AcV32 => var _ := WriteVecU32(offset, value.v.AsVec(), vl);
      case AcUnknown(code) => result := Err(UnknownMemoryControl(code));
    }

    /** `read_ctl`: the read the code selects, extended as the code says, or UnknownMemoryControl. */
    method ReadCtl(ctl: AccessControl, address: Address, vl: u8) returns (result: Result<RegisterValueUnion>)
      requires ctl.AcV32? ==> vl as nat <= VECTOR_LANES
      ensures result == LoadCtl(mem, ctl, address, vl as nat, simulatedEndian)
    {
      match ctl
      case AcNone => result := Ok(Scalar(Zero()));
      case AcI8 => result := Ok(Scalar(FromI8(Signed(ReadU8(address), W8))));
      case AcU8 => result := Ok(Scalar(FromI32(ReadU8(address))));
      case AcI16 => result := Ok(Scalar(FromI16(Signed(ReadU16(address), W16))));
      case AcU16 => result := Ok(Scalar(FromI32(ReadU16(address))));
      case AcI32 => result := Ok(Scalar(FromI32(Signed(ReadU32(address), W32))));
      case AcU32 => result := Ok(Scalar(FromU32(ReadU32(address))));
      case AcI64 => result := Ok(Scalar(FromI64(Signed(ReadU64(address), W64))));
      case AcU64 => result := Ok(Scalar(FromU64(ReadU64(address))));
      case AcV32 =>
        var lanes := ReadVecU32(address, vl);
        result := Ok(Vector(VectorRegisterValue(lanes)));
      case AcUnknown(code) => result := Err(UnknownMemoryControl(code));
    }
  }

  // ---------------------------------------------------------------------
  // Lane disjointness
  // ---------------------------------------------------------------------

  /** Storing an n-byte access leaves every byte it does not cover as it was. */
  lemma LoadUnaffected(mem: Memory, address: Address, bytes: seq<u8>, other: Address, n: nat)
    requires |bytes| <= ADDRESS_SPACE
    requires forall k :: 0 <= k < n ==> Offset(address, AddrAdd(other, k)) >= |bytes|
    ensures Load(Store(mem, address, bytes), other, n) == Load(mem, other, n)
  {
    forall k | 0 <= k < n
      ensures Load(Store(mem, address, bytes), other, n)[k] == Load(mem, other, n)[k]
    {
      StoreByteAt(mem, address, bytes, AddrAdd(other, k));
    }
  }

  /** Storing bytes and loading them back at the same address gives the bytes. */
  lemma LoadAfterStore(mem: Memory, address: Address, bytes: seq<u8>)
    requires |bytes| <= 8
    ensures Load(Store(mem, address, bytes), address, |bytes|) == bytes
  {
    forall k | 0 <= k < |bytes|
      ensures Load(Store(mem, address, bytes), address, |bytes|)[k] == bytes[k]
    {
      OffsetOfAdd(address, k);
      StoreByteAt(mem, address, bytes, AddrAdd(address, k));
    }
  }

  lemma ModDifference(x: int, y: int, m: int)
    requires m > 0
    ensures (y % m - x % m) % m == (y - x) % m
  {
    var qx, qy := x / m, y / m;
    assert y % m - x % m == (y - x) + m * (qx - qy);
    ModAddMultiple(y - x, qx - qy, m);
  }

  /** The distance between address + a and address + b is b - a, modulo the address space. */
  lemma OffsetBetween(address: Address, a: nat, b: nat)
    ensures Offset(AddrAdd(address, a), AddrAdd(address, b)) == (b - a) % ADDRESS_SPACE
  {
    ModDifference(address + a, address + b, ADDRESS_SPACE);
  }

  /** Lanes i and j (i != j) of a vector access do not share a byte. */
  lemma LanesDisjoint(address: Address, i: nat, j: nat, k: nat)
    requires i < VECTOR_LANES && j < VECTOR_LANES && i != j && k < 4
    ensures Offset(LaneAddress(address, i), AddrAdd(LaneAddress(address, j), k)) >= 4
  {
    AddrAddAssoc(address, 4 * j, k);
    OffsetBetween(address, 4 * i, 4 * j + k);
    SmallResidue(4 * j + k - 4 * i, ADDRESS_SPACE);
  }

  /** A residue of a small number: itself when non-negative, m above it when negative. */
  lemma SmallResidue(d: int, m: int)
    requires -m <= d < m
    ensures d >= 0 ==> d % m == d
    ensures d < 0 ==> d % m == d + m
  {
    if d >= 0 {
      DivModUnique(d, m, 0, d);
    } else {
      DivModUnique(d, m, -1, d + m);
    }
  }

  /** Writing lane j leaves the bytes of every other lane i as they were. */
  lemma OtherLaneUnaffected(mem: Memory, address: Address, bytes: seq<u8>, j: nat, i: nat)
    requires |bytes| == 4 && i < VECTOR_LANES && j < VECTOR_LANES && i != j
    ensures Load(Store(mem, LaneAddress(address, j), bytes), LaneAddress(address, i), 4) == Load(mem, LaneAddress(address, i), 4)
  {
    forall m | 0 <= m < 4
      ensures Offset(LaneAddress(address, j), AddrAdd(LaneAddress(address, i), m)) >= 4
    {
      LanesDisjoint(address, j, i, m);
    }
    LoadUnaffected(mem, LaneAddress(address, j), bytes, LaneAddress(address, i), 4);
  }

  /** The first k lane writes leave lane i (i >= k) as it was. */
  lemma {:induction false} LaneUntouched(mem: Memory, address: Address, lanes: LaneArray, k: nat, i: nat, e: Endian)
    requires k <= i < VECTOR_LANES
    ensures Load(StoreLanes(mem, address, lanes, k, e), LaneAddress(address, i), 4)
         == Load(mem, LaneAddress(address, i), 4)
  {
    if k > 0 {
      var before := StoreLanes(mem, address, lanes, k - 1, e);
      assert StoreLanes(mem, address, lanes, k, e)
          == Store(before, LaneAddress(address, k - 1), ToBytes(lanes[k - 1], 4, e));
      LaneUntouched(mem, address, lanes, k - 1, i, e);
      OtherLaneUnaffected(before, address, ToBytes(lanes[k - 1], 4, e), k - 1, i);
    }
  }

  /** One iteration of `write_vec_u32`: lane i is written over the first i lane writes. */
  lemma LaneWriteStep(mem: Memory, address: Address, lanes: LaneArray, i: nat, e: Endian)
    requires i < VECTOR_LANES
    ensures var before := StoreLanes(mem, address, lanes, i, e);
            && Store(before, LaneAddress(address, i), ToBytes(lanes[i], 4, e)) == StoreLanes(mem, address, lanes, i + 1, e)
            && LoadValue(before, LaneAddress(address, i), 4, e) == LoadValue(mem, LaneAddress(address, i), 4, e)
            && AllLanesChanged(mem, address, lanes, i + 1, e)
               == (AllLanesChanged(mem, address, lanes, i, e) && LaneChanged(mem, address, lanes, i, e))
  {
    LaneValueUntouched(mem, address, lanes, i, e);
  }

  /** Before lane i is written, it still holds the value it held at the start. */
  lemma LaneValueUntouched(mem: Memory, address: Address, lanes: LaneArray, i: nat, e: Endian)
    requires i < VECTOR_LANES
    ensures LoadValue(StoreLanes(mem, address, lanes, i, e), LaneAddress(address, i), 4, e)
         == LoadValue(mem, LaneAddress(address, i), 4, e)
  {
    LaneUntouched(mem, address, lanes, i, i, e);
  }

  /** After the first k lane writes, lane i (i < k) holds lane i's bytes. */
  lemma {:induction false} LaneStored(mem: Memory, address: Address, lanes: LaneArray, k: nat, i: nat, e: Endian)
    requires i < k <= VECTOR_LANES
    ensures Load(StoreLanes(mem, address, lanes, k, e), LaneAddress(address, i), 4) == ToBytes(lanes[i], 4, e)
  {
    if i == k - 1 {
      LastLaneStored(mem, address, lanes, k, e);
    } else {
      LaneStored(mem, address, lanes, k - 1, i, e);
      EarlierLaneKept(mem, address, lanes, k, i, e);
    }
  }

  /** The lane written last reads back as written. */
  lemma LastLaneStored(mem: Memory, address: Address, lanes: LaneArray, k: nat, e: Endian)
    requires 0 < k <= VECTOR_LANES
    ensures Load(StoreLanes(mem, address, lanes, k, e), LaneAddress(address, k - 1), 4) == ToBytes(lanes[k - 1], 4, e)
  {
    var before := StoreLanes(mem, address, lanes, k - 1, e);
    assert StoreLanes(mem, address, lanes, k, e)
        == Store(before, LaneAddress(address, k - 1), ToBytes(lanes[k - 1], 4, e));
    LoadAfterStore(before, LaneAddress(address, k - 1), ToBytes(lanes[k - 1], 4, e));
  }

  /** Writing lane k - 1 keeps the bytes of an earlier lane. */
  lemma EarlierLaneKept(mem: Memory, address: Address, lanes: LaneArray, k: nat, i: nat, e: Endian)
    requires i < k - 1 && k <= VECTOR_LANES
    ensures Load(StoreLanes(mem, address, lanes, k, e), LaneAddress(address, i), 4)
         == Load(StoreLanes(mem, address, lanes, k - 1, e), LaneAddress(address, i), 4)
  {
    var before := StoreLanes(mem, address, lanes, k - 1, e);
    OtherLaneUnaffected(before, address, ToBytes(lanes[k - 1], 4, e), k - 1, i);
  }
}
