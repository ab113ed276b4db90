/**
 * What the memory frontend promises: a write read back at the same address
 * and width gives the value written, a write touches only the bytes it
 * covers, signed and unsigned codes of one width store alike and use only
 * the low bits, reads sign- or zero-extend as their code says, and the
 * cross-endian swap keeps misaligned accesses correct.
 */
module MemoryProperties {
  import opened Bits
  import opened ByteOrder
  import opened RegisterValues
  import opened FrontendMemories

  // ---------------------------------------------------------------------
  // Scalar accesses
  // ---------------------------------------------------------------------

  /** An n-byte write read back at the same address and width gives the value. */
  lemma ScalarRoundTrip(mem: Memory, address: Address, v: nat, n: nat, e: Endian)
    requires n <= 8 && v < Pow256(n)
    ensures LoadValue(Store(mem, address, ToBytes(v, n, e)), address, n, e) == v
  {
    LoadAfterStore(mem, address, ToBytes(v, n, e));
    FromToBytes(v, n, e);
  }

  /** A store changes exactly the bytes of its footprint. */
  lemma StoreFrame(mem: Memory, address: Address, bytes: seq<u8>, x: Address)
    requires |bytes| <= 8
    ensures x !in Footprint(address, |bytes|) ==> ByteAt(Store(mem, address, bytes), x) == ByteAt(mem, x)
    ensures x in Footprint(address, |bytes|) <==> Offset(address, x) < |bytes|
  {
    StoreByteAt(mem, address, bytes, x);
    if Offset(address, x) < |bytes| {
      OffsetInverse(address, x);
      assert AddrAdd(address, Offset(address, x)) == x;
    }
    if x in Footprint(address, |bytes|) {
      var k :| 0 <= k < |bytes| && x == AddrAdd(address, k);
      OffsetOfAdd(address, k);
    }
  }

  /** Two registers that agree in the low w bits store the same bytes. */
  lemma StoreUsesLowBits(mem: Memory, ctl: AccessControl, offset: Address, x: RegisterValue, y: RegisterValue, e: Endian)
    requires IsScalarCtl(ctl)
    requires x.data % CtlWidth(ctl).Modulus() == y.data % CtlWidth(ctl).Modulus()
    ensures StoreCtl(mem, ctl, offset, Scalar(x), 0, e) == StoreCtl(mem, ctl, offset, Scalar(y), 0, e)
  {
  }

  /** Two scalar codes of one width store the same bytes. */
  lemma SameWidthStoreAlike(mem: Memory, ctl1: AccessControl, ctl2: AccessControl, offset: Address, x: RegisterValue, e: Endian)
    requires IsScalarCtl(ctl1) && IsScalarCtl(ctl2) && CtlWidth(ctl1) == CtlWidth(ctl2)
    ensures StoreCtl(mem, ctl1, offset, Scalar(x), 0, e) == StoreCtl(mem, ctl2, offset, Scalar(x), 0, e)
  {
    var w := CtlWidth(ctl1);
    assert StoreCtl(mem, ctl1, offset, Scalar(x), 0, e) == Store(mem, offset, ToBytes(x.AsUnsigned(w), w.Bytes(), e));
    assert StoreCtl(mem, ctl2, offset, Scalar(x), 0, e) == Store(mem, offset, ToBytes(x.AsUnsigned(w), w.Bytes(), e));
  }

  /** The signed and unsigned codes of each width behave identically on write. */
  lemma SignedUnsignedStoreAlike(mem: Memory, offset: Address, x: RegisterValue, e: Endian)
    ensures StoreCtl(mem, AcI8, offset, Scalar(x), 0, e) == StoreCtl(mem, AcU8, offset, Scalar(x), 0, e)
    ensures StoreCtl(mem, AcI16, offset, Scalar(x), 0, e) == StoreCtl(mem, AcU16, offset, Scalar(x), 0, e)
    ensures StoreCtl(mem, AcI32, offset, Scalar(x), 0, e) == StoreCtl(mem, AcU32, offset, Scalar(x), 0, e)
    ensures StoreCtl(mem, AcI64, offset, Scalar(x), 0, e) == StoreCtl(mem, AcU64, offset, Scalar(x), 0, e)
  {
    SameWidthStoreAlike(mem, AcI8, AcU8, offset, x, e);
    SameWidthStoreAlike(mem, AcI16, AcU16, offset, x, e);
    SameWidthStoreAlike(mem, AcI32, AcU32, offset, x, e);
    SameWidthStoreAlike(mem, AcI64, AcU64, offset, x, e);
  }

  /** AC_NONE writes nothing and reads zero; an unknown code throws and writes nothing. */
  lemma NoneAndUnknownCodes(mem: Memory, offset: Address, value: RegisterValueUnion, vl: nat, e: Endian, code: nat)
    ensures StoreCtl(mem, AcNone, offset, value, vl, e) == mem && CtlOutcome(AcNone) == Ok(())
    ensures LoadCtl(mem, AcNone, offset, vl, e) == Ok(Scalar(Zero()))
    ensures StoreCtl(mem, AcUnknown(code), offset, value, vl, e) == mem
    ensures CtlOutcome(AcUnknown(code)) == Err(UnknownMemoryControl(code))
    ensures LoadCtl(mem, AcUnknown(code), offset, vl, e) == Err(UnknownMemoryControl(code))
  {
  }

  /** A zero-extended read: the int32_t constructor on a value that fits keeps it as an unsigned pattern. */
  lemma PromotedRead(v: nat)
    requires v < 0x1_0000
    ensures FromI32(v).AsU64() == v
  {
    assert FromI32(v).AsSigned(W64) == v;
  }

  /**
   * A signed code sign-extends the value it reads to 64 bits; an unsigned
   * code zero-extends it.
   */
  lemma ReadExtends(mem: Memory, ctl: AccessControl, address: Address, vl: nat, e: Endian)
    requires IsScalarCtl(ctl)
    ensures LoadCtl(mem, ctl, address, vl, e).Ok? && LoadCtl(mem, ctl, address, vl, e).value.Scalar?
    ensures var r := LoadCtl(mem, ctl, address, vl, e).value.i;
            var v := LoadValue(mem, address, CtlWidth(ctl).Bytes(), e);
            if IsSignedCtl(ctl) then r.AsI64() == Signed(v, CtlWidth(ctl)) else r.AsU64() == v
  {
    match ctl
    case AcU8 => PromotedRead(LoadValue(mem, address, 1, e));
    case AcU16 => PromotedRead(LoadValue(mem, address, 2, e));
    case _ =>
  }

  /** Writing a register with a scalar code and reading it back with the same code. */
  lemma ScalarCtlRoundTrip(mem: Memory, ctl: AccessControl, address: Address, value: RegisterValue, e: Endian)
    requires IsScalarCtl(ctl)
    ensures var r := LoadCtl(StoreCtl(mem, ctl, address, Scalar(value), 0, e), ctl, address, 0, e);
            r.Ok? && r.value.Scalar? &&
            if IsSignedCtl(ctl) then r.value.i.AsI64() == value.AsSigned(CtlWidth(ctl))
            else r.value.i.AsU64() == value.AsUnsigned(CtlWidth(ctl))
  {
    var w := CtlWidth(ctl);
    var bits := value.AsUnsigned(w);
    var stored := StoreCtl(mem, ctl, address, Scalar(value), 0, e);
    ModulusIsPow256(w);
    ScalarRoundTrip(mem, address, bits, w.Bytes(), e);
    assert LoadValue(stored, address, w.Bytes(), e) == bits;
    ReadExtends(stored, ctl, address, 0, e);
    if IsSignedCtl(ctl) {
      UnsignedOfInRange(bits, w);
      SignedCongruent(bits, value.data, w);
    }
  }

  // ---------------------------------------------------------------------
  // Vector accesses
  // ---------------------------------------------------------------------

  /** A byte at least 4*k above the vector's address lies beyond lane k - 1. */
  lemma BeyondLane(address: Address, k: nat, x: Address)
    requires 1 <= k <= VECTOR_LANES && Offset(address, x) >= 4 * k
    ensures Offset(LaneAddress(address, k - 1), x) >= 4
  {
    var o := Offset(address, x);
    OffsetInverse(address, x);
    OffsetBetween(address, 4 * (k - 1), o);
    SmallResidue(o - 4 * (k - 1), ADDRESS_SPACE);
  }

  /** A vector write touches no byte beyond its first 4*vl bytes. */
  lemma {:induction false} VectorStoreFrame(mem: Memory, address: Address, lanes: LaneArray, k: nat, e: Endian, x: Address)
    requires k <= VECTOR_LANES && Offset(address, x) >= 4 * k
    ensures ByteAt(StoreLanes(mem, address, lanes, k, e), x) == ByteAt(mem, x)
  {
    if k > 0 {
      VectorStoreFrame(mem, address, lanes, k - 1, e, x);
      BeyondLane(address, k, x);
      StoreByteAt(StoreLanes(mem, address, lanes, k - 1, e), LaneAddress(address, k - 1),
                  ToBytes(lanes[k - 1], 4, e), x);
    }
  }

  /** A vector written with AC_V32 and read back with the same vl gives lanes below vl back, zero above. */
  lemma VectorCtlRoundTrip(mem: Memory, address: Address, value: VectorRegisterValue, vl: nat, e: Endian)
    requires vl <= VECTOR_LANES
    ensures var r := LoadCtl(StoreCtl(mem, AcV32, address, Vector(value), vl, e), AcV32, address, vl, e);
            r.Ok? && r.value.Vector? &&
            forall i :: 0 <= i < VECTOR_LANES ==> r.value.v.data[i] == if i < vl then value.data[i] else 0
  {
    var written := StoreLanes(mem, address, value.data, vl, e);
    forall i | 0 <= i < vl
      ensures LoadLanes(written, address, vl, e)[i] == value.data[i]
    {
      LaneStored(mem, address, value.data, vl, i, e);
      FromToBytes(value.data[i], 4, e);
    }
  }

  // ---------------------------------------------------------------------
  // The cross-endian example of `read_generic`
  // ---------------------------------------------------------------------

  /**
   * A big-endian machine simulated on a little-endian host stores
   * 0x12345678 at 0x1000; a 4-byte read at 0x1002 sees 56 78 00 00.
   */
  method ExampleBigOnLittle() returns (r: u32)
    ensures r == 0x5678_0000
  {
    var m := new FrontendMemory(Big, Little);
    var _ := m.WriteU32(0x1000, 0x1234_5678);
    r := m.ReadU32(0x1002);
    ExampleBytes(Big);
    ExampleLoad(ToBytes(0x1234_5678, 4, Big));
    assert Load(m.mem, 0x1002, 4) == [0x56, 0x78, 0, 0];
    ExampleValues();
  }

  /**
   * A little-endian machine simulated on a big-endian host stores
   * 0x12345678 at 0x1000; a 4-byte read at 0x1002 sees 0x00001234.
   */
  method ExampleLittleOnBig() returns (r: u32)
    ensures r == 0x0000_1234
  {
    var m := new FrontendMemory(Little, Big);
    var _ := m.WriteU32(0x1000, 0x1234_5678);
    r := m.ReadU32(0x1002);
    ExampleBytes(Little);
    ExampleLoad(ToBytes(0x1234_5678, 4, Little));
    assert Load(m.mem, 0x1002, 4) == [0x34, 0x12, 0, 0];
    ExampleValues();
  }

  /** How each byte order lays out 0x12345678. */
  lemma ExampleBytes(e: Endian)
    ensures ToBytes(0x1234_5678, 4, e) == if e == Big then [0x12, 0x34, 0x56, 0x78] else [0x78, 0x56, 0x34, 0x12]
  {
    assert LeBytes(0x1234_5678, 4) == [0x78, 0x56, 0x34, 0x12];
  }

  /** The values the two machines read from the bytes at 0x1002. */
  lemma ExampleValues()
    ensures FromBytes([0x56, 0x78, 0, 0], Big) == 0x5678_0000
    ensures FromBytes([0x34, 0x12, 0, 0], Little) == 0x0000_1234
  {
    var big: seq<u8> := [0x56, 0x78, 0, 0];
    assert Reverse(big) == [0, 0, 0x78, 0x56] by {
      assert Reverse(big)[0] == 0 && Reverse(big)[1] == 0 && Reverse(big)[2] == 0x78 && Reverse(big)[3] == 0x56;
    }
    var little: seq<u8> := [0, 0x78, 0x56];
    assert [0, 0, 0x78, 0x56][1..] == little;
    assert little[1..] == [0x78, 0x56];
  }

  /** Four bytes stored at 0x1000 into empty memory, read back from 0x1002. */
  lemma ExampleLoad(bytes: seq<u8>)
    requires |bytes| == 4
    ensures Load(Store(map[], 0x1000, bytes), 0x1002, 4) == [bytes[2], bytes[3], 0, 0]
  {
    forall k | 0 <= k < 4
      ensures ByteAt(Store(map[], 0x1000, bytes), AddrAdd(0x1002, k)) == [bytes[2], bytes[3], 0, 0][k]
    {
      StoreByteAt(map[], 0x1000, bytes, AddrAdd(0x1002, k));
      assert Offset(0x1000, AddrAdd(0x1002, k)) == 2 + k;
    }
  }
}
