/**
 * Byte order: the bytes of an n-byte value in little- or big-endian order,
 * and the byte swap the memory frontend applies when the simulated machine
 * and the host disagree.
 */
module ByteOrder {
  import opened Bits

  datatype Endian = Little | Big

  /** The n bytes of v, least significant first. */
  function LeBytes(v: nat, n: nat): (r: seq<u8>)
    ensures |r| == n
  {
    if n == 0 then [] else [v % 256] + LeBytes(v / 256, n - 1)
  }

  /** The value of a byte sequence read least significant first. */
  function LeValue(s: seq<u8>): nat {
    if s == [] then 0 else s[0] + 256 * LeValue(s[1..])
  }

  function Reverse(s: seq<u8>): (r: seq<u8>)
    ensures |r| == |s|
    ensures forall i :: 0 <= i < |s| ==> r[i] == s[|s| - 1 - i]
  {
    if s == [] then [] else Reverse(s[1..]) + [s[0]]
  }

  /** The bytes of v as a machine of the given byte order lays them out in memory. */
  function ToBytes(v: nat, n: nat, e: Endian): (r: seq<u8>)
    ensures |r| == n
  {
    if e == Little then LeBytes(v, n) else Reverse(LeBytes(v, n))
  }

  /** The value a machine of the given byte order reads from these bytes. */
  function FromBytes(s: seq<u8>, e: Endian): nat {
    if e == Little then LeValue(s) else LeValue(Reverse(s))
  }

  /** `byteswap` of an n-byte value: its bytes in the opposite order. */
  function ByteSwap(v: nat, n: nat): nat {
    LeValue(Reverse(LeBytes(v, n)))
  }

  /** `byteswap_if(value, condition)`. */
  function ByteSwapIf(v: nat, n: nat, condition: bool): nat {
    if condition then ByteSwap(v, n) else v
  }

  /** 256^n: one more than the largest n-byte value. */
  function Pow256(n: nat): (r: nat)
    ensures r >= 1
  {
    if n == 0 then 1 else 256 * Pow256(n - 1)
  }

  /** The byte count of each width spans its modulus. */
  lemma ModulusIsPow256(w: Width)
    ensures w.Modulus() == Pow256(w.Bytes())
  {
    assert Pow256(2) == 0x1_0000;
    assert Pow256(4) == 0x1_0000_0000;
    assert Pow256(8) == 0x1_0000_0000_0000_0000;
  }

  // ---------------------------------------------------------------------
  // Round trips
  // ---------------------------------------------------------------------

  lemma {:induction false} LeValueBound(s: seq<u8>)
    ensures LeValue(s) < Pow256(|s|)
  {
    if s != [] {
      LeValueBound(s[1..]);
    }
  }

  lemma {:induction false} LeRoundTrip(v: nat, n: nat)
    requires v < Pow256(n)
    ensures LeValue(LeBytes(v, n)) == v
  {
    if n > 0 {
      assert v / 256 < Pow256(n - 1);
      LeRoundTrip(v / 256, n - 1);
      assert LeBytes(v, n)[1..] == LeBytes(v / 256, n - 1);
    }
  }

  lemma {:induction false} LeBytesOfValue(s: seq<u8>)
    ensures LeBytes(LeValue(s), |s|) == s
  {
    if s != [] {
      LeBytesOfValue(s[1..]);
      var v := LeValue(s);
      DivModUnique(v, 256, LeValue(s[1..]), s[0]);
      assert s == [s[0]] + s[1..];
    }
  }

  lemma ReverseReverse(s: seq<u8>)
    ensures Reverse(Reverse(s)) == s
  {
  }

  /** Reading back the bytes a machine wrote gives the value it wrote. */
  lemma FromToBytes(v: nat, n: nat, e: Endian)
    requires v < Pow256(n)
    ensures FromBytes(ToBytes(v, n, e), e) == v
  {
    LeRoundTrip(v, n);
    ReverseReverse(LeBytes(v, n));
  }

  /** Writing back a value a machine read gives the bytes it read. */
  lemma ToFromBytes(s: seq<u8>, e: Endian)
    ensures ToBytes(FromBytes(s, e), |s|, e) == s
  {
    LeBytesOfValue(s);
    LeBytesOfValue(Reverse(s));
    ReverseReverse(s);
  }

  lemma FromBytesBound(s: seq<u8>, e: Endian)
    ensures FromBytes(s, e) < Pow256(|s|)
  {
    LeValueBound(s);
    LeValueBound(Reverse(s));
  }

  /** Swapping the bytes twice gives the value back; a swap keeps the width. */
  lemma ByteSwapInvolution(v: nat, n: nat)
    requires v < Pow256(n)
    ensures ByteSwap(v, n) < Pow256(n)
    ensures ByteSwap(ByteSwap(v, n), n) == v
  {
    var s := Reverse(LeBytes(v, n));
    LeValueBound(s);
    LeBytesOfValue(s);
    ReverseReverse(LeBytes(v, n));
    LeRoundTrip(v, n);
  }

  function Opposite(e: Endian): Endian {
    if e == Little then Big else Little
  }

  /**
   * Swapping when the simulated order differs from the native one and then
   * storing in native order lays the value out in the simulated order.
   */
  lemma NativeStoreIsSimulatedOrder(v: nat, n: nat, simulated: Endian, native: Endian)
    requires v < Pow256(n)
    ensures ToBytes(ByteSwapIf(v, n, simulated != native), n, native) == ToBytes(v, n, simulated)
  {
    if simulated != native {
      var s := Reverse(LeBytes(v, n));
      LeBytesOfValue(s);
      ReverseReverse(LeBytes(v, n));
    }
  }

  /**
   * Loading in native order and then swapping when the orders differ reads
   * the bytes in the simulated order.
   */
  lemma NativeLoadIsSimulatedOrder(s: seq<u8>, simulated: Endian, native: Endian)
    ensures ByteSwapIf(FromBytes(s, native), |s|, simulated != native) == FromBytes(s, simulated)
  {
    if simulated != native {
      LeBytesOfValue(s);
      LeBytesOfValue(Reverse(s));
      ReverseReverse(s);
    }
  }
}
