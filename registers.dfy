/**
 * The register file: 32 general-purpose registers with register 0 hard-wired
 * to zero, 32 vector registers, the program counter and the vector length
 * register, and the checked register identifiers that index them.
 */
module RegisterFiles {
  import opened Bits
  import opened RegisterValues
  import opened FrontendMemories

  const REGISTER_COUNT: nat := 32

  // ---------------------------------------------------------------------
  // Register identifiers
  // ---------------------------------------------------------------------

  /** A `RegisterId`: an 8-bit index that was checked against the register count. */
  type RegisterId = r: u8 | r < REGISTER_COUNT

  /** Building an identifier either succeeds or trips the sanity assertion. */
  datatype IdOutcome = Created(id: RegisterId) | OutOfBounds(value: nat)

  /** `RegisterId(uint8_t)`: the bounds check made when an identifier is built. */
  function NewRegisterId(value: u8): (r: IdOutcome)
    ensures r.Created? <==> value < REGISTER_COUNT
    ensures r.Created? ==> r.id == value
    ensures r.OutOfBounds? ==> r.value == value
  {
    if value < REGISTER_COUNT then Created(value) else OutOfBounds(value)
  }

  /** `RegisterId()`: delegates to the checked constructor with 0. */
  function DefaultRegisterId(): (r: RegisterId)
    ensures NewRegisterId(0) == Created(r) && r == 0
  {
    0
  }

  /** Every identifier converts back (`operator size_t`) to an index the check accepts again. */
  lemma IdRoundTrip(id: RegisterId)
    ensures NewRegisterId(id) == Created(id)
    ensures id as nat < REGISTER_COUNT
  {
  }

  /** The `_reg` and `_vreg` literals as written: the value is cast to `uint8_t` before the check. */
  function RegLiteral(value: nat): (r: IdOutcome)
    ensures r.Created? <==> value % 256 < REGISTER_COUNT
  {
    NewRegisterId(value % 256)
  }

  /** A literal of 256 or more wraps around and passes the bounds check. */
  lemma LiteralWrapsAround()
    ensures RegLiteral(256) == Created(0)
    ensures RegLiteral(0x105) == Created(5)
    ensures CheckedRegLiteral(256).OutOfBounds?
  {
  }

  /** The literals with the bounds check on the literal's own value. */
  function CheckedRegLiteral(value: nat): (r: IdOutcome)
    ensures r.Created? <==> value < REGISTER_COUNT
    ensures r.Created? ==> r.id as nat == value
    ensures r.OutOfBounds? ==> r.value == value
  {
    if value < REGISTER_COUNT then NewRegisterId(value) else OutOfBounds(value)
  }

  /** Below 256 the two literal forms agree. */
  lemma LiteralsAgreeBelow256(value: nat)
    requires value < 256
    ensures RegLiteral(value) == CheckedRegLiteral(value)
  {
    assert value % 256 == value;
  }

  // ---------------------------------------------------------------------
  // The register file
  // ---------------------------------------------------------------------

  class Registers {
    /** The general-purpose registers; entry 0 is allocated but always zero. */
    const gp: array<RegisterValue>
    const vr: array<VectorRegisterValue>
    var pc: Address
    var vl: u8

    predicate Valid()
      reads this, gp
    {
      gp.Length == REGISTER_COUNT && vr.Length == REGISTER_COUNT && gp[0] == Zero()
    }

    /** `Registers()`: every register zero, `pc` and `vl` zero. */
    constructor ()
      ensures Valid() && fresh(gp) && fresh(vr)
      ensures forall i :: 0 <= i < REGISTER_COUNT ==> gp[i] == Zero()
      ensures forall i :: 0 <= i < REGISTER_COUNT ==> vr[i] == ZeroVector()
      ensures pc == 0 && vl == 0
    {
      gp := new RegisterValue[REGISTER_COUNT](_ => Zero());
      vr := new VectorRegisterValue[REGISTER_COUNT](_ => ZeroVector());
      pc := 0;
      vl := 0;
    }

    /** `Registers(const Registers &)`: a copy with registers of its own. */
    constructor Copy(other: Registers)
      requires other.Valid()
      ensures Valid() && fresh(gp) && fresh(vr)
      ensures gp[..] == other.gp[..] && vr[..] == other.vr[..]
      ensures pc == other.pc && vl == other.vl
    {
      gp := new RegisterValue[REGISTER_COUNT](i requires 0 <= i < REGISTER_COUNT reads other.gp => other.gp[i]);
      vr := new VectorRegisterValue[REGISTER_COUNT](i requires 0 <= i < REGISTER_COUNT reads other.vr => other.vr[i]);
      pc := other.pc;
      vl := other.vl;
    }

    function ReadPc(): Address
      reads this
    {
      pc
    }

    /** `write_pc`: an absolute jump; nothing else changes. */
    method WritePc(address: Address)
      modifies this
      ensures ReadPc() == address
      ensures vl == old(vl) && unchanged(gp) && unchanged(vr)
    {
      pc := address;
    }

    function ReadVl(): u8
      reads this
    {
      vl
    }

    /** `write_vl`: sets the vector length; nothing else changes. */
    method WriteVl(len: u8)
      modifies this
      ensures ReadVl() == len
      ensures pc == old(pc) && unchanged(gp) && unchanged(vr)
    {
      vl := len;
    }

    /**
     * `read_gp`: register 0 reads as zero without touching the array; as the
     * array's entry 0 is never written, this is the stored entry for every id.
     */
    function ReadGp(reg: RegisterId): (r: RegisterValue)
      requires Valid()
      reads this, gp
      ensures r == gp[reg]
    {
      if reg == 0 then Zero() else gp[reg]
    }

    /** `write_gp`: sets one register, except that a write to register 0 is dropped. */
    method WriteGp(reg: RegisterId, value: RegisterValue)
      requires Valid()
      modifies gp
      ensures Valid()
      ensures ReadGp(reg) == if reg == 0 then Zero() else value
      ensures forall r: RegisterId :: r != reg ==> ReadGp(r) == old(ReadGp(r))
      ensures gp[..] == if reg == 0 then old(gp[..]) else old(gp[..])[reg := value]
      ensures pc == old(pc) && vl == old(vl) && unchanged(vr)
    {
      if reg != 0 {
        gp[reg] := value;
      }
    }

    /** `read_vr`: vector register 0 is an ordinary register. */
    function ReadVr(reg: RegisterId): VectorRegisterValue
      requires Valid()
      reads this, gp, vr
    {
      vr[reg]
    }

    /** `write_vr`: sets one vector register; nothing else changes. */
    method WriteVr(reg: RegisterId, value: VectorRegisterValue)
      requires Valid()
      modifies vr
      ensures Valid()
      ensures ReadVr(reg) == value
      ensures forall r: RegisterId :: r != reg ==> ReadVr(r) == old(ReadVr(r))
      ensures vr[..] == old(vr[..])[reg := value]
      ensures pc == old(pc) && vl == old(vl) && unchanged(gp)
    {
      vr[reg] := value;
    }

    /** `operator==`: all registers, `pc` and `vl` agree. */
    predicate Equals(other: Registers)
      requires Valid() && other.Valid()
      reads this, gp, vr, other, other.gp, other.vr
    {
      gp[..] == other.gp[..] && vr[..] == other.vr[..] && pc == other.pc && vl == other.vl
    }

    /** `reset`: every register and `vl` back to zero; `pc` keeps its value. */
    method Reset()
      requires Valid()
      modifies this, gp, vr
      ensures Valid()
      ensures forall r: RegisterId :: ReadGp(r) == Zero() && ReadVr(r) == ZeroVector()
      ensures vl == 0 && pc == old(pc)
    {
      forall i | 0 <= i < gp.Length {
        gp[i] := Zero();
      }
      forall i | 0 <= i < vr.Length {
        vr[i] := ZeroVector();
      }
      vl := 0;
    }
  }

  /** Two register files are equal exactly when every read the interface offers agrees. */
  lemma EqualsMeansSameReads(a: Registers, b: Registers)
    requires a.Valid() && b.Valid()
    ensures a.Equals(b) <==>
            (forall r: RegisterId :: a.ReadGp(r) == b.ReadGp(r)) &&
            (forall r: RegisterId :: a.ReadVr(r) == b.ReadVr(r)) &&
            a.ReadPc() == b.ReadPc() && a.ReadVl() == b.ReadVl()
  {
    if (forall r: RegisterId :: a.ReadGp(r) == b.ReadGp(r)) && (forall r: RegisterId :: a.ReadVr(r) == b.ReadVr(r)) {
      forall i | 0 <= i < REGISTER_COUNT
        ensures a.gp[i] == b.gp[i] && a.vr[i] == b.vr[i]
      {
        var r: RegisterId := i;
        assert a.ReadGp(r) == b.ReadGp(r) && a.ReadVr(r) == b.ReadVr(r);
      }
      assert a.gp[..] == b.gp[..];
      assert a.vr[..] == b.vr[..];
    }
  }
}
