# qtrvsim execution core in Dafny

This project models four parts of the QtRvSim RISC-V simulator's execution core and proves their properties.

- **Register values.** `RegisterValue` is an untyped 64-bit pattern with sign- and zero-extending constructors and truncating accessors. `VectorRegisterValue` holds 32 lanes of 32 bits. `RegisterValueUnion` is the tagged union of the two.
- **The execution unit.** `alu_combined_operate` dispatches to one of four routines:
  - the 64- and 32-bit integer ALU;
  - the multiply/divide unit;
  - the vector unit over `vl` active lanes;
  - pass-through.
- **The memory frontend.** It does typed 1/2/4/8-byte transfers in the simulated machine's byte order, swapping the bytes when that order differs from the host's. It also does vector transfers of `vl` lanes and the access-control dispatch of `read_ctl` and `write_ctl`.
- **The register file.** It holds 32 general-purpose registers with register 0 hard-wired to zero, 32 vector registers, `pc` and `vl`. Registers are indexed by bounds-checked `RegisterId`s.

Files and modules:

| file | module | contents |
|---|---|---|
| `bits.dfy` | `Bits` | Fixed-width integers as subset types of `int` (`u8`..`u64`, `i8`..`i64`); C++ two's-complement conversions (`Unsigned`, `Signed`); truncating `/` and `%` (`TruncDiv`, `TruncRem`); bitwise operations defined bit by bit; shifts. |
| `register_value.dfy` | `RegisterValues` | `RegisterValue`, `VectorRegisterValue`, the union as a datatype, and `UnionObject`, the union assigned in place. |
| `alu.dfy` | `Alu` | `alu64_operate`, `alu32_operate`, `mul64_operate` and `mul32_operate` as functions. `vec32_operate` and `alu_combined_operate` as methods with loops. |
| `alu_properties.dfy` | `AluProperties` | What the execution unit promises: wrap-around arithmetic, shifts, comparisons, logic, division tables, high products. |
| `byte_order.dfy` | `ByteOrder` | Little/big-endian byte layouts and `byteswap`. |
| `frontend_memory.dfy` | `FrontendMemories` | The byte-map backend and the `FrontendMemory` class. |
| `memory_properties.dfy` | `MemoryProperties` | Round trips, frames, extension on read, and the worked cross-endian example. |
| `registers.dfy` | `RegisterFiles` | `RegisterId` and the `Registers` class over arrays. |

Modelling choices:

- **Integer widths.** Integers are unbounded, so every C++ width is written out. A `uintN_t` result is reduced modulo 2^N. A conversion to `intN_t` is `Signed(x, W)`.
- **Division.** C++ `/` and `%` truncate toward zero, so they are modelled by `TruncDiv` and `TruncRem` over Dafny's Euclidean operators.
- **Arithmetic shift right.** `>>` on a signed value is floor division by 2^s.
- **32-bit results.** `alu_combined_operate` writes `w_operation ? op32(..) : op64(..)`. That conditional has type `int64_t`, so a 32-bit result reaches `RegisterValue(int64_t)` sign-extended. The model states the 32-bit results as the `as_i64` reading of the register.
- **Reads of 8- and 16-bit unsigned values.** In `read_ctl`, `RegisterValue(read_u8(..))` and `RegisterValue(read_u16(..))` promote their argument to `int` and so pick the `int32_t` constructor. The value is non-negative, so the result is still zero-extended (`MemoryProperties.PromotedRead`).
- **The memory backend.** It is a map from 64-bit addresses to bytes, laid out in the host's (native) order. A byte never written reads as zero. Addresses wrap around modulo 2^64. Both byte orders are constructor parameters of `FrontendMemory`.

## Model

| member | source | states |
|---|---|---|
| RegisterValues.RegisterValue.AsUnsigned | src/machine/register_value.h:74-88 | `as_uN` is the stored pattern modulo 2^N: below 2^N and congruent to the data. |
| RegisterValues.RegisterValue.AsSigned | src/machine/register_value.h:74-88 | `as_iN` is the two's-complement reading of the low N bits: in [-2^(N-1), 2^(N-1)) and congruent to the data modulo 2^N. |
| RegisterValues.RegisterValue.AsU64 | src/machine/register_value.h:88 | `as_u64` returns the whole stored pattern. |
| RegisterValues.RegisterValue.AsXlen | src/machine/register_value.h:66-72 | `as_xlen(_32)` is the low 32 bits of the pattern. `as_xlen(_64)` is the whole pattern. |
| RegisterValues.RegisterValue.Equals | src/machine/register_value.h:111-113 | `==` holds exactly when the two values are the same pattern. |
| RegisterValues.RegisterValue.NotEquals | src/machine/register_value.h:115 | `!=` is the negation of `==`. |
| RegisterValues.Zero | src/machine/register_value.h:47 | The default value reads as 0 at every width, signed and unsigned. |
| RegisterValues.FromU64 | src/machine/register_value.h:40-41 | The `uint64_t` constructor keeps the value: `as_u64` gives it back. |
| RegisterValues.FromU32 | src/machine/register_value.h:44-45 | The `uint32_t` constructor zero-extends: both `as_u64` and `as_u32` give the value back. |
| RegisterValues.FromI64 | src/machine/register_value.h:54-55 | The `int64_t` constructor followed by `as_i64` gives the value back. |
| RegisterValues.FromI32 | src/machine/register_value.h:57-58 | The `int32_t` constructor followed by `as_i32` or `as_i64` gives the value back, so it is sign-extended. |
| RegisterValues.FromI16 | src/machine/register_value.h:60-61 | The `int16_t` constructor followed by `as_i16` or `as_i64` gives the value back. |
| RegisterValues.FromI8 | src/machine/register_value.h:63-64 | The `int8_t` constructor followed by `as_i8` or `as_i64` gives the value back. |
| RegisterValues.SignExtend | src/machine/register_value.h:54-64 | Converting a signed N-bit value to the 64-bit storage preserves both its N-bit and its 64-bit signed reading. |
| RegisterValues.SignedRoundTrips | src/machine/register_value.h:54-64 | Each signed constructor is undone by the matching signed accessor. The matching unsigned accessor gives the value's N-bit two's-complement pattern. |
| RegisterValues.SignExtensionPattern | src/machine/register_value.h:57-58 | A non-negative `int32_t` is stored as itself. A negative one is stored as 2^64 plus the value, with bits 31..63 all set. |
| RegisterValues.AccessorsTruncate | src/machine/register_value.h:74-88 | Each narrower accessor is a wider accessor truncated. `as_i32` is the 32-bit signed reading of `as_i64`. |
| RegisterValues.NarrowTruncation | src/machine/register_value.h:54-64 | Truncating to 64 bits and then to N bits is the same as truncating to N bits. |
| RegisterValues.VectorRegisterValue.AsVec | src/machine/register_value.h:130-132 | No contract; `as_vec` returns the 32 stored lanes. |
| RegisterValues.VectorRegisterValue.Lane | src/machine/register_value.h:138-140 | No contract; the const subscript reads one stored lane; WithLane is stated in terms of it. |
| RegisterValues.VectorRegisterValue.WithLane | src/machine/register_value.h:138-140 | Writing through the lane reference sets that lane and leaves the other 31 as they were. |
| RegisterValues.VectorRegisterValue.Equals | src/machine/register_value.h:134-136 | Vector equality compares all 32 lanes, active or not, and coincides with value equality. |
| RegisterValues.VectorRegisterValue.NotEquals | src/machine/register_value.h:137 | `!=` holds exactly when some lane differs. |
| RegisterValues.ZeroVector | src/machine/register_value.h:125 | The default vector has every lane zero. |
| RegisterValues.RegisterValueUnion.Equals | src/machine/register_value.h:197-201 | Different tags are never equal. With the same tag the payloads are compared, so the result is equality of the unions. |
| RegisterValues.DefaultUnion | src/machine/register_value.h:170 | The default union is a scalar holding 0. |
| RegisterValues.UnionFromBits | src/machine/register_value.h:172 | Built from a 64-bit pattern: tag scalar, payload the pattern. |
| RegisterValues.UnionFromLanes | src/machine/register_value.h:174 | Built from 32 lanes: tag vector, every lane kept. |
| RegisterValues.UnionObject.constructor | src/machine/register_value.h:170 | A fresh union object holds the default union. |
| RegisterValues.UnionObject.AssignScalar | src/machine/register_value.h:176-180 | Assigning a scalar sets the tag to scalar and stores the value. The copy returned is the new value. |
| RegisterValues.UnionObject.AssignBits | src/machine/register_value.h:181-185 | Assigning a 64-bit pattern sets the tag to scalar and stores the pattern. |
| RegisterValues.UnionObject.AssignVector | src/machine/register_value.h:186-190 | Assigning a vector sets the tag to vector and stores it. |
| RegisterValues.UnionObject.AssignLanes | src/machine/register_value.h:191-195 | Assigning 32 lanes sets the tag to vector and stores them. |
| Alu.Alu64 | src/machine/execute/alu.cpp:44-66 | No contract; the reference definition of `alu64_operate`, whose behaviour the AluProperties lemmas on 64-bit ADD, shifts, SLT/SLTU and logic state. |
| Alu.Alu32 | src/machine/execute/alu.cpp:71-92 | No contract; the reference definition of `alu32_operate`, whose int32_t results the AluProperties 32-bit lemmas state. |
| Alu.Mul64 | src/machine/execute/alu.cpp:95-129 | No contract; the reference definition of `mul64_operate`; see AluProperties.DivRem64 and AluProperties.MulHigh64. |
| Alu.Mul32 | src/machine/execute/alu.cpp:132-166 | No contract; the reference definition of `mul32_operate`; see AluProperties.DivRem32, AluProperties.MulHigh32 and the cast-chain lemmas. |
| Alu.ShiftAmount64 | src/machine/execute/alu.cpp:38-39 | `b & SHIFT_MASK64` is b modulo 64, proved through the bit-by-bit AND. |
| Alu.ShiftAmount32 | src/machine/execute/alu.cpp:38-39 | `b & SHIFT_MASK32` is b modulo 32. |
| Alu.WrapAdd | src/machine/execute/alu.cpp:51 | The `uintN_t` add or subtract yields an N-bit value. |
| Alu.DivEdge | src/machine/execute/alu.cpp:104-111 | The signed quotient, including its two edge cases, always fits the signed N-bit range. |
| Alu.RemEdge | src/machine/execute/alu.cpp:115-122 | The signed remainder, including its edge cases, always fits the signed N-bit range. |
| Alu.DivuEdge | src/machine/execute/alu.cpp:112-114 | The unsigned quotient, including division by zero, always fits in N bits. |
| Alu.RemuEdge | src/machine/execute/alu.cpp:123-126 | The unsigned remainder never exceeds the dividend. |
| Alu.ShiftRightArith | src/machine/execute/alu.cpp:58-59 | An arithmetic shift keeps the sign and never increases the magnitude. |
| Alu.VectorAddVV | src/machine/execute/alu.cpp:170-189 | VADDVV: every lane below vl is the sum of the two lanes modulo 2^32. Lanes at or above vl are zero. |
| Alu.VectorAddVI | src/machine/execute/alu.cpp:190-205 | VADDVI: every lane below vl is the lane plus the scalar's low 32 bits, modulo 2^32. Lanes at or above vl are zero. |
| Alu.VectorMulVV | src/machine/execute/alu.cpp:206-225 | VMULVV: every lane below vl is the product of the two lanes modulo 2^32. Lanes at or above vl are zero. |
| Alu.VectorRedSum | src/machine/execute/alu.cpp:226-232 | VREDSUM: the scalar result is the accumulator's low 32 bits plus the exact sum of the first vl lanes, modulo 2^32. |
| Alu.Vec32Operate | src/machine/execute/alu.cpp:168-235 | `vec32_operate` gives a scalar exactly for VREDSUM, a vector otherwise, and for each operation the lane or sum formula of its routine. |
| Alu.AluCombinedOperate | src/machine/execute/alu.cpp:8-31 | ALU and MUL results are the 64-bit routine's pattern, or the 32-bit routine's value sign-extended to 64 bits. VEC results satisfy the lane and sum formulas. PASS returns `a` unchanged. |
| AluProperties.WrapAddMeaning | src/machine/execute/alu.cpp:51 | The wrapped add and subtract depend only on the operands modulo 2^N. |
| AluProperties.AddSub64 | src/machine/execute/alu.cpp:51 | 64-bit ADD is (a + b) mod 2^64. With `modified` it is (a - b) mod 2^64. |
| AluProperties.AddSub32 | src/machine/execute/alu.cpp:78 | 32-bit ADD and SUB are the `int32_t` readings of a + b and a - b. |
| AluProperties.ShiftUsesLowBits64 | src/machine/execute/alu.cpp:52-59 | A 64-bit SLL or SR gives the same result for any two b that agree in their low 6 bits. |
| AluProperties.ShiftMasked64 | src/machine/execute/alu.cpp:52-59 | Masking b with 63 first, or adding a multiple of 64 to it, leaves a 64-bit shift unchanged. |
| AluProperties.LowBitsOfLow32 | src/machine/execute/alu.cpp:79 | The low 5 bits of `as_u32` are those of the full pattern. |
| AluProperties.ShiftUsesLowBits32 | src/machine/execute/alu.cpp:79-86 | A 32-bit SLL or SR gives the same result for any two b that agree in their low 5 bits. |
| AluProperties.ShiftMasked32 | src/machine/execute/alu.cpp:79-86 | Masking b with 31 first, or adding a multiple of 32 to it, leaves a 32-bit shift unchanged. |
| AluProperties.ArithShiftBits | src/machine/execute/alu.cpp:58-59 | Floor division of an N-bit two's-complement value by 2^s moves bit i + s to bit i and fills with the sign bit. |
| AluProperties.ShiftLeftBits64 | src/machine/execute/alu.cpp:52 | 64-bit SLL: bit i of the result is bit i - s of a, or 0 below s. |
| AluProperties.ShiftRightLogicalBits64 | src/machine/execute/alu.cpp:58-59 | 64-bit SR without `modified` is logical: bit i is bit i + s of a, or 0 past the top. |
| AluProperties.ShiftRightArithBits64 | src/machine/execute/alu.cpp:58-59 | 64-bit SR with `modified` is floor(a / 2^s) of the signed reading. Bit i is bit i + s of a, or the sign bit past the top. |
| AluProperties.ShiftLeftBits32 | src/machine/execute/alu.cpp:79 | 32-bit SLL moves the bits of the low word in the same way, with s = b mod 32. |
| AluProperties.ShiftRightLogicalBits32 | src/machine/execute/alu.cpp:85-86 | 32-bit SR without `modified` is a logical shift of the low word. |
| AluProperties.ShiftRightArithBits32 | src/machine/execute/alu.cpp:85-86 | 32-bit SR with `modified` is floor(`as_i32` / 2^s) and fills with bit 31. |
| AluProperties.SignBit | src/machine/execute/alu.cpp:53-54 | The top bit of an N-bit pattern is set exactly when its unsigned value reaches 2^(N-1). |
| AluProperties.SetLessThan64 | src/machine/execute/alu.cpp:53-54 | SLT and SLTU yield 0 or 1. SLT is 1 exactly when `as_i64(a) < as_i64(b)`, SLTU exactly when `as_u64(a) < as_u64(b)`. The two agree when the sign bits agree and are opposite otherwise. |
| AluProperties.SetLessThan32 | src/machine/execute/alu.cpp:80-81 | The same at 32 bits, on `as_i32` and `as_u32`. |
| AluProperties.LogicBits64 | src/machine/execute/alu.cpp:55-62 | XOR, OR and AND (without `modified`) act bit by bit on the 64-bit patterns. |
| AluProperties.LogicBits32 | src/machine/execute/alu.cpp:82-89 | XOR, OR and AND act bit by bit on the low 32 bits. |
| AluProperties.AndNot64 | src/machine/execute/alu.cpp:61-62 | AND with `modified` is `~a & b`: bit i is set exactly when it is set in b and clear in a, and the result shares no bit with a. |
| AluProperties.AndNot32 | src/machine/execute/alu.cpp:88-89 | The same on the low 32 bits. |
| AluProperties.AndNotBits | src/machine/execute/alu.cpp:61-62 | On N bits, `~x & y` is `(2^N - 1 - x) & y`, is bit by bit `y and not x`, and has nothing in common with x. |
| AluProperties.SignedDivTable | src/machine/execute/alu.cpp:104-122 | Signed division at any width: x / 0 = -1 and x % 0 = x; MIN / -1 = MIN and MIN % -1 = 0; otherwise q*b + r == a with abs(r) < abs(b) and r carrying a's sign; for any nonzero b, q*b + r == a modulo 2^N. |
| AluProperties.UnsignedDivTable | src/machine/execute/alu.cpp:112-126 | Unsigned division: x / 0 = UINT_MAX and x % 0 = x; otherwise q*y + r == x with r < y. |
| AluProperties.DivRem64 | src/machine/execute/alu.cpp:104-126 | DIV, DIVU, REM and REMU at 64 bits, on the register readings: division by zero, the `INT64_MIN / -1` overflow, and q*b + r == a with the truncating sign rule. |
| AluProperties.DivRem32 | src/machine/execute/alu.cpp:141-163 | The same at 32 bits, on `as_i32` and `as_u32`. |
| AluProperties.MulHigh64 | src/machine/execute/alu.cpp:100-103 | MULH, MULHSU and MULHU at 64 bits are the high halves of the exact products. High * 2^64 + MUL reconstructs a*b for the signed/signed, signed/unsigned and unsigned/unsigned readings. |
| AluProperties.MulHigh32 | src/machine/execute/alu.cpp:137-140 | MULH, MULHSU and MULHU at 32 bits are floor(a*b / 2^32) of the matching readings. High * 2^32 + low(MUL) is the exact product. |
| AluProperties.MulhChain | src/machine/execute/alu.cpp:138 | The cast chain of MULH at 32 bits is floor(a*b / 2^32) for two `int32_t` operands. |
| AluProperties.MulhsuChain | src/machine/execute/alu.cpp:139 | The cast chain of MULHSU is floor(a*b / 2^32) for an `int32_t` times a `uint32_t`. |
| AluProperties.MulhuChain | src/machine/execute/alu.cpp:140 | The cast chain of MULHU gives bits 32..63 of the `uint32_t` product. |
| AluProperties.HighWord32 | src/machine/execute/alu.cpp:138-140 | Shifting a 64-bit product pattern right by 32 and converting to `int32_t` gives the high word of the exact product. |
| AluProperties.ExampleAddSub | src/machine/execute/alu.cpp:51 | 5 + 3 = 8, 5 - 3 = 2, and 3 - 5 wraps to 2^64 - 2. |
| AluProperties.ExampleSub32 | src/machine/execute/alu.cpp:78 | 32-bit SUB: 5 - 3 = 2, and 3 - 5 = -2 as an `int32_t`. |
| AluProperties.ExampleRedSum | src/machine/execute/alu.cpp:226-232 | VREDSUM of lanes 1, 2, 3 into an accumulator of 100 with vl = 3 gives 106. |
| AluProperties.ExampleShift32 | src/machine/execute/alu.cpp:79 | A 32-bit shift of 1 by 35 shifts by 3 and gives 8. |
| AluProperties.ExampleDivision | src/machine/execute/alu.cpp:141-159 | -7 / 2 = -3 and -7 % 2 = -1 (toward zero); 7 / 0 = -1; `INT64_MIN / -1` = `INT64_MIN`. |
| AluProperties.ExampleMulhu | src/machine/execute/alu.cpp:140 | MULHU of 0xFFFFFFFF by itself is 0xFFFFFFFE. |
| ByteOrder.FromToBytes | src/machine/memory/frontend_memory.cpp:189-198 | Reading back, in a given byte order, the bytes a value was laid out as gives the value. |
| ByteOrder.ToFromBytes | src/machine/memory/frontend_memory.cpp:159-187 | Laying out again, in a given byte order, the value read from a byte sequence gives the bytes back. |
| ByteOrder.ByteSwapInvolution | src/machine/memory/frontend_memory.cpp:186 | `byteswap` keeps the width and undoes itself. |
| ByteOrder.NativeStoreIsSimulatedOrder | src/machine/memory/frontend_memory.cpp:195-196 | Swapping exactly when the simulated and native orders differ, then storing natively, lays the value out in the simulated order. |
| ByteOrder.NativeLoadIsSimulatedOrder | src/machine/memory/frontend_memory.cpp:186 | Loading natively and then swapping under the same condition reads the bytes in the simulated order. |
| FrontendMemories.LoadValue | src/machine/memory/frontend_memory.cpp:159-187 | An n-byte read yields a value below 256^n. |
| FrontendMemories.ChangedMeansBytesDiffer | src/machine/memory/frontend_memory.cpp:197 | The value held differs from the value written exactly when the bytes held differ from the bytes written. |
| FrontendMemories.AllLanesChangedMeaning | src/machine/memory/frontend_memory.cpp:57-59 | The folded `flag &= changed` after k lanes holds exactly when every one of those k lane writes reported a change. |
| FrontendMemories.StoreCtl | src/machine/memory/frontend_memory.cpp:84-129 | No contract; the memory after `write_ctl`, stated by MemoryProperties.StoreUsesLowBits, SameWidthStoreAlike, SignedUnsignedStoreAlike, NoneAndUnknownCodes, ScalarCtlRoundTrip and VectorCtlRoundTrip. |
| FrontendMemories.LoadCtl | src/machine/memory/frontend_memory.cpp:131-150 | No contract; the result of `read_ctl`, stated by MemoryProperties.ReadExtends, NoneAndUnknownCodes and the two ctl round trips. |
| FrontendMemories.FrontendMemory.constructor | src/machine/memory/frontend_memory.cpp:199-200 | A new frontend records its simulated byte order over an empty backend. |
| FrontendMemories.FrontendMemory.ReadGeneric | src/machine/memory/frontend_memory.cpp:159-187 | `read_generic`, with its swap under the endian mismatch, is the value the simulated machine reads from the bytes at the address. |
| FrontendMemories.FrontendMemory.WriteGeneric | src/machine/memory/frontend_memory.cpp:189-198 | `write_generic` leaves the value's bytes, in the simulated order, at the address. It reports a change exactly when the value held there before differed. |
| FrontendMemories.FrontendMemory.ReadU8 | src/machine/memory/frontend_memory.cpp:35-37 | `read_u8` reads one byte. |
| FrontendMemories.FrontendMemory.ReadU16 | src/machine/memory/frontend_memory.cpp:39-41 | `read_u16` reads 2 bytes in the simulated order. |
| FrontendMemories.FrontendMemory.ReadU32 | src/machine/memory/frontend_memory.cpp:43-45 | `read_u32` reads 4 bytes in the simulated order. |
| FrontendMemories.FrontendMemory.ReadU64 | src/machine/memory/frontend_memory.cpp:47-49 | `read_u64` reads 8 bytes in the simulated order. |
| FrontendMemories.FrontendMemory.WriteU8 | src/machine/memory/frontend_memory.cpp:7-12 | `write_u8` stores one byte and reports whether it changed. |
| FrontendMemories.FrontendMemory.WriteU16 | src/machine/memory/frontend_memory.cpp:14-19 | `write_u16` stores 2 bytes in the simulated order and reports whether the value changed. |
| FrontendMemories.FrontendMemory.WriteU32 | src/machine/memory/frontend_memory.cpp:21-26 | `write_u32` stores 4 bytes in the simulated order and reports whether the value changed. |
| FrontendMemories.FrontendMemory.WriteU64 | src/machine/memory/frontend_memory.cpp:28-33 | `write_u64` stores 8 bytes in the simulated order and reports whether the value changed. |
| FrontendMemories.FrontendMemory.WriteVecU32 | src/machine/memory/frontend_memory.cpp:51-66 | Exactly vl 4-byte writes happen, at address + 4i in ascending i. The result is true exactly when every lane's write changed its value. |
| FrontendMemories.FrontendMemory.ReadVecU32 | src/machine/memory/frontend_memory.cpp:68-82 | Lanes below vl are read from address + 4i. The other lanes are zero. |
| FrontendMemories.FrontendMemory.WriteCtl | src/machine/memory/frontend_memory.cpp:84-129 | `write_ctl` performs the store its code selects: the low N bits for a scalar code of either signedness; vl lanes for V32; nothing for NONE. An unknown code raises UnknownMemoryControl and leaves memory untouched. |
| FrontendMemories.FrontendMemory.ReadCtl | src/machine/memory/frontend_memory.cpp:131-150 | `read_ctl` performs the load its code selects. NONE gives scalar 0. An unknown code raises UnknownMemoryControl. |
| FrontendMemories.LoadAfterStore | src/machine/memory/frontend_memory.cpp:189-198 | Bytes stored at an address are read back at that address. |
| FrontendMemories.LoadUnaffected | src/machine/memory/frontend_memory.cpp:189-198 | A store leaves every read of bytes outside its footprint unchanged. |
| FrontendMemories.LanesDisjoint | src/machine/memory/frontend_memory.cpp:57-59 | Two different lanes occupy disjoint 4-byte ranges. |
| FrontendMemories.OtherLaneUnaffected | src/machine/memory/frontend_memory.cpp:57-59 | Writing one lane leaves every other lane's value as it was. |
| FrontendMemories.LaneUntouched | src/machine/memory/frontend_memory.cpp:57-59 | Writing the first k lanes leaves every later lane as it was. |
| FrontendMemories.LaneWriteStep | src/machine/memory/frontend_memory.cpp:57-59 | One loop step of `write_vec_u32` extends the lane store by one lane. Its `changed` is measured against the memory before the whole vector write. |
| FrontendMemories.LaneStored | src/machine/memory/frontend_memory.cpp:51-66 | After k lane writes, each lane below k reads back the lane written. |
| MemoryProperties.ScalarRoundTrip | src/machine/memory/frontend_memory.cpp:159-198 | An n-byte write read back at the same address and width gives the value written, whether or not the byte orders match. |
| MemoryProperties.StoreFrame | src/machine/memory/frontend_memory.cpp:189-198 | A store changes only the bytes of its footprint, which are those at offsets below its length. |
| MemoryProperties.StoreUsesLowBits | src/machine/memory/frontend_memory.cpp:93-111 | Two registers that agree in the low N bits store identically under a scalar code. |
| MemoryProperties.SameWidthStoreAlike | src/machine/memory/frontend_memory.cpp:93-111 | Any two scalar codes of the same width store identical bytes for the same register. |
| MemoryProperties.SignedUnsignedStoreAlike | src/machine/memory/frontend_memory.cpp:93-111 | `AC_I8`/`AC_U8`, `AC_I16`/`AC_U16`, `AC_I32`/`AC_U32` and `AC_I64`/`AC_U64` each give the same memory on write. |
| MemoryProperties.NoneAndUnknownCodes | src/machine/memory/frontend_memory.cpp:84-150 | NONE stores nothing and reads scalar 0. An unknown code stores nothing and fails both directions with UnknownMemoryControl carrying the code. |
| MemoryProperties.PromotedRead | src/machine/memory/frontend_memory.cpp:136-138 | A `uint8_t` or `uint16_t` read promoted through the `int32_t` constructor is zero-extended. |
| MemoryProperties.ReadExtends | src/machine/memory/frontend_memory.cpp:135-142 | A signed code sign-extends the bytes it reads to 64 bits. An unsigned code zero-extends them. |
| MemoryProperties.ScalarCtlRoundTrip | src/machine/memory/frontend_memory.cpp:93-142 | A register written and read back with the same scalar code gives its N-bit reading: sign-extended for a signed code, zero-extended for an unsigned one. |
| MemoryProperties.BeyondLane | src/machine/memory/frontend_memory.cpp:57-59 | A byte at or beyond address + 4k lies outside lane k - 1. |
| MemoryProperties.VectorStoreFrame | src/machine/memory/frontend_memory.cpp:51-66 | A vector write touches no byte beyond its first 4*vl bytes. |
| MemoryProperties.VectorCtlRoundTrip | src/machine/memory/frontend_memory.cpp:113-143 | A vector written and read back with V32 and the same vl gives its lanes below vl, and zero above. |
| MemoryProperties.ExampleBigOnLittle | src/machine/memory/frontend_memory.cpp:168-184 | A big-endian machine on a little-endian host stores 0x12345678 at 0x1000. A 4-byte read at 0x1002 gives 0x56780000. |
| MemoryProperties.ExampleLittleOnBig | src/machine/memory/frontend_memory.cpp:168-184 | The mirrored case, a little-endian machine on a big-endian host, reads 0x00001234. |
| MemoryProperties.ExampleBytes | src/machine/memory/frontend_memory.cpp:168-184 | The byte layouts of 0x12345678 in each order. |
| MemoryProperties.ExampleLoad | src/machine/memory/frontend_memory.cpp:168-184 | The 4 bytes at 0x1002 after a 4-byte store at 0x1000 into empty memory. |
| RegisterFiles.NewRegisterId | src/machine/registers.h:33-42 | An identifier is created exactly when the value is below 32 and then holds that value. Otherwise it is the out-of-bounds failure for that value. |
| RegisterFiles.DefaultRegisterId | src/machine/registers.h:43 | The default identifier is the checked identifier 0. |
| RegisterFiles.IdRoundTrip | src/machine/registers.h:27 | Converting an identifier back to an index gives one that the check accepts again, below 32. |
| RegisterFiles.RegLiteral | src/machine/registers.h:45-50 | The `_reg`/`_vreg` literals as written: the check sees the value modulo 256. |
| RegisterFiles.LiteralWrapsAround | src/machine/registers.h:45-50 | `256_reg` yields register 0 and `0x105_reg` yields register 5 without failure, while the checked form rejects 256. |
| RegisterFiles.CheckedRegLiteral | src/machine/registers.h:45-50 | A literal is accepted exactly when it is below 32, and the identifier then equals it. |
| RegisterFiles.LiteralsAgreeBelow256 | src/machine/registers.h:45-50 | For literals below 256 the as-written and corrected forms coincide. |
| RegisterFiles.Registers.constructor | src/machine/registers.h:91-94 | A fresh register file has every gp and vector register zero, `pc` 0 and `vl` 0. |
| RegisterFiles.Registers.Copy | src/machine/registers.h:59 | A copy has arrays of its own with the same registers, `pc` and `vl`. |
| RegisterFiles.Registers.ReadPc | src/machine/registers.h:61 | No contract; `read_pc` returns the stored `pc`; WritePc and Reset are stated through it. |
| RegisterFiles.Registers.WritePc | src/machine/registers.h:61-62 | After `write_pc(a)`, `read_pc()` is a. The registers and `vl` are unchanged. |
| RegisterFiles.Registers.ReadVl | src/machine/registers.h:64 | No contract; `read_vl` returns the stored `vl`; WriteVl is stated through it. |
| RegisterFiles.Registers.WriteVl | src/machine/registers.h:64-65 | After `write_vl(n)`, `read_vl()` is n. The registers and `pc` are unchanged. |
| RegisterFiles.Registers.ReadGp | src/machine/registers.h:67-68 | `read_gp(0)` is zero without touching the array, which agrees with the stored entry for every identifier because entry 0 stays zero. |
| RegisterFiles.Registers.WriteGp | src/machine/registers.h:69-70 | `write_gp(r, v)` makes `read_gp(r)` v, or zero when r = 0, where the write is dropped. Every other register, `pc`, `vl` and the vector registers are unchanged. |
| RegisterFiles.Registers.ReadVr | src/machine/registers.h:71 | No contract; `read_vr` returns the stored vector register; vector register 0 is ordinary. |
| RegisterFiles.Registers.WriteVr | src/machine/registers.h:71-72 | `write_vr(r, v)` makes `read_vr(r)` v. Every other vector register, the gp registers, `pc` and `vl` are unchanged. |
| RegisterFiles.Registers.Reset | src/machine/registers.h:77 | `reset` zeroes every gp and vector register and `vl`. `pc` keeps its value. |
| RegisterFiles.Registers.Equals | src/machine/registers.h:74 | No contract; `==` compares both register arrays, `pc` and `vl`; EqualsMeansSameReads states its meaning. |
| RegisterFiles.EqualsMeansSameReads | src/machine/registers.h:74 | Two register files are `==` exactly when every `read_gp`, `read_vr`, `read_pc` and `read_vl` agrees. |

## Left out

- The diagnostic `printf` traces in `vec32_operate` (src/machine/execute/alu.cpp:175-187, 211-223) are output only and are not modelled.
- The `qDebug` "unknown operation" defaults of each routine are not modelled. The operations are datatypes, so those branches cannot be reached.
- The `mulh64`, `mulhsu64` and `mulhu64` helpers come from a polyfill header that is not part of this model. The 64-bit MULH* results are defined as the high 64 bits of the exact 128-bit product.
- Alu.Alu64, Alu.Alu32, Alu.Mul64 and Alu.Mul32 carry no contract of their own. They are the reference definitions, and their behaviour is stated by the AluProperties lemmas.
- The Qt signals of `Registers`, and the Qt metatype declarations of both headers, are not modelled. They do not affect the values.
- `registers.cpp` is not part of this model. The contracts of `Registers` follow the declarations and comments in `registers.h`.
- `Registers` `operator!=` is not modelled separately. It is the negation of `==`, and `==` is `Registers.Equals`.
- The real memory backend (`read`/`write` with `AccessEffects`) is replaced by a byte map. Access effects and access timing are not modelled.
- `sync` and `location_status` are trivial forwarding stubs and are not modelled.
- The host byte order (`NATIVE_ENDIAN`) is not detected. It is a constructor parameter of `FrontendMemory`, and the proved properties hold for all four combinations.
- `vl` greater than 32 indexes past the end of a C++ `std::array`. The model makes `vl <= 32` a precondition of the vector operations.
- Vector result lanes at or beyond `vl` are left uninitialised by the C++ code. The model fills them with zero.
- Reading the union member that its tag does not select (e.g. `value.v` for a scalar) is unchecked in C++. The model makes the correct tag a precondition: `Alu.OpFits` for the member of the operation code the component reads, and `Alu.OperandsFit` and `FrontendMemories.CtlOperandFits` for the operands.
- FrontendMemories.FrontendMemory.WriteGeneric: `changed` is the backend's report that the write altered the bytes. It is modelled as "the value held before differs from the value written". `FrontendMemories.ChangedMeansBytesDiffer` proves this is the same as the bytes differing.
- A `RegisterId` built from a value of 32 or more fails the sanity assertion at src/machine/registers.h:39-41. The model represents that failure as an `OutOfBounds` result.
- The mutable lane reference of `VectorRegisterValue::operator[]` is modelled as the value update `WithLane`. Aliasing through the reference is not modelled.
- UnionObject.AssignScalar, AssignBits, AssignVector and AssignLanes: the model does not state the contents of the member the tag does not select. In C++ those contents are overwritten shared storage.

## Findings

| source | as written | input that shows it | evidently intended | confidence | as-written member | corrected member |
|---|---|---|---|---|---|---|
| src/machine/registers.h:45-50 | `_reg` and `_vreg` cast the literal to `uint8_t` before the bounds check, so the check sees the value modulo 256 | `256_reg` gives register 0 and `0x105_reg` gives register 5, with no failure | a literal of 32 or more fails the bounds check | low (a literal that large may never be written), not executed | RegisterFiles.LiteralWrapsAround | RegisterFiles.CheckedRegLiteral |
