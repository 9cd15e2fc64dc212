/** Operand extraction for 16-bit AVR opcode words.

    Each extractor pulls one operand field out of an opcode word, using the
    same masks and shifts as the decoder's `get_*` helpers. Each `Place*`
    function is the reverse direction, the operand layout of the AVR
    instruction set: it puts an operand value into its bit positions. Each
    extractor's contract says that extraction inverts placement on the
    field's mask, so no field bit is lost or invented.
 */
module Operands {

  /** Index of a general-purpose register R0..R31. */
  type Reg = r: bv8 | r < 32
  /** Upper-half register R16..R31 (4-bit register fields). */
  type HighReg = r: bv8 | 16 <= r < 32 witness 16
  /** Register R16..R23 (3-bit register fields). */
  type MidReg = r: bv8 | 16 <= r < 24 witness 16
  /** Low register of the pairs R25:R24, R27:R26, R29:R28, R31:R30. */
  type PairReg = r: bv8 | r == 24 || r == 26 || r == 28 || r == 30 witness 24
  /** Bit number 0..7 within a byte. */
  type BitNum = b: bv8 | b < 8
  /** 5-bit unsigned field: the I/O address of CBI/SBI/SBIC/SBIS. */
  type Imm5 = k: bv8 | k < 32
  /** 6-bit unsigned field: K of ADIW/SBIW, q of LDD/STD, A of IN/OUT, high part of a 22-bit address. */
  type Imm6 = k: bv8 | k < 64
  /** 7-bit branch displacement field of BRBC/BRBS, before sign conversion. */
  type Imm7 = k: bv8 | k < 128
  /** 12-bit displacement field of RJMP/RCALL, before sign conversion. */
  type Imm12 = k: bv16 | k < 4096

  // The operand masks of the decoder.
  const MaskRd2: bv16 := 0x0030
  const MaskRd3: bv16 := 0x0070
  const MaskRd4: bv16 := 0x00F0
  const MaskRd5: bv16 := 0x01F0
  const MaskRr3: bv16 := 0x0007
  const MaskRr4: bv16 := 0x000F
  const MaskRr5: bv16 := 0x020F
  const MaskK8: bv16 := 0x0F0F
  const MaskK6: bv16 := 0x00CF
  const Maskk7: bv16 := 0x03F8
  const Maskk12: bv16 := 0x0FFF
  const Maskk22: bv16 := 0x01F1
  const MaskRegBit: bv16 := 0x0007
  const MaskSregBit: bv16 := 0x0070
  const MaskQ: bv16 := 0x2C07
  const MaskA5: bv16 := 0x00F8
  const MaskA6: bv16 := 0x060F

  // ---------------------------------------------------------------------
  // Operand layout of the instruction set (opcode bit positions).
  // ---------------------------------------------------------------------

  /** `.... .... ..dd ....`: pair R24+2*dd. */
  function PlaceRd2(d: PairReg): bv16 { (((d - 24) / 2) as bv16) << 4 }
  /** `.... .... .ddd ....`: register 16+ddd. */
  function PlaceRd3(d: MidReg): bv16 { ((d - 16) as bv16) << 4 }
  /** `.... .... dddd ....`: register 16+dddd. */
  function PlaceRd4(d: HighReg): bv16 { ((d - 16) as bv16) << 4 }
  /** `.... ...d dddd ....` */
  function PlaceRd5(d: Reg): bv16 { (d as bv16) << 4 }
  /** `.... .... .... .rrr`: register 16+rrr. */
  function PlaceRr3(r: MidReg): bv16 { (r - 16) as bv16 }
  /** `.... .... .... rrrr`: register 16+rrrr. */
  function PlaceRr4(r: HighReg): bv16 { (r - 16) as bv16 }
  /** `.... ..r. .... rrrr`: the top bit of r sits at bit 9. */
  function PlaceRr5(r: Reg): bv16 { ((r as bv16) & 0xF) | (((r as bv16) & 0x10) << 5) }
  /** `.... KKKK .... KKKK` */
  function PlaceK8(k: bv8): bv16 { ((k as bv16) & 0xF) | (((k as bv16) & 0xF0) << 4) }
  /** `.... .... KK.. KKKK` */
  function PlaceK6(k: Imm6): bv16 { ((k as bv16) & 0xF) | (((k as bv16) & 0x30) << 2) }
  /** `.... ..kk kkkk k...` */
  function Placek7(k: Imm7): bv16 { (k as bv16) << 3 }
  /** `.... kkkk kkkk kkkk` */
  function Placek12(k: Imm12): bv16 { k }
  /** `.... ...k kkkk ...k`: the six high bits of a 22-bit address. */
  function Placek22(k: Imm6): bv16 { ((k as bv16) & 0x1) | (((k as bv16) & 0x3E) << 3) }
  /** `.... .... .... .bbb` */
  function PlaceRegBit(b: BitNum): bv16 { b as bv16 }
  /** `.... .... .sss ....` */
  function PlaceSregBit(b: BitNum): bv16 { (b as bv16) << 4 }
  /** `..q. qq.. .... .qqq` */
  function PlaceQ(q: Imm6): bv16
  {
    ((q as bv16) & 0x7) | (((q as bv16) & 0x18) << 7) | (((q as bv16) & 0x20) << 8)
  }
  /** `.... .... AAAA A...` */
  function PlaceA5(a: Imm5): bv16 { (a as bv16) << 3 }
  /** `.... .AA. .... AAAA` */
  function PlaceA6(a: Imm6): bv16 { ((a as bv16) & 0xF) | (((a as bv16) & 0x30) << 5) }

  // ---------------------------------------------------------------------
  // Extractors (get_rd_2 ... get_A_6).
  // ---------------------------------------------------------------------

  /** get_rd_2: one of R24, R26, R28, R30. */
  function Rd2(op: bv16): (r: bv8)
    ensures r == 24 || r == 26 || r == 28 || r == 30
    ensures PlaceRd2(r) == op & MaskRd2
  {
    var reg := ((op & MaskRd2) >> 4) & 0x3;
    (reg * 2 + 24) as bv8
  }

  /** get_rd_3: R16..R23. */
  function Rd3(op: bv16): (r: bv8)
    ensures 16 <= r < 24
    ensures PlaceRd3(r) == op & MaskRd3
  {
    var reg := op & MaskRd3;
    (((reg >> 4) & 0x7) + 16) as bv8
  }

  /** get_rd_4: R16..R31. */
  function Rd4(op: bv16): (r: bv8)
    ensures 16 <= r < 32
    ensures PlaceRd4(r) == op & MaskRd4
  {
    var reg := op & MaskRd4;
    (((reg >> 4) & 0xF) + 16) as bv8
  }

  /** get_rd_5: R0..R31. */
  function Rd5(op: bv16): (r: bv8)
    ensures r < 32
    ensures PlaceRd5(r) == op & MaskRd5
  {
    var reg := op & MaskRd5;
    ((reg >> 4) & 0x1F) as bv8
  }

  /** get_rr_3: R16..R23. */
  function Rr3(op: bv16): (r: bv8)
    ensures 16 <= r < 24
    ensures PlaceRr3(r) == op & MaskRr3
  {
    ((op & MaskRr3) + 16) as bv8
  }

  /** get_rr_4: R16..R31. */
  function Rr4(op: bv16): (r: bv8)
    ensures 16 <= r < 32
    ensures PlaceRr4(r) == op & MaskRr4
  {
    ((op & MaskRr4) + 16) as bv8
  }

  /** get_rr_5: R0..R31, with the top bit taken from bit 9. */
  function Rr5(op: bv16): (r: bv8)
    ensures r < 32
    ensures PlaceRr5(r) == op & MaskRr5
  {
    var reg := op & MaskRr5;
    ((reg & 0xF) + ((reg >> 5) & 0x10)) as bv8
  }

  /** get_K_8: the 8-bit constant split over bits 11..8 and 3..0. */
  function K8(op: bv16): (k: bv8)
    ensures PlaceK8(k) == op & MaskK8
  {
    var k := op & MaskK8;
    (((k >> 4) & 0xF0) + (k & 0xF)) as bv8
  }

  /** get_K_6: the 6-bit constant split over bits 7..6 and 3..0. */
  function K6(op: bv16): (k: bv8)
    ensures k < 64
    ensures PlaceK6(k) == op & MaskK6
  {
    var k := op & MaskK6;
    (((k >> 2) & 0x30) + (k & 0xF)) as bv8
  }

  /** get_k_7: the 7-bit branch displacement in bits 9..3. */
  function k7(op: bv16): (k: bv8)
    ensures k < 128
    ensures Placek7(k) == op & Maskk7
  {
    (((op & Maskk7) >> 3) & 0x7F) as bv8
  }

  /** get_k_12: the 12-bit displacement in bits 11..0. */
  function k12(op: bv16): (k: bv16)
    ensures k < 4096
    ensures Placek12(k) == op & Maskk12
  {
    op & Maskk12
  }

  /** get_k_22: the six address bits held in the opcode word itself (bits 8..4 and 0). */
  function k22(op: bv16): (k: bv8)
    ensures k < 64
    ensures Placek22(k) == op & Maskk22
  {
    var k := op & Maskk22;
    (((k >> 3) & 0x3E) + (k & 0x1)) as bv8
  }

  /** get_reg_bit: bit number in bits 2..0. */
  function RegBit(op: bv16): (b: bv8)
    ensures b < 8
    ensures PlaceRegBit(b) == op & MaskRegBit
  {
    (op & MaskRegBit) as bv8
  }

  /** get_sreg_bit: status-register bit number in bits 6..4. */
  function SregBit(op: bv16): (b: bv8)
    ensures b < 8
    ensures PlaceSregBit(b) == op & MaskSregBit
  {
    ((op & MaskSregBit) >> 4) as bv8
  }

  /** get_q: the displacement scattered over bits 13, 11..10 and 2..0. */
  function Q(op: bv16): (q: bv8)
    ensures q < 64
    ensures PlaceQ(q) == op & MaskQ
  {
    var q := op & MaskQ;
    var qq := (((q >> 1) & 0x1000) + (q & 0x0C00)) >> 7;
    ((qq & 0x38) + (q & 0x7)) as bv8
  }

  /** get_A_5: the 5-bit I/O address in bits 7..3. */
  function A5(op: bv16): (a: bv8)
    ensures a < 32
    ensures PlaceA5(a) == op & MaskA5
  {
    ((op & MaskA5) >> 3) as bv8
  }

  /** get_A_6: the 6-bit I/O address split over bits 10..9 and 3..0. */
  function A6(op: bv16): (a: bv8)
    ensures a < 64
    ensures PlaceA6(a) == op & MaskA6
  {
    var a := op & MaskA6;
    (((a >> 5) & 0x30) + (a & 0xF)) as bv8
  }

  // ---------------------------------------------------------------------
  // Extraction inverts placement: an operand placed in its field is read
  // back unchanged, whatever the opcode holds outside the field.
  // ---------------------------------------------------------------------

  lemma Rd2OfPlace(x: PairReg, op: bv16)
    requires op & MaskRd2 == PlaceRd2(x)
    ensures Rd2(op) == x
  {}

  lemma Rd3OfPlace(x: MidReg, op: bv16)
    requires op & MaskRd3 == PlaceRd3(x)
    ensures Rd3(op) == x
  {}

  lemma Rd4OfPlace(x: HighReg, op: bv16)
    requires op & MaskRd4 == PlaceRd4(x)
    ensures Rd4(op) == x
  {}

  lemma Rd5OfPlace(x: Reg, op: bv16)
    requires op & MaskRd5 == PlaceRd5(x)
    ensures Rd5(op) == x
  {}

  lemma Rr3OfPlace(x: MidReg, op: bv16)
    requires op & MaskRr3 == PlaceRr3(x)
    ensures Rr3(op) == x
  {}

  lemma Rr4OfPlace(x: HighReg, op: bv16)
    requires op & MaskRr4 == PlaceRr4(x)
    ensures Rr4(op) == x
  {}

  lemma Rr5OfPlace(x: Reg, op: bv16)
    requires op & MaskRr5 == PlaceRr5(x)
    ensures Rr5(op) == x
  {}

  lemma K8OfPlace(x: bv8, op: bv16)
    requires op & MaskK8 == PlaceK8(x)
    ensures K8(op) == x
  {}

  lemma K6OfPlace(x: Imm6, op: bv16)
    requires op & MaskK6 == PlaceK6(x)
    ensures K6(op) == x
  {}

  lemma k7OfPlace(x: Imm7, op: bv16)
    requires op & Maskk7 == Placek7(x)
    ensures k7(op) == x
  {}

  lemma k12OfPlace(x: Imm12, op: bv16)
    requires op & Maskk12 == Placek12(x)
    ensures k12(op) == x
  {}

  lemma k22OfPlace(x: Imm6, op: bv16)
    requires op & Maskk22 == Placek22(x)
    ensures k22(op) == x
  {}

  lemma RegBitOfPlace(x: BitNum, op: bv16)
    requires op & MaskRegBit == PlaceRegBit(x)
    ensures RegBit(op) == x
  {}

  lemma SregBitOfPlace(x: BitNum, op: bv16)
    requires op & MaskSregBit == PlaceSregBit(x)
    ensures SregBit(op) == x
  {}

  lemma QOfPlace(x: Imm6, op: bv16)
    requires op & MaskQ == PlaceQ(x)
    ensures Q(op) == x
  {}

  lemma A5OfPlace(x: Imm5, op: bv16)
    requires op & MaskA5 == PlaceA5(x)
    ensures A5(op) == x
  {}

  lemma A6OfPlace(x: Imm6, op: bv16)
    requires op & MaskA6 == PlaceA6(x)
    ensures A6(op) == x
  {}

  // ---------------------------------------------------------------------
  // n_bit_unsigned_to_signed
  // ---------------------------------------------------------------------

  /** Two's-complement reading of the low `n` bits of `val`, computed with
      32-bit unsigned operations: identity when bit n-1 is clear, otherwise
      minus the complement-plus-one within the n-bit mask. */
  function NBitUnsignedToSigned(val: bv32, n: nat): (r: int)
    requires 1 <= n <= 31
    ensures r < 0 <==> val & ((1 as bv32) << (n - 1)) != 0
  {
    if val & ((1 as bv32) << (n - 1)) == 0 then
      val as int
    else
      var mask: bv32 := ((1 as bv32) << n) - 1;
      ComplementPlusOne(val, mask, n);
      -1 * (((!val & mask) + 1) as int)
  }

  /** Within an n-bit mask, n below 32, the complement plus one does not
      wrap to zero, so the negative branch really is negative. */
  lemma ComplementPlusOne(val: bv32, mask: bv32, n: nat)
    requires 1 <= n <= 31 && mask == ((1 as bv32) << n) - 1
    ensures 1 <= ((!val & mask) + 1) as int
  {
    assert mask <= 0x7FFF_FFFF;
    assert 1 <= (!val & mask) + 1;
  }

  /** The signed offset of a BRBC/BRBS displacement field. */
  function BranchOffset(k: Imm7): (r: int)
    ensures -64 <= r < 64
    ensures (r - k as int) % 128 == 0
    ensures k < 64 ==> r == k as int
  {
    SevenBitFacts(k as bv32);
    NBitUnsignedToSigned(k as bv32, 7)
  }

  /** The signed offset of an RJMP/RCALL displacement field. */
  function JumpOffset(k: Imm12): (r: int)
    ensures -2048 <= r < 2048
    ensures (r - k as int) % 4096 == 0
    ensures k < 2048 ==> r == k as int
  {
    TwelveBitFacts(k as bv32);
    NBitUnsignedToSigned(k as bv32, 12)
  }

  /** For a 7-bit value: the result lies in [-64, 63], is congruent to the
      value modulo 128, and is the value itself when bit 6 is clear. */
  lemma SevenBitFacts(val: bv32)
    requires val < 128
    ensures var r := NBitUnsignedToSigned(val, 7);
      && -64 <= r < 64
      && (r - val as int) % 128 == 0
      && (val < 64 ==> r == val as int)
  {
    SevenBitInt(val);
    if val < 64 {
      SevenBitMasks(val);
    } else {
      SevenBitNegative(val);
    }
  }

  /** For a 12-bit value: the result lies in [-2048, 2047], is congruent to
      the value modulo 4096, and is the value itself when bit 11 is clear. */
  lemma TwelveBitFacts(val: bv32)
    requires val < 4096
    ensures var r := NBitUnsignedToSigned(val, 12);
      && -2048 <= r < 2048
      && (r - val as int) % 4096 == 0
      && (val < 2048 ==> r == val as int)
  {
    TwelveBitInt(val);
    if val < 2048 {
      TwelveBitMasks(val);
    } else {
      TwelveBitNegative(val);
    }
  }

  lemma SevenBitNegative(val: bv32)
    requires 64 <= val < 128
    ensures NBitUnsignedToSigned(val, 7) == val as int - 128
  {
    SevenBitMasks(val);
    SevenBitInt(val);
  }

  lemma TwelveBitNegative(val: bv32)
    requires 2048 <= val < 4096
    ensures NBitUnsignedToSigned(val, 12) == val as int - 4096
  {
    TwelveBitMasks(val);
    TwelveBitInt(val);
  }

  lemma SevenBitMasks(val: bv32)
    requires val < 128
    ensures NBitUnsignedToSigned(val, 7) == if val < 64 then val as int else -1 * ((128 - val) as int)
  {
    SevenBitTest(val);
    if val >= 64 {
      var c := (!val & (((1 as bv32) << 7) - 1)) + 1;
      SevenBitComplement(val);
      assert c == 128 - val;
      assert NBitUnsignedToSigned(val, 7) == -1 * (c as int);
    }
  }

  lemma SevenBitTest(val: bv32)
    requires val < 128
    ensures val & ((1 as bv32) << (7 - 1)) == 0 <==> val < 64
  {}

  lemma SevenBitComplement(val: bv32)
    requires val < 128
    ensures (!val & (((1 as bv32) << 7) - 1)) + 1 == 128 - val
  {}

  lemma SevenBitInt(val: bv32)
    requires val < 128
    ensures (128 - val) as int == 128 - val as int
    ensures val < 64 <==> val as int < 64
    ensures val as int < 128
  {}

  lemma TwelveBitMasks(val: bv32)
    requires val < 4096
    ensures NBitUnsignedToSigned(val, 12) == if val < 2048 then val as int else -1 * ((4096 - val) as int)
  {
    TwelveBitTest(val);
    if val >= 2048 {
      var c := (!val & (((1 as bv32) << 12) - 1)) + 1;
      TwelveBitComplement(val);
      assert c == 4096 - val;
      assert NBitUnsignedToSigned(val, 12) == -1 * (c as int);
    }
  }

  lemma TwelveBitTest(val: bv32)
    requires val < 4096
    ensures val & ((1 as bv32) << (12 - 1)) == 0 <==> val < 2048
  {}

  lemma TwelveBitComplement(val: bv32)
    requires val < 4096
    ensures (!val & (((1 as bv32) << 12) - 1)) + 1 == 4096 - val
  {}

  lemma TwelveBitInt(val: bv32)
    requires val < 4096
    ensures (4096 - val) as int == 4096 - val as int
    ensures val < 2048 <==> val as int < 2048
    ensures val as int < 4096
  {}
}
