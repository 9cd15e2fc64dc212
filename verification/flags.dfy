/** The status register and the decoder's flag helpers.

    `Sreg` holds the eight status flags; `ToByte`/`FromByte` give the
    register's byte view (C in bit 0 up to I in bit 7), which is what
    BCLR, BSET, BRBC and BRBS work on. The carry and overflow helpers are
    the bitwise formulas the decoder evaluates on bit `b` (or bit 7) of
    the result and both operands, which C evaluates on the bytes promoted
    to `int`; they are modelled on `Byte` integers, and the lemmas below
    state what they mean in integer arithmetic.
 */
module Flags {
  import opened Operands

  datatype Sreg = Sreg(C: bool, Z: bool, N: bool, V: bool, S: bool, H: bool, T: bool, I: bool)

  /** Bit `b` of a byte. */
  function Bit(x: bv8, b: BitNum): bool
  {
    (x >> b) & 1 == 1
  }

  /** A flag as the 0/1 byte the decoder adds into a result. */
  function Cb(c: bool): bv8 { if c then 1 else 0 }

  /** A flag as an integer 0 or 1. */
  function Cin(c: bool): int { if c then 1 else 0 }

  /** A byte value as the decoder's integer arithmetic sees it (an
      `unsigned char` promoted to `int`). */
  type Byte = x: int | 0 <= x < 256

  /** A byte value read as a two's-complement number. */
  function SignedOf(v: int): int
  {
    if v < 128 then v else v - 256
  }

  // ---------------------------------------------------------------------
  // The status register as a byte
  // ---------------------------------------------------------------------

  /** Flag number `b` (0 = C … 7 = I). */
  function Flag(s: Sreg, b: BitNum): bool
  {
    match b
    case 0 => s.C
    case 1 => s.Z
    case 2 => s.N
    case 3 => s.V
    case 4 => s.S
    case 5 => s.H
    case 6 => s.T
    case _ => s.I
  }

  /** `s` with flag number `b` set to `v`. */
  function WithFlag(s: Sreg, b: BitNum, v: bool): (r: Sreg)
    ensures Flag(r, b) == v
    ensures forall c: BitNum :: c != b ==> Flag(r, c) == Flag(s, c)
  {
    match b
    case 0 => s.(C := v)
    case 1 => s.(Z := v)
    case 2 => s.(N := v)
    case 3 => s.(V := v)
    case 4 => s.(S := v)
    case 5 => s.(H := v)
    case 6 => s.(T := v)
    case _ => s.(I := v)
  }

  function ToByte(s: Sreg): bv8
  {
    Cb(s.C) | (Cb(s.Z) << 1) | (Cb(s.N) << 2) | (Cb(s.V) << 3)
    | (Cb(s.S) << 4) | (Cb(s.H) << 5) | (Cb(s.T) << 6) | (Cb(s.I) << 7)
  }

  function FromByte(x: bv8): Sreg
  {
    Sreg(Bit(x, 0), Bit(x, 1), Bit(x, 2), Bit(x, 3), Bit(x, 4), Bit(x, 5), Bit(x, 6), Bit(x, 7))
  }

  /** Flag `b` is bit `b` of the status byte. */
  lemma ByteFlag(s: Sreg, b: BitNum)
    ensures Bit(ToByte(s), b) == Flag(s, b)
  {}

  lemma FromToByte(s: Sreg)
    ensures FromByte(ToByte(s)) == s
  {}

  lemma ToFromByte(x: bv8)
    ensures ToByte(FromByte(x)) == x
  {}

  /** The mask `1 << b` of one bit, as BCLR, BSET, BLD, BST and the bit
      tests build it. */
  function BitMask(b: BitNum): bv8
  {
    1 << b
  }

  lemma MaskTest(x: bv8, b: BitNum)
    ensures (x & BitMask(b) != 0) <==> Bit(x, b)
  {}

  /** Clearing bit `b` of the status byte clears exactly flag `b`. */
  lemma ClearFlag(s: Sreg, b: BitNum)
    ensures FromByte(ToByte(s) & !BitMask(b)) == WithFlag(s, b, false)
  {}

  /** Setting bit `b` of the status byte sets exactly flag `b`. */
  lemma SetFlag(s: Sreg, b: BitNum)
    ensures FromByte(ToByte(s) | BitMask(b)) == WithFlag(s, b, true)
  {}

  // ---------------------------------------------------------------------
  // Flag helpers. The decoder shifts and masks bytes promoted to `int`:
  // `x >> b & 1` is `x / 2^b % 2`. The compare helpers of the decoder have
  // the same bodies as the subtract helpers, so one definition serves both.
  // ---------------------------------------------------------------------

  /** Bit `b` of a non-negative integer (`x >> b & 0x1`), with `x >> b`
      written as division by the literal `2^b`. */
  function BitAt(x: int, b: BitNum): bool
  {
    match b
    case 0 => x % 2 == 1
    case 1 => (x / 2) % 2 == 1
    case 2 => (x / 4) % 2 == 1
    case 3 => (x / 8) % 2 == 1
    case 4 => (x / 16) % 2 == 1
    case 5 => (x / 32) % 2 == 1
    case 6 => (x / 64) % 2 == 1
    case _ => (x / 128) % 2 == 1
  }

  function AddCarry(res: Byte, rd: Byte, rr: Byte, b: BitNum): bool
  {
    var resb := BitAt(res, b);
    var rdb := BitAt(rd, b);
    var rrb := BitAt(rr, b);
    (rdb && rrb) || (rrb && !resb) || (!resb && rdb)
  }

  function AddOverflow(res: Byte, rd: Byte, rr: Byte): bool
  {
    var res7 := BitAt(res, 7);
    var rd7 := BitAt(rd, 7);
    var rr7 := BitAt(rr, 7);
    (rd7 && rr7 && !res7) || (!rd7 && !rr7 && res7)
  }

  function SubCarry(res: Byte, rd: Byte, rr: Byte, b: BitNum): bool
  {
    var resb := BitAt(res, b);
    var rdb := BitAt(rd, b);
    var rrb := BitAt(rr, b);
    (!rdb && rrb) || (rrb && resb) || (resb && !rdb)
  }

  function SubOverflow(res: Byte, rd: Byte, rr: Byte): bool
  {
    var res7 := BitAt(res, 7);
    var rd7 := BitAt(rd, 7);
    var rr7 := BitAt(rr, 7);
    (rd7 && !rr7 && !res7) || (!rd7 && rr7 && res7)
  }

  // ---------------------------------------------------------------------
  // Meaning of the helpers
  // ---------------------------------------------------------------------

  /** Bit 7 of a byte is its sign. */
  lemma Bit7(x: bv8)
    ensures Bit(x, 7) <==> x as int >= 128
  {}

  lemma BitAt7(x: Byte)
    ensures BitAt(x, 7) <==> x >= 128
  {}

  lemma BitAt3(x: Byte)
    ensures BitAt(x, 3) <==> x % 16 >= 8
  {
    assert x / 8 == 2 * (x / 16) + (x % 16) / 8;
  }

  lemma ModSmall(t: int)
    requires 0 <= t < 512
    ensures t % 256 == if t < 256 then t else t - 256
  {}

  lemma ModNeg(t: int)
    requires -256 <= t < 256
    ensures t % 256 == if t < 0 then t + 256 else t
  {}

  lemma ShiftMod(k: int, r: int)
    ensures (16 * k + r) % 16 == r % 16
  {}

  lemma Mod16Small(t: int)
    requires 0 <= t < 32
    ensures t % 16 == if t < 16 then t else t - 16
  {}

  lemma Mod16Neg(t: int)
    requires -16 <= t < 16
    ensures t % 16 == if t < 0 then t + 16 else t
  {}

  lemma MulBound(d: int, k: int)
    requires d > 0 && -d < d * k < d
    ensures k == 0
  {}

  /** Euclidean division is unique: a remainder in range is the
      remainder. */
  lemma ModUnique(v: int, d: int, a: int, t: int)
    requires d > 0 && v == d * a + t && 0 <= t < d
    ensures v % d == t
  {
    var q := v / d;
    var r := v % d;
    assert d * q + r == v;
    assert d * (q - a) == t - r;
    MulBound(d, q - a);
  }

  /** `ri` is the byte sum of `a`, `b` and the carry `cin`. */
  predicate ByteSum(a: int, b: int, cin: int, ri: int)
  {
    0 <= a < 256 && 0 <= b < 256 && 0 <= cin <= 1 && ri == (a + b + cin) % 256
  }

  /** `ri` is the byte difference of `a`, `b` and the borrow `cin`. */
  predicate ByteDiff(a: int, b: int, cin: int, ri: int)
  {
    0 <= a < 256 && 0 <= b < 256 && 0 <= cin <= 1 && ri == (a - b - cin) % 256
  }

  /** The low nibble of a byte sum depends only on the low nibbles. */
  lemma NibbleOfSum(a: int, b: int, cin: int, ri: int)
    requires ByteSum(a, b, cin, ri)
    ensures ri % 16 == (a % 16 + b % 16 + cin) % 16
  {
    var t := a + b + cin;
    ModSmall(t);
    assert a == 16 * (a / 16) + a % 16;
    assert b == 16 * (b / 16) + b % 16;
    var k := a / 16 + b / 16 - (if t < 256 then 0 else 16);
    assert ri == 16 * k + (a % 16 + b % 16 + cin);
    ShiftMod(k, a % 16 + b % 16 + cin);
  }

  /** The low nibble of a byte difference depends only on the low
      nibbles. */
  lemma NibbleOfDiff(a: int, b: int, cin: int, ri: int)
    requires ByteDiff(a, b, cin, ri)
    ensures ri % 16 == (a % 16 - b % 16 - cin) % 16
  {
    var t := a - b - cin;
    ModNeg(t);
    assert a == 16 * (a / 16) + a % 16;
    assert b == 16 * (b / 16) + b % 16;
    var k := a / 16 - b / 16 + (if t < 0 then 16 else 0);
    assert ri == 16 * k + (a % 16 - b % 16 - cin);
    ShiftMod(k, a % 16 - b % 16 - cin);
  }

  /** C after an addition is the carry out of bit 7. */
  lemma AddCarryFlag(res: Byte, rd: Byte, rr: Byte, c: bool)
    requires ByteSum(rd, rr, Cin(c), res)
    ensures AddCarry(res, rd, rr, 7) <==> rd + rr + Cin(c) >= 256
  {
    BitAt7(res); BitAt7(rd); BitAt7(rr);
    ModSmall(rd + rr + Cin(c));
  }

  /** H after an addition is the carry out of bit 3. */
  lemma AddHalfCarryFlag(res: Byte, rd: Byte, rr: Byte, c: bool)
    requires ByteSum(rd, rr, Cin(c), res)
    ensures AddCarry(res, rd, rr, 3) <==> rd % 16 + rr % 16 + Cin(c) >= 16
  {
    BitAt3(res); BitAt3(rd); BitAt3(rr);
    NibbleOfSum(rd, rr, Cin(c), res);
    Mod16Small(rd % 16 + rr % 16 + Cin(c));
  }

  /** V after an addition is the overflow of the signed sum. */
  lemma AddOverflowFlag(res: Byte, rd: Byte, rr: Byte, c: bool)
    requires ByteSum(rd, rr, Cin(c), res)
    ensures AddOverflow(res, rd, rr) <==> !(-128 <= SignedOf(rd) + SignedOf(rr) + Cin(c) <= 127)
  {
    BitAt7(res); BitAt7(rd); BitAt7(rr);
    ModSmall(rd + rr + Cin(c));
  }

  /** C after a subtraction is the unsigned borrow `rd < rr + c`. */
  lemma SubBorrowFlag(res: Byte, rd: Byte, rr: Byte, c: bool)
    requires ByteDiff(rd, rr, Cin(c), res)
    ensures SubCarry(res, rd, rr, 7) <==> rd < rr + Cin(c)
  {
    BitAt7(res); BitAt7(rd); BitAt7(rr);
    ModNeg(rd - rr - Cin(c));
  }

  /** H after a subtraction is the borrow of the low nibbles. */
  lemma SubHalfBorrowFlag(res: Byte, rd: Byte, rr: Byte, c: bool)
    requires ByteDiff(rd, rr, Cin(c), res)
    ensures SubCarry(res, rd, rr, 3) <==> rd % 16 < rr % 16 + Cin(c)
  {
    BitAt3(res); BitAt3(rd); BitAt3(rr);
    NibbleOfDiff(rd, rr, Cin(c), res);
    Mod16Neg(rd % 16 - rr % 16 - Cin(c));
  }

  /** V after a subtraction is the overflow of the signed difference. */
  lemma SubOverflowFlag(res: Byte, rd: Byte, rr: Byte, c: bool)
    requires ByteDiff(rd, rr, Cin(c), res)
    ensures SubOverflow(res, rd, rr) <==> !(-128 <= SignedOf(rd) - SignedOf(rr) - Cin(c) <= 127)
  {
    BitAt7(res); BitAt7(rd); BitAt7(rr);
    ModNeg(rd - rr - Cin(c));
  }
}
