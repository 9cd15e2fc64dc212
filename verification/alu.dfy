/** The arithmetic of the instruction bodies. The decoder computes on
    register bytes promoted to `int` and stores the result back into a
    byte; each function here computes the result (byte, word or product)
    and the status flags the way the instruction body does, and the lemma
    that follows it states what they mean: the exact unsigned and signed
    results, carries, borrows and overflows.
 */
module Alu {
  import opened Operands
  import opened Flags

  datatype ByteResult = ByteResult(res: Byte, sreg: Sreg)

  /** A 16-bit result split into its low and high bytes. */
  datatype WordResult = WordResult(lo: Byte, hi: Byte, sreg: Sreg)

  // ---------------------------------------------------------------------
  // Bytes and words
  // ---------------------------------------------------------------------

  /** The low byte of a 16-bit value (`w & 0xff`). */
  function Lo(w: int): Byte
    requires 0 <= w < 65536
  {
    w % 256
  }

  /** The high byte of a 16-bit value (`w >> 8`). */
  function Hi(w: int): Byte
    requires 0 <= w < 65536
  {
    w / 256
  }

  /** The 16-bit value `(hi << 8) + lo`. */
  function WordOf(lo: Byte, hi: Byte): (w: int)
    ensures 0 <= w < 65536
  {
    hi * 256 + lo
  }

  /** The low and high bytes of a joined word are the two halves. */
  lemma Halves(lo: Byte, hi: Byte)
    ensures Lo(WordOf(lo, hi)) == lo && Hi(WordOf(lo, hi)) == hi
  {}

  /** Splitting a word and joining the halves gives the word back. */
  lemma LoHi(w: int)
    requires 0 <= w < 65536
    ensures WordOf(Lo(w), Hi(w)) == w
  {}

  /** A 16-bit value read as a two's-complement number. */
  function SignedWord(w: int): int
  {
    if w < 32768 then w else w - 65536
  }

  /** Bit 15 of a 16-bit value (`(w >> 15) & 0x1`). */
  function Bit15(w: int): bool
    requires 0 <= w < 65536
  {
    (w / 32768) % 2 == 1
  }

  lemma Bit15Test(w: int)
    requires 0 <= w < 65536
    ensures Bit15(w) <==> w >= 32768
  {}

  // ---------------------------------------------------------------------
  // Integer facts behind the sign flag
  // ---------------------------------------------------------------------

  /** When `ri` is the low byte of the exact signed result `t`, the sign
      bit `n` of `ri` exclusive-or the overflow `v` of `t` is the sign of
      `t`: the rule behind S = N xor V. */
  lemma SignRule(t: int, ri: int, n: bool, v: bool)
    requires -256 <= t < 256 && ri == t % 256
    requires n <==> SignedOf(ri) < 0
    requires v <==> !(-128 <= t <= 127)
    ensures (n != v) <==> t < 0
  {}

  lemma SumMod(a: Byte, b: Byte, cin: int, ri: int)
    requires ByteSum(a, b, cin, ri)
    ensures ri == (SignedOf(a) + SignedOf(b) + cin) % 256
  {}

  lemma DiffMod(a: Byte, b: Byte, cin: int, ri: int)
    requires ByteDiff(a, b, cin, ri)
    ensures ri == (SignedOf(a) - SignedOf(b) - cin) % 256
  {}

  // ---------------------------------------------------------------------
  // Addition and subtraction of bytes
  // ---------------------------------------------------------------------

  /** ADD (`c` false) and ADC (`c` the carry flag):
      `unsigned char res = rd + rr + C`. */
  function AddBytes(rd: Byte, rr: Byte, c: bool, s: Sreg): (r: ByteResult)
    ensures r.sreg.S == (r.sreg.N != r.sreg.V) && (r.sreg.Z <==> r.res == 0)
    ensures r.sreg.T == s.T && r.sreg.I == s.I
  {
    var res := (rd + rr + Cin(c)) % 256;
    var n := BitAt(res, 7);
    var v := AddOverflow(res, rd, rr);
    ByteResult(res, s.(H := AddCarry(res, rd, rr, 3), V := v, N := n, S := n != v,
                       Z := res == 0, C := AddCarry(res, rd, rr, 7)))
  }

  lemma AddBytesCarries(rd: Byte, rr: Byte, c: bool, s: Sreg)
    ensures var r := AddBytes(rd, rr, c, s);
      && (r.sreg.C <==> rd + rr + Cin(c) >= 256)
      && (r.sreg.H <==> rd % 16 + rr % 16 + Cin(c) >= 16)
  {
    var res := (rd + rr + Cin(c)) % 256;
    AddCarryFlag(res, rd, rr, c);
    AddHalfCarryFlag(res, rd, rr, c);
  }

  lemma AddBytesSign(rd: Byte, rr: Byte, c: bool, s: Sreg)
    ensures var r := AddBytes(rd, rr, c, s);
      && (r.sreg.V <==> !(-128 <= SignedOf(rd) + SignedOf(rr) + Cin(c) <= 127))
      && (r.sreg.N <==> SignedOf(r.res) < 0)
      && (r.sreg.S <==> SignedOf(rd) + SignedOf(rr) + Cin(c) < 0)
  {
    var res := (rd + rr + Cin(c)) % 256;
    var t := SignedOf(rd) + SignedOf(rr) + Cin(c);
    AddOverflowFlag(res, rd, rr, c);
    BitAt7(res);
    SumMod(rd, rr, Cin(c), res);
    SignRule(t, res, BitAt(res, 7), AddOverflow(res, rd, rr));
  }

  /** The sum and its flags: C and H are the carries out of bit 7 and
      bit 3, V is the signed overflow, S the sign of the exact signed sum,
      and the result is the same byte whether the operands are read as
      unsigned or as signed; T and I are untouched. */
  lemma AddBytesMeaning(rd: Byte, rr: Byte, c: bool, s: Sreg)
    ensures var r := AddBytes(rd, rr, c, s);
      && r.res == (rd + rr + Cin(c)) % 256
      && r.res == (SignedOf(rd) + SignedOf(rr) + Cin(c)) % 256
      && (r.sreg.C <==> rd + rr + Cin(c) >= 256)
      && (r.sreg.H <==> rd % 16 + rr % 16 + Cin(c) >= 16)
      && (r.sreg.V <==> !(-128 <= SignedOf(rd) + SignedOf(rr) + Cin(c) <= 127))
      && (r.sreg.N <==> SignedOf(r.res) < 0)
      && (r.sreg.S <==> SignedOf(rd) + SignedOf(rr) + Cin(c) < 0)
      && (r.sreg.Z <==> r.res == 0)
      && r.sreg.T == s.T && r.sreg.I == s.I
  {
    SumMod(rd, rr, Cin(c), (rd + rr + Cin(c)) % 256);
    AddBytesCarries(rd, rr, c, s);
    AddBytesSign(rd, rr, c, s);
  }

  /** SUB, SUBI, CP and CPI (`c` false), and the arithmetic part of SBC,
      SBCI and CPC (`c` the carry flag). The compare instructions compute
      the same flags and drop the result. */
  function SubBytes(rd: Byte, rr: Byte, c: bool, s: Sreg): (r: ByteResult)
    ensures r.sreg.S == (r.sreg.N != r.sreg.V) && (r.sreg.Z <==> r.res == 0)
    ensures r.sreg.T == s.T && r.sreg.I == s.I
  {
    var res := (rd - rr - Cin(c)) % 256;
    var n := BitAt(res, 7);
    var v := SubOverflow(res, rd, rr);
    ByteResult(res, s.(H := SubCarry(res, rd, rr, 3), V := v, N := n, S := n != v,
                       Z := res == 0, C := SubCarry(res, rd, rr, 7)))
  }

  lemma SubBytesBorrows(rd: Byte, rr: Byte, c: bool, s: Sreg)
    ensures var r := SubBytes(rd, rr, c, s);
      && (r.sreg.C <==> rd < rr + Cin(c))
      && (r.sreg.H <==> rd % 16 < rr % 16 + Cin(c))
  {
    var res := (rd - rr - Cin(c)) % 256;
    SubBorrowFlag(res, rd, rr, c);
    SubHalfBorrowFlag(res, rd, rr, c);
  }

  lemma SubBytesSign(rd: Byte, rr: Byte, c: bool, s: Sreg)
    ensures var r := SubBytes(rd, rr, c, s);
      && (r.sreg.V <==> !(-128 <= SignedOf(rd) - SignedOf(rr) - Cin(c) <= 127))
      && (r.sreg.N <==> SignedOf(r.res) < 0)
      && (r.sreg.S <==> SignedOf(rd) - SignedOf(rr) - Cin(c) < 0)
  {
    var res := (rd - rr - Cin(c)) % 256;
    var t := SignedOf(rd) - SignedOf(rr) - Cin(c);
    SubOverflowFlag(res, rd, rr, c);
    BitAt7(res);
    DiffMod(rd, rr, Cin(c), res);
    SignRule(t, res, BitAt(res, 7), SubOverflow(res, rd, rr));
  }

  /** The difference and its flags: C is the unsigned borrow
      (`rd < rr + c`), H the borrow of the low nibbles, V the signed
      overflow and S the sign of the exact signed difference. */
  lemma SubBytesMeaning(rd: Byte, rr: Byte, c: bool, s: Sreg)
    ensures var r := SubBytes(rd, rr, c, s);
      && r.res == (rd - rr - Cin(c)) % 256
      && r.res == (SignedOf(rd) - SignedOf(rr) - Cin(c)) % 256
      && (r.sreg.C <==> rd < rr + Cin(c))
      && (r.sreg.H <==> rd % 16 < rr % 16 + Cin(c))
      && (r.sreg.V <==> !(-128 <= SignedOf(rd) - SignedOf(rr) - Cin(c) <= 127))
      && (r.sreg.N <==> SignedOf(r.res) < 0)
      && (r.sreg.S <==> SignedOf(rd) - SignedOf(rr) - Cin(c) < 0)
      && (r.sreg.Z <==> r.res == 0)
      && r.sreg.T == s.T && r.sreg.I == s.I
  {
    DiffMod(rd, rr, Cin(c), (rd - rr - Cin(c)) % 256);
    SubBytesBorrows(rd, rr, c, s);
    SubBytesSign(rd, rr, c, s);
  }

  /** Subtracting what was added gives the operand back, and the carry of
      the sum is the borrow of the difference. */
  lemma AddSubInverse(rd: Byte, rr: Byte, c: bool, s: Sreg, s': Sreg)
    ensures var sum := AddBytes(rd, rr, c, s);
      var diff := SubBytes(sum.res, rr, c, s');
      diff.res == rd && diff.sreg.C == sum.sreg.C
  {
    var t := rd + rr + Cin(c);
    ModSmall(t);
    AddBytesCarries(rd, rr, c, s);
    SubBytesBorrows(t % 256, rr, c, s');
    ModNeg(t % 256 - rr - Cin(c));
  }

  /** The byte difference is zero exactly when `rd` equals `rr + c` modulo
      256 (so also for `0 - 255 - 1`). */
  lemma SubZero(rd: Byte, rr: Byte, c: bool, s: Sreg)
    ensures SubBytes(rd, rr, c, s).res == 0 <==> rd == (rr + Cin(c)) % 256
  {
    ModNeg(rd - rr - Cin(c));
    ModSmall(rr + Cin(c));
  }

  /** SBC and SBCI: Z is cleared when the result is not zero and otherwise
      left as it was. */
  function SubWithCarry(rd: Byte, rr: Byte, s: Sreg): (r: ByteResult)
    ensures r.res == SubBytes(rd, rr, s.C, s).res
    ensures r.sreg.Z ==> s.Z && r.res == 0
    ensures r.sreg.T == s.T && r.sreg.I == s.I
  {
    var t := SubBytes(rd, rr, s.C, s);
    ByteResult(t.res, t.sreg.(Z := if t.res != 0 then false else s.Z))
  }

  /** CPC: Z is the conjunction of "the result is zero" and the previous
      Z. */
  function CompareWithCarry(rd: Byte, rr: Byte, s: Sreg): (r: ByteResult)
    ensures r.res == SubBytes(rd, rr, s.C, s).res
    ensures r.sreg.Z ==> s.Z && r.res == 0
    ensures r.sreg.T == s.T && r.sreg.I == s.I
  {
    var t := SubBytes(rd, rr, s.C, s);
    var z := t.res == 0;
    ByteResult(t.res, t.sreg.(Z := z && s.Z))
  }

  /** SBC's "clear Z unless zero" and CPC's "Z and previous Z" are the
      same rule: after either, Z holds exactly when Z held before and `rd`
      equals `rr` plus the carry, modulo 256. The other flags are those of
      the plain subtraction with carry. */
  lemma ChainedZero(rd: Byte, rr: Byte, s: Sreg)
    ensures SubWithCarry(rd, rr, s) == CompareWithCarry(rd, rr, s)
    ensures SubWithCarry(rd, rr, s).sreg.Z <==> s.Z && rd == (rr + Cin(s.C)) % 256
    ensures SubWithCarry(rd, rr, s).sreg == SubBytes(rd, rr, s.C, s).sreg.(Z := SubWithCarry(rd, rr, s).sreg.Z)
  {
    SubZero(rd, rr, s.C, s);
  }

  // ---------------------------------------------------------------------
  // Logic, shifts and single-operand arithmetic
  // ---------------------------------------------------------------------

  /** AND, ANDI, OR, ORI and EOR: V cleared, N, S and Z from the result. */
  function LogicFlags(res: Byte, s: Sreg): (r: Sreg)
    ensures !r.V && r.S == r.N && (r.Z <==> res == 0)
    ensures r.C == s.C && r.H == s.H && r.T == s.T && r.I == s.I
  {
    var n := BitAt(res, 7);
    var v := false;
    s.(V := v, N := n, S := n != v, Z := res == 0)
  }

  /** After a logic instruction S is the sign of the result; C and H are
      not touched. */
  lemma LogicFlagsMeaning(res: Byte, s: Sreg)
    ensures var r := LogicFlags(res, s);
      && !r.V && (r.N <==> SignedOf(res) < 0) && r.S == r.N && (r.Z <==> res == 0)
      && r.C == s.C && r.H == s.H && r.T == s.T && r.I == s.I
  {
    BitAt7(res);
  }

  /** ASR: `(rd >> 1) + (rd & 0x80)`, i.e. shift right keeping bit 7. */
  function Asr(rd: Byte, s: Sreg): (r: ByteResult)
    ensures r.sreg.S == (r.sreg.N != r.sreg.V) && (r.sreg.Z <==> r.res == 0)
    ensures r.sreg.T == s.T && r.sreg.I == s.I
    ensures r.sreg.H == s.H
  {
    var res := rd / 2 + rd / 128 * 128;
    var n := BitAt(res, 7);
    var c := rd % 2 == 1;
    var v := n != c;
    ByteResult(res, s.(N := n, C := c, V := v, S := n != v, Z := res == 0))
  }

  /** ASR is the signed halving of `rd` rounded down; C is the bit shifted
      out, and S always equals C. */
  lemma AsrMeaning(rd: Byte, s: Sreg)
    ensures var r := Asr(rd, s);
      && SignedOf(r.res) == SignedOf(rd) / 2
      && (r.sreg.C <==> rd % 2 == 1)
      && (r.sreg.N <==> SignedOf(rd) < 0)
      && r.sreg.V == (r.sreg.N != r.sreg.C)
      && r.sreg.S == r.sreg.C
      && (r.sreg.Z <==> rd < 2)
      && r.sreg.H == s.H && r.sreg.T == s.T && r.sreg.I == s.I
  {
    BitAt7(rd / 2 + rd / 128 * 128);
  }

  /** LSR: `(rd >> 1) & 0x7f`. */
  function Lsr(rd: Byte, s: Sreg): (r: ByteResult)
    ensures r.sreg.S == (r.sreg.N != r.sreg.V) && (r.sreg.Z <==> r.res == 0)
    ensures r.sreg.T == s.T && r.sreg.I == s.I
    ensures r.sreg.H == s.H
  {
    var res := rd / 2 % 128;
    var c := rd % 2 == 1;
    var n := false;
    var v := n != c;
    ByteResult(res, s.(C := c, N := n, V := v, S := n != v, Z := res == 0))
  }

  /** LSR is the unsigned halving of `rd` (the mask clears nothing); C is
      the bit shifted out, N is cleared and V and S equal C. */
  lemma LsrMeaning(rd: Byte, s: Sreg)
    ensures var r := Lsr(rd, s);
      && r.res == rd / 2
      && (r.sreg.C <==> rd % 2 == 1)
      && !r.sreg.N && r.sreg.V == r.sreg.C && r.sreg.S == r.sreg.C
      && (r.sreg.Z <==> rd < 2)
      && r.sreg.H == s.H && r.sreg.T == s.T && r.sreg.I == s.I
  {}

  /** ROR: `(rd >> 1) | ((C << 7) & 0x80)`. The two operands of the `|`
      have no bit in common, so it is their sum. */
  function Ror(rd: Byte, s: Sreg): (r: ByteResult)
    ensures r.sreg.S == (r.sreg.N != r.sreg.V) && (r.sreg.Z <==> r.res == 0)
    ensures r.sreg.T == s.T && r.sreg.I == s.I
    ensures r.sreg.H == s.H
  {
    var res := rd / 2 + 128 * Cin(s.C);
    var c := rd % 2 == 1;
    var n := BitAt(res, 7);
    var v := n != c;
    ByteResult(res, s.(C := c, N := n, V := v, S := n != v, Z := res == 0))
  }

  /** ROR rotates the nine bits C:rd right by one: the old carry becomes
      bit 7 (and N), the old bit 0 becomes C, and `rd` and the old carry
      can be read back from the result and the new carry. */
  lemma RorMeaning(rd: Byte, s: Sreg)
    ensures var r := Ror(rd, s);
      && (r.sreg.C <==> rd % 2 == 1)
      && r.sreg.N == s.C
      && rd == 2 * (r.res % 128) + Cin(r.sreg.C)
      && (r.res >= 128 <==> s.C)
      && r.sreg.V == (r.sreg.N != r.sreg.C)
      && r.sreg.S == r.sreg.C
      && (r.sreg.Z <==> rd < 2 && !s.C)
      && r.sreg.H == s.H && r.sreg.T == s.T && r.sreg.I == s.I
  {
    BitAt7(rd / 2 + 128 * Cin(s.C));
  }

  /** COM: `0xff - rd`, the one's complement. */
  function Com(rd: Byte, s: Sreg): (r: ByteResult)
    ensures r.sreg.S == (r.sreg.N != r.sreg.V) && (r.sreg.Z <==> r.res == 0)
    ensures r.sreg.T == s.T && r.sreg.I == s.I
    ensures r.sreg.H == s.H
  {
    var res := 0xFF - rd;
    var n := BitAt(res, 7);
    var v := false;
    ByteResult(res, s.(N := n, C := true, V := v, S := n != v, Z := res == 0))
  }

  /** COM flips every bit (so applying it twice gives `rd` back), sets C,
      clears V, and N tells whether `rd` was non-negative. */
  lemma ComMeaning(rd: Byte, s: Sreg, s': Sreg)
    ensures var r := Com(rd, s);
      && r.res + rd == 255
      && Com(r.res, s').res == rd
      && r.sreg.C && !r.sreg.V
      && (r.sreg.N <==> SignedOf(rd) >= 0)
      && r.sreg.S == r.sreg.N
      && (r.sreg.Z <==> rd == 0xFF)
      && r.sreg.H == s.H && r.sreg.T == s.T && r.sreg.I == s.I
  {
    BitAt7(0xFF - rd);
  }

  /** NEG: `(0x0 - rd) & 0xff`, the two's complement. */
  function Neg(rd: Byte, s: Sreg): (r: ByteResult)
    ensures r.sreg.S == (r.sreg.N != r.sreg.V) && (r.sreg.Z <==> r.res == 0)
    ensures r.sreg.T == s.T && r.sreg.I == s.I
  {
    var res := (0 - rd) % 256;
    var n := BitAt(res, 7);
    var v := res == 0x80;
    ByteResult(res, s.(H := BitAt(res, 3) || BitAt(rd, 3), V := v, N := n, S := n != v,
                       Z := res == 0, C := res != 0))
  }

  /** Bit 3 of `-rd` or of `rd` is set exactly when the low nibble of `rd`
      is not zero. */
  lemma NegHalfBorrow(rd: Byte)
    ensures (BitAt((0 - rd) % 256, 3) || BitAt(rd, 3)) <==> rd % 16 != 0
  {
    var res := (0 - rd) % 256;
    BitAt3(res);
    BitAt3(rd);
    NibbleOfDiff(0, rd, 0, res);
    Mod16Neg(0 - rd % 16);
  }

  /** NEG sets every flag the way the subtraction `0 - rd` does: H is the
      borrow out of the low nibble, C the borrow of `0 - rd`, and V the
      overflow of negating -128. */
  lemma NegIsSubtraction(rd: Byte, s: Sreg)
    ensures Neg(rd, s) == SubBytes(0, rd, false, s)
  {
    SubBytesMeaning(0, rd, false, s);
    NegHalfBorrow(rd);
    ModNeg(0 - rd);
  }

  /** Negating twice gives `rd` back. */
  lemma NegTwice(rd: Byte, s: Sreg, s': Sreg)
    ensures Neg(Neg(rd, s).res, s').res == rd
  {
    ModNeg(0 - rd);
    ModNeg(0 - (0 - rd) % 256);
  }

  /** INC: `rd + 1`; V is `rd == 0x7f`; C and H are not touched. */
  function Inc(rd: Byte, s: Sreg): (r: ByteResult)
    ensures r.sreg.S == (r.sreg.N != r.sreg.V) && (r.sreg.Z <==> r.res == 0)
    ensures r.sreg.T == s.T && r.sreg.I == s.I
    ensures r.sreg.C == s.C && r.sreg.H == s.H
  {
    var res := (rd + 1) % 256;
    var n := BitAt(res, 7);
    var v := rd == 0x7F;
    ByteResult(res, s.(N := n, V := v, S := n != v, Z := res == 0))
  }

  /** INC computes what ADD of 1 computes, and sets V, N, S and Z as ADD
      does, keeping C and H. */
  lemma IncIsAddOne(rd: Byte, s: Sreg)
    ensures var a := AddBytes(rd, 1, false, s);
      Inc(rd, s) == ByteResult(a.res, a.sreg.(C := s.C, H := s.H))
  {
    AddBytesMeaning(rd, 1, false, s);
    BitAt7((rd + 1) % 256);
  }

  /** DEC: `rd - 1`; V is `res == 0x7f`; C and H are not touched. */
  function Dec(rd: Byte, s: Sreg): (r: ByteResult)
    ensures r.sreg.S == (r.sreg.N != r.sreg.V) && (r.sreg.Z <==> r.res == 0)
    ensures r.sreg.T == s.T && r.sreg.I == s.I
    ensures r.sreg.C == s.C && r.sreg.H == s.H
  {
    var res := (rd - 1) % 256;
    var n := BitAt(res, 7);
    var v := res == 0x7F;
    ByteResult(res, s.(N := n, V := v, S := n != v, Z := res == 0))
  }

  /** DEC computes what SUB of 1 computes, and sets V, N, S and Z as SUB
      does, keeping C and H. */
  lemma DecIsSubOne(rd: Byte, s: Sreg)
    ensures var d := SubBytes(rd, 1, false, s);
      Dec(rd, s) == ByteResult(d.res, d.sreg.(C := s.C, H := s.H))
  {
    SubBytesMeaning(rd, 1, false, s);
    ModNeg(rd - 1);
  }

  /** DEC undoes INC and INC undoes DEC. */
  lemma IncDecInverse(rd: Byte, s: Sreg, s': Sreg)
    ensures Dec(Inc(rd, s).res, s').res == rd
    ensures Inc(Dec(rd, s).res, s').res == rd
  {
    ModSmall(rd + 1);
    ModNeg(rd - 1);
  }

  /** SWAP: `((rd << 4) & 0xf0) | ((rd >> 4) & 0x0f)`. The two masked
      parts share no bit, so the `|` adds them: the low nibble moved up
      plus the high nibble moved down. */
  function Swap(rd: Byte): Byte
  {
    (rd % 16) * 16 + rd / 16
  }

  /** The high nibble of the result is the low nibble of `rd` and the
      other way round; hence SWAP undoes itself. */
  lemma SwapMeaning(x: Byte)
    ensures Swap(x) / 16 == x % 16 && Swap(x) % 16 == x / 16
    ensures Swap(Swap(x)) == x
  {}

  // ---------------------------------------------------------------------
  // Word arithmetic (ADIW, SBIW): `word` is 16 bits wide.
  // ---------------------------------------------------------------------

  lemma WordWrapUp(t: int)
    requires 0 <= t < 131072
    ensures t % 65536 == if t < 65536 then t else t - 65536
  {}

  lemma WordWrapDown(t: int)
    requires -65536 <= t < 65536
    ensures t % 65536 == if t < 0 then t + 65536 else t
  {}

  /** Bit 7 of the high byte is bit 15 of the word. */
  lemma HighBit(lo: Byte, hi: Byte)
    ensures BitAt(hi, 7) <==> WordOf(lo, hi) >= 32768
  {
    BitAt7(hi);
  }

  /** ADIW on the pair `hi:lo`. */
  function AddWord(lo: Byte, hi: Byte, k: int, s: Sreg): (r: WordResult)
    requires 0 <= k < 64
    ensures r.sreg.S == (r.sreg.N != r.sreg.V) && (r.sreg.Z <==> WordOf(r.lo, r.hi) == 0)
    ensures r.sreg.H == s.H && r.sreg.T == s.T && r.sreg.I == s.I
  {
    var res := (WordOf(lo, hi) + k) % 65536;
    WordResult(Lo(res), Hi(res), AddWordFlags(hi, res, s))
  }

  /** The status bits ADIW sets from bit 7 of the high byte before the
      addition and bit 15 of the 16-bit result; on a byte and on a 16-bit
      value those bits are the comparisons `hi >= 128` and `res >= 32768`
      (`Flags.BitAt7`, `Bit15Test`). */
  function AddWordFlags(hi: Byte, res: int, s: Sreg): (r: Sreg)
    requires 0 <= res < 65536
    ensures r.S == (r.N != r.V) && (r.N <==> res >= 32768) && (r.Z <==> res == 0)
    ensures r.H == s.H && r.T == s.T && r.I == s.I
  {
    var rdh7 := hi >= 128;
    var res15 := res >= 32768;
    var v := !rdh7 && res15;
    var n := res15;
    s.(V := v, N := n, S := n != v, Z := res == 0, C := !res15 && rdh7)
  }

  /** ADIW: C is the carry out of the 16-bit sum, V its signed overflow
      and S the sign of the exact signed sum. */
  lemma AddWordMeaning(lo: Byte, hi: Byte, k: int, s: Sreg)
    requires 0 <= k < 64
    ensures var r := AddWord(lo, hi, k, s);
      && WordOf(r.lo, r.hi) == (WordOf(lo, hi) + k) % 65536
      && (r.sreg.C <==> WordOf(lo, hi) + k >= 65536)
      && (r.sreg.V <==> SignedWord(WordOf(lo, hi)) + k > 32767)
      && (r.sreg.N <==> SignedWord(WordOf(r.lo, r.hi)) < 0)
      && (r.sreg.S <==> SignedWord(WordOf(lo, hi)) + k < 0)
      && (r.sreg.Z <==> WordOf(r.lo, r.hi) == 0)
      && r.sreg.H == s.H && r.sreg.T == s.T && r.sreg.I == s.I
  {
    var w := WordOf(lo, hi);
    var res := (w + k) % 65536;
    var r := AddWord(lo, hi, k, s);
    HighBit(lo, hi);
    WordWrapUp(w + k);
    Bit15Test(res);
    LoHi(res);
    assert WordOf(r.lo, r.hi) == res;
    assert r.sreg.C <==> res < 32768 && w >= 32768;
    assert r.sreg.V <==> w < 32768 && res >= 32768;
    assert r.sreg.N <==> res >= 32768;
  }

  /** SBIW on the pair `hi:lo`. */
  function SubWord(lo: Byte, hi: Byte, k: int, s: Sreg): (r: WordResult)
    requires 0 <= k < 64
    ensures r.sreg.S == (r.sreg.N != r.sreg.V) && (r.sreg.Z <==> WordOf(r.lo, r.hi) == 0)
    ensures r.sreg.H == s.H && r.sreg.T == s.T && r.sreg.I == s.I
  {
    var res := (WordOf(lo, hi) - k) % 65536;
    WordResult(Lo(res), Hi(res), SubWordFlags(hi, res, s))
  }

  /** The status bits SBIW sets, read from the same two bits as ADIW's. */
  function SubWordFlags(hi: Byte, res: int, s: Sreg): (r: Sreg)
    requires 0 <= res < 65536
    ensures r.S == (r.N != r.V) && (r.N <==> res >= 32768) && (r.Z <==> res == 0)
    ensures r.H == s.H && r.T == s.T && r.I == s.I
  {
    var rdh7 := hi >= 128;
    var res15 := res >= 32768;
    var v := rdh7 && !res15;
    var n := res15;
    s.(V := v, N := n, S := n != v, Z := res == 0, C := res15 && !rdh7)
  }

  /** SBIW: C is the borrow of the 16-bit difference, V its signed
      overflow and S the sign of the exact signed difference. */
  lemma SubWordMeaning(lo: Byte, hi: Byte, k: int, s: Sreg)
    requires 0 <= k < 64
    ensures var r := SubWord(lo, hi, k, s);
      && WordOf(r.lo, r.hi) == (WordOf(lo, hi) - k) % 65536
      && (r.sreg.C <==> WordOf(lo, hi) < k)
      && (r.sreg.V <==> SignedWord(WordOf(lo, hi)) - k < -32768)
      && (r.sreg.N <==> SignedWord(WordOf(r.lo, r.hi)) < 0)
      && (r.sreg.S <==> SignedWord(WordOf(lo, hi)) - k < 0)
      && (r.sreg.Z <==> WordOf(r.lo, r.hi) == 0)
      && r.sreg.H == s.H && r.sreg.T == s.T && r.sreg.I == s.I
  {
    var w := WordOf(lo, hi);
    var res := (w - k) % 65536;
    var r := SubWord(lo, hi, k, s);
    HighBit(lo, hi);
    WordWrapDown(w - k);
    assert res == if w < k then w - k + 65536 else w - k;
    Bit15Test(res);
    LoHi(res);
    assert WordOf(r.lo, r.hi) == res;
    assert Bit15(res) <==> res >= 32768;
    assert BitAt(hi, 7) <==> w >= 32768;
    assert res >= 32768 && w < 32768 <==> w < k;
    assert r.sreg.C <==> res >= 32768 && w < 32768;
    assert r.sreg.V <==> w >= 32768 && res < 32768;
    assert r.sreg.N <==> res >= 32768;
  }

  /** The modular arithmetic behind the round trip: subtracting `k` from
      `w + k` wrapped to 16 bits gives `w` back, and borrows exactly when
      the addition carried. */
  lemma WrapInverse(w: int, k: int, x: int)
    requires 0 <= w < 65536 && 0 <= k < 64 && x == (w + k) % 65536
    ensures (x - k) % 65536 == w
    ensures x < k <==> w + k >= 65536
  {
    WordWrapUp(w + k);
    WordWrapDown(x - k);
  }

  /** SBIW by `k` on a pair that holds `w + k` (wrapped) gives back the
      bytes of `w`. */
  lemma SubtractAfterAdd(lo: Byte, hi: Byte, w: int, k: int, s: Sreg)
    requires 0 <= k < 64 && 0 <= w < 65536 && WordOf(lo, hi) == (w + k) % 65536
    ensures var b := SubWord(lo, hi, k, s); b.lo == Lo(w) && b.hi == Hi(w)
  {
    WrapInverse(w, k, WordOf(lo, hi));
  }

  /** ... and borrows exactly when the sum carried. */
  lemma BorrowAfterCarry(lo: Byte, hi: Byte, w: int, k: int, s: Sreg)
    requires 0 <= k < 64 && 0 <= w < 65536 && WordOf(lo, hi) == (w + k) % 65536
    ensures SubWord(lo, hi, k, s).sreg.C <==> w + k >= 65536
  {
    WrapInverse(w, k, WordOf(lo, hi));
    assert SubWord(lo, hi, k, s).sreg.C <==> WordOf(lo, hi) < k by {
      SubWordMeaning(lo, hi, k, s);
    }
  }

  /** SBIW with the same constant undoes ADIW. */
  lemma SubWordUndoesAddWord(lo: Byte, hi: Byte, k: int, s: Sreg, s': Sreg)
    requires 0 <= k < 64
    ensures var a := AddWord(lo, hi, k, s);
      var b := SubWord(a.lo, a.hi, k, s');
      b.lo == lo && b.hi == hi
  {
    var a := AddWord(lo, hi, k, s);
    var w := WordOf(lo, hi);
    assert WordOf(a.lo, a.hi) == (w + k) % 65536 by {
      AddWordMeaning(lo, hi, k, s);
    }
    SubtractAfterAdd(a.lo, a.hi, w, k, s');
    Halves(lo, hi);
  }

  /** The carry of ADIW is the borrow of SBIW with the same constant
      applied to its result. */
  lemma CarryIsBorrow(lo: Byte, hi: Byte, k: int, s: Sreg, s': Sreg)
    requires 0 <= k < 64
    ensures var a := AddWord(lo, hi, k, s);
      SubWord(a.lo, a.hi, k, s').sreg.C == a.sreg.C
  {
    var a := AddWord(lo, hi, k, s);
    var w := WordOf(lo, hi);
    assert WordOf(a.lo, a.hi) == (w + k) % 65536 && (a.sreg.C <==> w + k >= 65536) by {
      AddWordMeaning(lo, hi, k, s);
    }
    BorrowAfterCarry(a.lo, a.hi, w, k, s');
  }

  // ---------------------------------------------------------------------
  // Multiplication. The source forms the product in `int` and stores it
  // in a 16-bit variable; `p % 65536` is that variable's bit pattern.
  // ---------------------------------------------------------------------

  lemma MulLe(x: int, y: int, z: int)
    requires x <= y && 0 <= z
    ensures x * z <= y * z
  {}

  lemma ZeroProduct(x: int, y: int)
    ensures x * y == 0 <==> x == 0 || y == 0
  {}

  lemma UnsignedProduct(x: int, y: int)
    requires 0 <= x <= 255 && 0 <= y <= 255
    ensures 0 <= x * y <= 65025
  {
    MulLe(x, 255, y);
  }

  lemma SignedProduct(x: int, y: int)
    requires -128 <= x <= 127 && -128 <= y <= 127
    ensures -16256 <= x * y <= 16384
  {
    if x >= 0 && y >= 0 {
      MulLe(x, 127, y);
    } else if x < 0 && y < 0 {
      MulLe(-x, 128, -y);
      assert x * y == (-x) * (-y);
    } else if x < 0 {
      MulLe(-x, 128, y);
      assert x * y == -((-x) * y);
    } else {
      MulLe(x, 127, -y);
      assert x * y == -(x * (-y));
    }
  }

  lemma MixedProduct(x: int, y: int)
    requires -128 <= x <= 127 && 0 <= y <= 255
    ensures -32640 <= x * y <= 32385
  {
    if x >= 0 {
      MulLe(x, 127, y);
    } else {
      MulLe(-x, 128, y);
      assert x * y == -((-x) * y);
    }
  }

  /** MUL, MULS and MULSU: R1:R0 receive the 16-bit product word `w`, C is
      its bit 15 and Z tells whether it is zero. */
  function Product(w: int, s: Sreg): (r: WordResult)
    requires 0 <= w < 65536
    ensures WordOf(r.lo, r.hi) == w
    ensures r.sreg == s.(Z := w == 0, C := w >= 32768)
  {
    LoHi(w);
    Bit15Test(w);
    WordResult(Lo(w), Hi(w), s.(Z := w == 0, C := Bit15(w)))
  }

  /** FMUL, FMULS and FMULSU: the product word `w` shifted left by one,
      with C taken from bit 15 of `w` before the shift. */
  function FractionalProduct(w: int, s: Sreg): (r: WordResult)
    requires 0 <= w < 65536
    ensures WordOf(r.lo, r.hi) == (w * 2) % 65536
    ensures r.sreg == s.(Z := WordOf(r.lo, r.hi) == 0, C := w >= 32768)
  {
    LoHi((w * 2) % 65536);
    Bit15Test(w);
    var res := (w * 2) % 65536;
    WordResult(Lo(res), Hi(res), s.(Z := res == 0, C := Bit15(w)))
  }

  function Mul(rd: Byte, rr: Byte, s: Sreg): (r: WordResult)
    ensures ProductFlagsOnly(r, s) && (r.sreg.Z <==> WordOf(r.lo, r.hi) == 0)
  {
    Product((rd * rr) % 65536, s)
  }

  function Muls(rd: Byte, rr: Byte, s: Sreg): (r: WordResult)
    ensures ProductFlagsOnly(r, s) && (r.sreg.Z <==> WordOf(r.lo, r.hi) == 0)
  {
    Product((SignedOf(rd) * SignedOf(rr)) % 65536, s)
  }

  function Mulsu(rd: Byte, rr: Byte, s: Sreg): (r: WordResult)
    ensures ProductFlagsOnly(r, s) && (r.sreg.Z <==> WordOf(r.lo, r.hi) == 0)
  {
    Product((SignedOf(rd) * rr) % 65536, s)
  }

  function Fmul(rd: Byte, rr: Byte, s: Sreg): (r: WordResult)
    ensures ProductFlagsOnly(r, s) && (r.sreg.Z <==> WordOf(r.lo, r.hi) == 0)
  {
    FractionalProduct((rd * rr) % 65536, s)
  }

  function Fmuls(rd: Byte, rr: Byte, s: Sreg): (r: WordResult)
    ensures ProductFlagsOnly(r, s) && (r.sreg.Z <==> WordOf(r.lo, r.hi) == 0)
  {
    FractionalProduct((SignedOf(rd) * SignedOf(rr)) % 65536, s)
  }

  function Fmulsu(rd: Byte, rr: Byte, s: Sreg): (r: WordResult)
    ensures ProductFlagsOnly(r, s) && (r.sreg.Z <==> WordOf(r.lo, r.hi) == 0)
  {
    FractionalProduct((SignedOf(rd) * rr) % 65536, s)
  }

  /** What a product instruction leaves in the flags: only Z and C
      change. */
  predicate ProductFlagsOnly(r: WordResult, s: Sreg)
  {
    r.sreg == s.(Z := r.sreg.Z, C := r.sreg.C)
  }

  /** The word a product `p` leaves in R1:R0 and the flags it sets, for
      a product that fits in 16 bits read as unsigned. */
  lemma UnsignedWord(p: int, s: Sreg)
    requires 0 <= p < 65536
    ensures var r := Product(p % 65536, s);
      && WordOf(r.lo, r.hi) == p
      && (r.sreg.C <==> p >= 32768)
      && (r.sreg.Z <==> p == 0)
      && ProductFlagsOnly(r, s)
  {
    WordWrapUp(p);
    assert p % 65536 == p;
    LoHi(p);
    Bit15Test(p);
  }

  /** The same for a product that fits in 16 bits read as signed. */
  lemma SignedWordOf(p: int, s: Sreg)
    requires -32768 <= p < 32768
    ensures var r := Product(p % 65536, s);
      && SignedWord(WordOf(r.lo, r.hi)) == p
      && (r.sreg.C <==> p < 0)
      && (r.sreg.Z <==> p == 0)
      && ProductFlagsOnly(r, s)
  {
    WordWrapDown(p);
    LoHi(p % 65536);
    Bit15Test(p % 65536);
  }

  /** The word and flags of the fractional products: twice `p` modulo
      2^16, with C the sign of `p` read as a signed 16-bit value. */
  lemma FractionalWord(p: int, s: Sreg)
    requires -32768 <= p < 65536
    ensures var r := FractionalProduct(p % 65536, s);
      && WordOf(r.lo, r.hi) == (2 * p) % 65536
      && (r.sreg.C <==> (p < 0 || p >= 32768))
      && (r.sreg.Z <==> WordOf(r.lo, r.hi) == 0)
      && ProductFlagsOnly(r, s)
  {
    var w := p % 65536;
    assert 0 <= w < 65536;
    assert (w * 2) % 65536 == (2 * p) % 65536 by {
      DoubleMod(p);
    }
    LoHi((w * 2) % 65536);
    assert Bit15(w) <==> (p < 0 || p >= 32768) by {
      if p < 0 {
        WordWrapDown(p);
      } else {
        WordWrapUp(p);
      }
      Bit15Test(w);
    }
  }

  lemma WordShiftMod(q: int, r: int)
    ensures (65536 * q + r) % 65536 == r % 65536
  {}

  lemma DoubleMod(p: int)
    ensures (2 * (p % 65536)) % 65536 == (2 * p) % 65536
  {
    var q := p / 65536;
    var r := p % 65536;
    assert 2 * p == 65536 * (2 * q) + 2 * r;
    WordShiftMod(2 * q, 2 * r);
  }

  lemma SignedZero(x: Byte)
    ensures SignedOf(x) == 0 <==> x == 0
  {}

  /** MUL: R1:R0 hold the exact unsigned product; C is its bit 15 and Z
      is set when either factor is zero. */
  lemma MulMeaning(rd: Byte, rr: Byte, s: Sreg)
    ensures var r := Mul(rd, rr, s);
      && WordOf(r.lo, r.hi) == rd * rr
      && (r.sreg.C <==> rd * rr >= 32768)
      && (r.sreg.Z <==> rd == 0 || rr == 0)
      && ProductFlagsOnly(r, s)
  {
    UnsignedProduct(rd, rr);
    ZeroProduct(rd, rr);
    UnsignedWord(rd * rr, s);
  }

  /** MULS: R1:R0 hold the signed product in two's complement; C is its
      sign. */
  lemma MulsMeaning(rd: Byte, rr: Byte, s: Sreg)
    ensures var r := Muls(rd, rr, s);
      && SignedWord(WordOf(r.lo, r.hi)) == SignedOf(rd) * SignedOf(rr)
      && (r.sreg.C <==> SignedOf(rd) * SignedOf(rr) < 0)
      && (r.sreg.Z <==> rd == 0 || rr == 0)
      && ProductFlagsOnly(r, s)
  {
    SignedProduct(SignedOf(rd), SignedOf(rr));
    ZeroProduct(SignedOf(rd), SignedOf(rr));
    SignedZero(rd);
    SignedZero(rr);
    SignedWordOf(SignedOf(rd) * SignedOf(rr), s);
  }

  /** MULSU: R1:R0 hold the signed-by-unsigned product in two's
      complement; C is its sign. */
  lemma MulsuMeaning(rd: Byte, rr: Byte, s: Sreg)
    ensures var r := Mulsu(rd, rr, s);
      && SignedWord(WordOf(r.lo, r.hi)) == SignedOf(rd) * rr
      && (r.sreg.C <==> SignedOf(rd) * rr < 0)
      && (r.sreg.Z <==> rd == 0 || rr == 0)
      && ProductFlagsOnly(r, s)
  {
    MixedProduct(SignedOf(rd), rr);
    ZeroProduct(SignedOf(rd), rr);
    SignedZero(rd);
    SignedWordOf(SignedOf(rd) * rr, s);
  }

  /** FMUL: R1:R0 hold twice the unsigned product modulo 2^16; C is bit
      15 of the product. */
  lemma FmulMeaning(rd: Byte, rr: Byte, s: Sreg)
    ensures var r := Fmul(rd, rr, s);
      && WordOf(r.lo, r.hi) == (2 * (rd * rr)) % 65536
      && (r.sreg.C <==> rd * rr >= 32768)
      && (r.sreg.Z <==> WordOf(r.lo, r.hi) == 0)
      && ProductFlagsOnly(r, s)
  {
    UnsignedProduct(rd, rr);
    FractionalWord(rd * rr, s);
  }

  /** FMULS: R1:R0 hold twice the signed product modulo 2^16; C is the
      product's sign. */
  lemma FmulsMeaning(rd: Byte, rr: Byte, s: Sreg)
    ensures var r := Fmuls(rd, rr, s);
      && WordOf(r.lo, r.hi) == (2 * (SignedOf(rd) * SignedOf(rr))) % 65536
      && (r.sreg.C <==> SignedOf(rd) * SignedOf(rr) < 0)
      && (r.sreg.Z <==> WordOf(r.lo, r.hi) == 0)
      && ProductFlagsOnly(r, s)
  {
    SignedProduct(SignedOf(rd), SignedOf(rr));
    FractionalWord(SignedOf(rd) * SignedOf(rr), s);
  }

  /** FMULSU: R1:R0 hold twice the signed-by-unsigned product modulo
      2^16; C is the product's sign. */
  lemma FmulsuMeaning(rd: Byte, rr: Byte, s: Sreg)
    ensures var r := Fmulsu(rd, rr, s);
      && WordOf(r.lo, r.hi) == (2 * (SignedOf(rd) * rr)) % 65536
      && (r.sreg.C <==> SignedOf(rd) * rr < 0)
      && (r.sreg.Z <==> WordOf(r.lo, r.hi) == 0)
      && ProductFlagsOnly(r, s)
  {
    MixedProduct(SignedOf(rd), rr);
    FractionalWord(SignedOf(rd) * rr, s);
  }
}
