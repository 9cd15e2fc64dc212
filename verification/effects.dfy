/** What single instruction bodies do, stated against independent
    descriptions: the length of the next instruction for the skips, the
    status flags by number for the branches and BCLR/BSET, bits by
    position for BST, BLD, CBI, SBI and the bit tests, the subtraction
    for the compares, and the pointer arithmetic of the load and store
    forms.
 */
module Effects {
  import opened Operands
  import opened Flags
  import opened Instructions
  import opened Alu
  import opened Machine
  import opened Execute
  import opened Bits

  // ---------------------------------------------------------------------
  // Skips
  // ---------------------------------------------------------------------

  /** The number of program words of the instruction after `pc`. */
  function NextLength(dev: Device, pc: int): (n: int)
    ensures n == 1 || n == 2
  {
    if 0 <= pc + 1 < |dev.decoded| && IsTwoWord(dev.decoded[pc + 1]) then 2 else 1
  }

  /** A body's result `r` skips the next instruction: nothing but the PC
      changes, execution continues right after the skipped instruction
      (the core adding one), and the body takes one clock per skipped
      word plus one. */
  predicate Skipped(dev: Device, s: State, r: (State, int))
  {
    r.0 == s.(pc := s.pc + NextLength(dev, s.pc)) && r.1 == NextLength(dev, s.pc) + 1
  }

  /** A skip instruction skips when its condition holds and otherwise
      changes nothing and takes one clock. */
  lemma SkipIfMeaning(dev: Device, s: State, cond: bool)
    ensures cond ==> Skipped(dev, s, SkipIf(dev, s, cond))
    ensures !cond ==> SkipIf(dev, s, cond) == (s, 1)
  {}

  /** CPSE skips exactly when the two registers are equal. */
  lemma CompareSkip(dev: Device, s: State, d: int, r: int)
    requires 0 <= d < 32 && 0 <= r < 32
    ensures var e := ExecTwoReg(dev, s, CPSE, d, r);
      if s.regs[d] == s.regs[r] then Skipped(dev, s, e) else e == (s, 1)
  {}

  /** SBRS skips when bit `b` of the register is set, SBRC when it is
      clear. */
  lemma RegisterBitSkip(dev: Device, s: State, o: RegBitOp, d: int, b: BitNum)
    requires 0 <= d < 32 && (o == SBRC || o == SBRS)
    ensures var e := ExecRegBit(dev, s, o, d, b);
      if BitOf(s.regs[d], Index(b)) == (o == SBRS) then Skipped(dev, s, e) else e == (s, 1)
  {
    TestBitMeaning(s.regs[d], b);
  }

  /** SBIS skips when bit `b` of I/O register `a` is set, SBIC when it is
      clear. */
  lemma IoBitSkip(dev: Device, s: State, o: IoBitOp, a: int, b: BitNum)
    requires 0 <= a < 32 && (o == SBIC || o == SBIS)
    ensures var e := ExecIoBit(dev, s, o, a, b);
      if BitOf(s.io[a], Index(b)) == (o == SBIS) then Skipped(dev, s, e) else e == (s, 1)
  {
    TestBitMeaning(s.io[a], b);
  }

  // ---------------------------------------------------------------------
  // The status register
  // ---------------------------------------------------------------------

  /** BRBS branches when flag `b` is set and BRBC when it is clear; a
      taken branch takes two clocks and moves the PC by the signed
      displacement, an untaken one takes one clock and changes nothing. */
  lemma BranchOnFlag(s: State, o: BranchOp, b: BitNum, k: Imm7)
    ensures ExecBranch(s, o, b, k)
      == if Flag(s.sreg, b) == (o == BRBS) then (s.(pc := s.pc + BranchOffset(k)), 2) else (s, 1)
  {
    MaskTest(ToByte(s.sreg), b);
    ByteFlag(s.sreg, b);
  }

  /** BCLR clears flag `b` and no other. */
  lemma ClearStatusBit(s: State, b: BitNum)
    ensures ExecSreg(s, BCLR, b) == (s.(sreg := WithFlag(s.sreg, b, false)), 1)
  {
    ClearFlag(s.sreg, b);
  }

  /** BSET sets flag `b` and no other. */
  lemma SetStatusBit(s: State, b: BitNum)
    ensures ExecSreg(s, BSET, b) == (s.(sreg := WithFlag(s.sreg, b, true)), 1)
  {
    SetFlag(s.sreg, b);
  }

  // ---------------------------------------------------------------------
  // Single bits
  // ---------------------------------------------------------------------

  /** BST copies bit `b` of the register into T and changes nothing
      else. */
  lemma BitStore(dev: Device, s: State, d: int, b: BitNum)
    requires 0 <= d < 32
    ensures ExecRegBit(dev, s, BST, d, b) == (s.(sreg := s.sreg.(T := BitOf(s.regs[d], Index(b)))), 1)
  {
    TestBitMeaning(s.regs[d], b);
  }

  /** BLD puts T into bit `b` of the register; its other bits are kept. */
  lemma BitLoad(dev: Device, s: State, d: int, b: BitNum, j: nat)
    requires 0 <= d < 32 && j < 8
    ensures BitOf(ExecRegBit(dev, s, BLD, d, b).0.regs[d], j)
      == if j == Index(b) then s.sreg.T else BitOf(s.regs[d], j)
  {
    WithBitMeaning(s.regs[d], b, s.sreg.T, j);
  }

  /** BLD changes no other register and nothing else in the state. */
  lemma BitLoadOnlyRegister(dev: Device, s: State, d: int, b: BitNum)
    requires 0 <= d < 32
    ensures var t := ExecRegBit(dev, s, BLD, d, b).0;
      t == s.(regs := t.regs) && forall q :: 0 <= q < 32 && q != d ==> t.regs[q] == s.regs[q]
  {}

  /** SBI sets and CBI clears bit `b` of I/O register `a`; the register's
      other bits are kept. */
  lemma IoBitWrite(dev: Device, s: State, o: IoBitOp, a: int, b: BitNum, j: nat)
    requires 0 <= a < 32 && (o == CBI || o == SBI) && j < 8
    ensures BitOf(ExecIoBit(dev, s, o, a, b).0.io[a], j)
      == if j == Index(b) then o == SBI else BitOf(s.io[a], j)
  {
    WithBitMeaning(s.io[a], b, o == SBI, j);
  }

  /** CBI and SBI change no other I/O register and nothing else. */
  lemma IoBitWriteOnlyRegister(dev: Device, s: State, o: IoBitOp, a: int, b: BitNum)
    requires 0 <= a < 32 && (o == CBI || o == SBI)
    ensures var t := ExecIoBit(dev, s, o, a, b).0;
      t == s.(io := t.io) && forall q :: 0 <= q < 64 && q != a ==> t.io[q] == s.io[q]
  {}

  // ---------------------------------------------------------------------
  // Compares and logic
  // ---------------------------------------------------------------------

  /** CP sets the flags SUB sets and writes no register. */
  lemma CompareIsSubtraction(dev: Device, s: State, d: int, r: int)
    requires 0 <= d < 32 && 0 <= r < 32
    ensures ExecTwoReg(dev, s, CP, d, r) == (s.(sreg := ExecTwoReg(dev, s, SUB, d, r).0.sreg), 1)
  {}

  /** CPC sets the flags SBC sets and writes no register. */
  lemma CompareWithCarryIsSubtraction(dev: Device, s: State, d: int, r: int)
    requires 0 <= d < 32 && 0 <= r < 32
    ensures ExecTwoReg(dev, s, CPC, d, r) == (s.(sreg := ExecTwoReg(dev, s, SBC, d, r).0.sreg), 1)
  {
    ChainedZero(s.regs[d], s.regs[r], s.sreg);
  }

  /** CPI sets the flags SUBI sets and writes no register. */
  lemma CompareImmediateIsSubtraction(s: State, d: int, k: Byte)
    requires 16 <= d < 32
    ensures ExecImm(s, CPI, d, k) == (s.(sreg := ExecImm(s, SUBI, d, k).0.sreg), 1)
  {}

  /** `EOR Rd, Rd` clears the register and sets Z, clearing N, V and S;
      C and H are kept. */
  lemma ClearRegister(dev: Device, s: State, d: int)
    requires 0 <= d < 32
    ensures var t := ExecTwoReg(dev, s, EOR, d, d).0;
      && t.regs[d] == 0
      && t.sreg == s.sreg.(Z := true, N := false, V := false, S := false)
  {
    XorSelf(s.regs[d]);
  }

  /** `AND Rd, Rd` (TST) and `OR Rd, Rd` keep the register and set the
      flags from its value: Z when it is zero, N and S when it is
      negative, V cleared. */
  lemma TestRegister(dev: Device, s: State, o: TwoRegOp, d: int)
    requires 0 <= d < 32 && (o == AND || o == OR)
    ensures var t := ExecTwoReg(dev, s, o, d, d).0;
      && t.regs == s.regs
      && (t.sreg.Z <==> s.regs[d] == 0)
      && (t.sreg.N <==> SignedOf(s.regs[d]) < 0)
      && t.sreg.S == t.sreg.N && !t.sreg.V
      && t.sreg.C == s.sreg.C && t.sreg.H == s.sreg.H
  {
    SelfAndOr(s.regs[d]);
    LogicFlagsMeaning(s.regs[d], s.sreg);
  }

  // ---------------------------------------------------------------------
  // Registers, pointers and program memory
  // ---------------------------------------------------------------------

  /** MOVW copies the register pair `Rr+1:Rr` into `Rd+1:Rd` and changes
      no other register. */
  lemma CopyPair(s: State, d: int, r: int)
    requires 16 <= d < 32 && 16 <= r < 32
    ensures var t := ExecHighPair(s, MOVW, d, r).0;
      var dl := (d - 16) * 2;
      var rl := (r - 16) * 2;
      && t.regs[dl] == s.regs[rl] && t.regs[dl + 1] == s.regs[rl + 1]
      && forall q :: 0 <= q < 32 && q != dl && q != dl + 1 ==> t.regs[q] == s.regs[q]
  {}

  /** LPM Rd, Z+ increments Z as a 16-bit word; that write comes last, so
      it also holds when Rd is R30 or R31. */
  lemma ProgramPointerIncrement(dev: Device, s: State, d: int)
    requires 0 <= d < 32
    ensures Pair(ExecOneReg(dev, s, LPM_Z_INC, d).0, Z) == (Pair(s, Z) + 1) % 65536
  {
    PairOfSetPair(SetReg(s, d, FlashByte(dev, FlipLow(Pair(s, Z)))), Z, (Pair(s, Z) + 1) % 65536);
  }

  /** ELPM Rd, Z+ increments the 22-bit pointer RAMPZ:Z (the six RAMPZ
      bits the decoder keeps) and wraps at 2^22. */
  lemma ExtendedPointerIncrement(dev: Device, s: State, d: int)
    requires 0 <= d < 32
    ensures ExtendedZ(ExecOneReg(dev, s, ELPM_Z_INC, d).0) == (ExtendedZ(s) + 1) % 0x40_0000
  {
    var z' := ExtendedZ(s) + 1;
    var t := SetReg(s, d, FlashByte(dev, FlipLow(ExtendedZ(s)))).(rampz := (z' / 65536) % 64);
    PairOfSetPair(t, Z, z' % 65536);
    SplitExtended(z');
  }

  /** A 22-bit value is its bits above 16, taken modulo 2^6, followed by
      its low 16 bits. */
  lemma SplitExtended(z: int)
    requires 0 <= z
    ensures (z / 65536) % 64 * 65536 + z % 65536 == z % 0x40_0000
  {
    var q := z / 0x40_0000;
    var r := z % 0x40_0000;
    assert z / 65536 == 64 * q + r / 65536;
    assert (z / 65536) % 64 == r / 65536;
    assert z % 65536 == r % 65536;
  }

  /** LPM Rd, Z and ELPM Rd, Z read the other byte of the program word
      the pointer selects, because the flash image is kept byte-swapped
      within each word. */
  lemma ProgramByteRead(dev: Device, s: State, d: int)
    requires 0 <= d < 32
    ensures var z := Pair(s, Z);
      && ExecOneReg(dev, s, LPM_Z, d).0.regs[d]
         == FlashByte(dev, if z % 2 == 0 then z + 1 else z - 1)
      && (s.rampz % 64 == 0 ==>
            ExecOneReg(dev, s, ELPM_Z, d).0.regs[d] == ExecOneReg(dev, s, LPM_Z, d).0.regs[d])
  {}

  /** ST -Y, Rd with Y = 0: the decrement is done in 32 bits, so the byte
      goes to address 0xFFFFFFFF while Y itself wraps to 0xFFFF ... */
  lemma StoreBelowZero(dev: Device, s: State, d: int)
    requires 0 <= d < 32 && d != Y && d != Y + 1 && Pair(s, Y) == 0
    ensures var t := ExecOneReg(dev, s, ST_Y_DEC, d).0;
      Load(t, 0xFFFF_FFFF) == s.regs[d] && Pair(t, Y) == 0xFFFF && Load(t, 0xFFFF) == Load(s, 0xFFFF)
  {}

  /** ... whereas ST -Z, Rd with Z = 0 decrements in 16 bits and stores
      at 0xFFFF. */
  lemma StoreBelowZeroZ(dev: Device, s: State, d: int)
    requires 0 <= d < 32 && d != Z && d != Z + 1 && Pair(s, Z) == 0
    ensures Load(ExecOneReg(dev, s, ST_Z_DEC, d).0, 0xFFFF) == s.regs[d]
  {}
}
