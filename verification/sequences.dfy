/** Short instruction sequences whose combined effect the instruction set
    promises: PUSH then POP, a store with post-increment followed by a
    load with pre-decrement, the 16-bit compare, add and subtract chains
    built from CP/CPC, ADD/ADC and SUB/SBC, ADIW undone by SBIW, a bit
    moved through T by BST and BLD, and OUT read back by IN.
 */
module Sequences {
  import opened Operands
  import opened Flags
  import opened Instructions
  import opened Alu
  import opened Stack
  import opened Machine
  import opened Execute
  import opened Bits
  import opened Effects

  // ---------------------------------------------------------------------
  // Stack and data memory
  // ---------------------------------------------------------------------

  /** `PUSH Rr; POP Rd` moves Rr into Rd and leaves the stack and the rest
      of the state as they were. */
  lemma PushThenPop(dev: Device, s: State, r: int, d: int)
    requires 0 <= r < 32 && 0 <= d < 32
    ensures ExecOneReg(dev, ExecOneReg(dev, s, PUSH, r).0, POP, d) == (SetReg(s, d, s.regs[r]), 2)
  {
    PopAfterPush(s.stack, 1, s.regs[r]);
    assert Pow256(1) == 256;
  }

  /** The post-increment stores paired with the pre-decrement loads
      through the same pointer pair. */
  predicate IncrementThenDecrement(st: OneRegOp, ld: OneRegOp, p: int)
  {
    || (st == ST_X_INC && ld == LD_X_DEC && p == X)
    || (st == ST_Y_INC && ld == LD_Y_DEC && p == Y)
    || (st == ST_Z_INC && ld == LD_Z_DEC && p == Z)
  }

  /** The pre-decrement stores paired with the post-increment loads
      through the same pointer pair. */
  predicate DecrementThenIncrement(st: OneRegOp, ld: OneRegOp, p: int)
  {
    || (st == ST_X_DEC && ld == LD_X_INC && p == X)
    || (st == ST_Y_DEC && ld == LD_Y_INC && p == Y)
    || (st == ST_Z_DEC && ld == LD_Z_INC && p == Z)
  }

  /** The two instructions of an `IncrementThenDecrement` pair are the
      post-increment store and the pre-decrement load through `p`. */
  lemma IncrementThenDecrementBodies(dev: Device, s: State, st: OneRegOp, ld: OneRegOp, p: int, r: int, d: int)
    requires IncrementThenDecrement(st, ld, p)
    requires 0 <= r < 32 && 0 <= d < 32
    ensures var t := ExecOneReg(dev, s, st, r).0;
      t == StoreIncrement(s, r, p) && ExecOneReg(dev, t, ld, d).0 == LoadDecrement(t, d, p)
  {
    StoreIncrementBody(dev, s, st, p, r);
    LoadDecrementBody(dev, StoreIncrement(s, r, p), ld, p, d);
  }

  lemma StoreIncrementBody(dev: Device, s: State, st: OneRegOp, p: int, r: int)
    requires (st == ST_X_INC && p == X) || (st == ST_Y_INC && p == Y) || (st == ST_Z_INC && p == Z)
    requires 0 <= r < 32
    ensures ExecOneReg(dev, s, st, r).0 == StoreIncrement(s, r, p)
  {
    if p == X {} else if p == Y {} else {}
  }

  lemma LoadDecrementBody(dev: Device, s: State, ld: OneRegOp, p: int, d: int)
    requires (ld == LD_X_DEC && p == X) || (ld == LD_Y_DEC && p == Y) || (ld == LD_Z_DEC && p == Z)
    requires 0 <= d < 32
    ensures ExecOneReg(dev, s, ld, d).0 == LoadDecrement(s, d, p)
  {
    if p == X {} else if p == Y {} else {}
  }

  /** Storing through `p` with post-increment and loading back with
      pre-decrement returns the stored byte to Rd ... */
  lemma IncrementThenDecrementLoads(s: State, p: int, r: int, d: int)
    requires 0 <= p < 31 && 0 <= r < 32 && 0 <= d < 32 && d != p && d != p + 1
    ensures LoadDecrement(StoreIncrement(s, r, p), d, p).regs[d] == s.regs[r]
  {
    var x := Pair(s, p);
    var t := StoreIncrement(s, r, p);
    PairOfSetPair(Store(s, x, s.regs[r]), p, (x + 1) % 65536);
    WordWrapDown((x + 1) % 65536 - 1);
    assert (Pair(t, p) - 1) % 65536 == x;
  }

  /** ... and the pointer back to `p`. */
  lemma IncrementThenDecrementPointer(s: State, p: int, r: int, d: int)
    requires 0 <= p < 31 && 0 <= r < 32 && 0 <= d < 32
    ensures Pair(LoadDecrement(StoreIncrement(s, r, p), d, p), p) == Pair(s, p)
  {
    var x := Pair(s, p);
    var t := StoreIncrement(s, r, p);
    PairOfSetPair(Store(s, x, s.regs[r]), p, (x + 1) % 65536);
    WordWrapDown((x + 1) % 65536 - 1);
    assert (Pair(t, p) - 1) % 65536 == x;
    PairOfSetPair(SetReg(t, d, Load(t, x)), p, x);
  }

  /** `ST p+, Rr; LD Rd, -p` for p one of X, Y, Z reads back the byte
      just stored, when the pointer addresses data memory and Rd is not
      half of the pointer (the load writes the pointer after Rd) ... */
  lemma StoreThenLoad(dev: Device, s: State, st: OneRegOp, ld: OneRegOp, p: int, r: int, d: int)
    requires IncrementThenDecrement(st, ld, p)
    requires 0 <= r < 32 && 0 <= d < 32 && d != p && d != p + 1
    requires RamStart <= Pair(s, p)
    ensures ExecOneReg(dev, ExecOneReg(dev, s, st, r).0, ld, d).0.regs[d] == s.regs[r]
  {
    IncrementThenDecrementBodies(dev, s, st, ld, p, r, d);
    IncrementThenDecrementLoads(s, p, r, d);
  }

  /** ... and leaves the pointer as it was. */
  lemma StoreThenLoadPointer(dev: Device, s: State, st: OneRegOp, ld: OneRegOp, p: int, r: int, d: int)
    requires IncrementThenDecrement(st, ld, p)
    requires 0 <= r < 32 && 0 <= d < 32
    ensures Pair(ExecOneReg(dev, ExecOneReg(dev, s, st, r).0, ld, d).0, p) == Pair(s, p)
  {
    IncrementThenDecrementBodies(dev, s, st, ld, p, r, d);
    IncrementThenDecrementPointer(s, p, r, d);
  }

  /** The two instructions of a `DecrementThenIncrement` pair are the
      pre-decrement store and the post-increment load through `p`. With
      the pointer above zero, the 32-bit decrement of `ST -Y` agrees
      with the 16-bit one of the others (`Effects.StoreBelowZero` shows
      where it does not). */
  lemma DecrementThenIncrementBodies(dev: Device, s: State, st: OneRegOp, ld: OneRegOp, p: int, r: int, d: int)
    requires DecrementThenIncrement(st, ld, p)
    requires 0 <= r < 32 && 0 <= d < 32 && 0 < Pair(s, p)
    ensures var t := ExecOneReg(dev, s, st, r).0;
      t == StoreDecrement(s, r, p) && ExecOneReg(dev, t, ld, d).0 == LoadIncrement(t, d, p)
  {
    StoreDecrementBody(dev, s, st, p, r);
    LoadIncrementBody(dev, StoreDecrement(s, r, p), ld, p, d);
  }

  lemma StoreDecrementBody(dev: Device, s: State, st: OneRegOp, p: int, r: int)
    requires (st == ST_X_DEC && p == X) || (st == ST_Y_DEC && p == Y) || (st == ST_Z_DEC && p == Z)
    requires 0 <= r < 32 && 0 < Pair(s, p)
    ensures ExecOneReg(dev, s, st, r).0 == StoreDecrement(s, r, p)
  {
    if p == X {
    } else if p == Y {
      var a := Pair(s, Y) - 1;
      assert (Pair(s, Y) - 1) % DwordRange == a == (Pair(s, Y) - 1) % 65536;
      assert ExecOneReg(dev, s, ST_Y_DEC, r).0 == StoreDecrementY(s, r);
    } else {
    }
  }

  lemma LoadIncrementBody(dev: Device, s: State, ld: OneRegOp, p: int, d: int)
    requires (ld == LD_X_INC && p == X) || (ld == LD_Y_INC && p == Y) || (ld == LD_Z_INC && p == Z)
    requires 0 <= d < 32
    ensures ExecOneReg(dev, s, ld, d).0 == LoadIncrement(s, d, p)
  {
    if p == X {} else if p == Y {} else {}
  }

  /** Storing through `p` with pre-decrement and loading back with
      post-increment returns the stored byte to Rd, when neither Rr nor
      Rd is half of the pointer (the store writes the pointer before
      reading Rr, the load writes it after Rd). */
  lemma DecrementThenIncrementLoads(s: State, p: int, r: int, d: int)
    requires 0 <= p < 31 && 0 < Pair(s, p)
    requires 0 <= r < 32 && r != p && r != p + 1
    requires 0 <= d < 32 && d != p && d != p + 1
    ensures LoadIncrement(StoreDecrement(s, r, p), d, p).regs[d] == s.regs[r]
  {
    var a := Pair(s, p) - 1;
    var u := SetPair(s, p, a);
    var t := Store(u, a, u.regs[r]);
    assert t == StoreDecrement(s, r, p) by {
      assert (Pair(s, p) - 1) % 65536 == a;
    }
    assert Load(t, a) == s.regs[r] by {
      assert u.regs[r] == s.regs[r];
    }
    assert Pair(t, p) == a by {
      PairOfSetPair(s, p, a);
    }
    var v := SetReg(t, d, Load(t, a));
    assert LoadIncrement(t, d, p) == SetPair(v, p, (a + 1) % 65536);
    assert SetPair(v, p, (a + 1) % 65536).regs[d] == v.regs[d];
  }


  /** `ST -p, Rr; LD Rd, p+` for p one of X, Y, Z reads back the byte
      just stored, when the decremented pointer addresses data memory and
      neither Rr nor Rd is half of the pointer. */
  lemma DecrementStoreThenLoad(dev: Device, s: State, st: OneRegOp, ld: OneRegOp, p: int, r: int, d: int)
    requires DecrementThenIncrement(st, ld, p)
    requires 0 <= r < 32 && r != p && r != p + 1
    requires 0 <= d < 32 && d != p && d != p + 1
    requires RamStart < Pair(s, p)
    ensures ExecOneReg(dev, ExecOneReg(dev, s, st, r).0, ld, d).0.regs[d] == s.regs[r]
  {
    DecrementThenIncrementBodies(dev, s, st, ld, p, r, d);
    DecrementThenIncrementLoads(s, p, r, d);
  }

  /** `STD Y+q, Rr; LDD Rd, Y+q` reads back the byte just stored when
      `Y+q` addresses data memory. */
  lemma DisplacedStoreThenLoad(s: State, r: int, d: int, q: int)
    requires 0 <= r < 32 && 0 <= d < 32 && 0 <= q < 64
    requires RamStart <= Pair(s, Y) + q
    ensures ExecDisp(ExecDisp(s, STD_Y, r, q).0, LDD_Y, d, q).0.regs[d] == s.regs[r]
  {}

  /** `STS k, Rr; LDS Rd, k`: STS moves the PC onto its second word and
      the core's step moves it onto LDS, whose own second word, two words
      after STS, holds LDS's address. When that is STS's address and it
      addresses data memory, LDS reads back the byte STS stored. */
  lemma DirectStoreThenLoad(dev: Device, s: State, r: int, d: int)
    requires 0 <= r < 32 && 0 <= d < 32
    requires SecondWord(dev, s.pc + 2) == SecondWord(dev, s.pc)
    requires RamStart <= SecondWord(dev, s.pc)
    ensures ExecOneReg(dev, Advance(ExecOneReg(dev, s, STS, r).0), LDS, d).0.regs[d] == s.regs[r]
  {}

  /** `OUT A, Rr; IN Rd, A` moves Rr into Rd. */
  lemma OutThenIn(s: State, r: int, a: int, d: int)
    requires 0 <= r < 32 && 0 <= a < 64 && 0 <= d < 32
    ensures ExecIo(ExecIo(s, OUT, r, a).0, IN, d, a).0.regs[d] == s.regs[r]
  {}

  // ---------------------------------------------------------------------
  // Bits through T
  // ---------------------------------------------------------------------

  /** `BST Rr, b; BLD Rd, c` copies bit `b` of Rr into bit `c` of Rd. */
  lemma BitTransfer(dev: Device, s: State, r: int, b: BitNum, d: int, c: BitNum)
    requires 0 <= r < 32 && 0 <= d < 32
    ensures var t := ExecRegBit(dev, s, BST, r, b).0;
      BitOf(ExecRegBit(dev, t, BLD, d, c).0.regs[d], Index(c)) == BitOf(s.regs[r], Index(b))
  {
    BitStore(dev, s, r, b);
    BitLoad(dev, ExecRegBit(dev, s, BST, r, b).0, d, c, Index(c));
  }

  // ---------------------------------------------------------------------
  // 16-bit chains. `dl`/`dh` and `rl`/`rh` are the registers holding the
  // low and high bytes of the two words.
  // ---------------------------------------------------------------------

  /** The unsigned word held by registers `lo` (low byte) and `hi`. */
  function WordIn(s: State, lo: int, hi: int): (w: int)
    requires 0 <= lo < 32 && 0 <= hi < 32
    ensures 0 <= w < 65536
  {
    WordOf(s.regs[lo], s.regs[hi])
  }

  /** After CP on the low bytes, Z tells whether they are equal and C
      whether the first is below the second; no register changes. */
  lemma CompareLow(dev: Device, s: State, dl: int, rl: int)
    requires 0 <= dl < 32 && 0 <= rl < 32
    ensures var t := ExecTwoReg(dev, s, CP, dl, rl).0;
      && t.regs == s.regs
      && (t.sreg.Z <==> s.regs[dl] == s.regs[rl])
      && (t.sreg.C <==> s.regs[dl] < s.regs[rl])
  {
    SubBytesBorrows(s.regs[dl], s.regs[rl], false, s.sreg);
    SubZero(s.regs[dl], s.regs[rl], false, s.sreg);
  }

  /** `CP dl, rl; CPC dh, rh` sets Z exactly when the two words are
      equal ... */
  lemma CompareWordsEqual(dev: Device, s: State, dl: int, dh: int, rl: int, rh: int)
    requires 0 <= dl < 32 && 0 <= dh < 32 && 0 <= rl < 32 && 0 <= rh < 32
    ensures var t := ExecTwoReg(dev, ExecTwoReg(dev, s, CP, dl, rl).0, CPC, dh, rh).0;
      t.sreg.Z <==> WordIn(s, dl, dh) == WordIn(s, rl, rh)
  {
    var s1 := ExecTwoReg(dev, s, CP, dl, rl).0;
    CompareLow(dev, s, dl, rl);
    ChainedZero(s.regs[dh], s.regs[rh], s1.sreg);
    ModSmall(s.regs[rh] + Cin(s1.sreg.C));
    WordEqual(s.regs[dl], s.regs[dh], s.regs[rl], s.regs[rh]);
  }

  /** ... and C exactly when the first word is below the second. */
  lemma CompareWordsBelow(dev: Device, s: State, dl: int, dh: int, rl: int, rh: int)
    requires 0 <= dl < 32 && 0 <= dh < 32 && 0 <= rl < 32 && 0 <= rh < 32
    ensures var t := ExecTwoReg(dev, ExecTwoReg(dev, s, CP, dl, rl).0, CPC, dh, rh).0;
      t.sreg.C <==> WordIn(s, dl, dh) < WordIn(s, rl, rh)
  {
    var s1 := ExecTwoReg(dev, s, CP, dl, rl).0;
    CompareLow(dev, s, dl, rl);
    SubBytesBorrows(s.regs[dh], s.regs[rh], s1.sreg.C, s1.sreg);
    WordBelow(s.regs[dl], s.regs[dh], s.regs[rl], s.regs[rh]);
  }

  /** Two words are equal exactly when both bytes are. */
  lemma WordEqual(a: Byte, b: Byte, c: Byte, d: Byte)
    ensures WordOf(a, b) == WordOf(c, d) <==> a == c && b == d
  {}

  /** A word is below another exactly when its high byte is below the
      other's high byte plus the borrow of the low bytes. */
  lemma WordBelow(a: Byte, b: Byte, c: Byte, d: Byte)
    ensures WordOf(a, b) < WordOf(c, d) <==> b < d + Cin(a < c)
  {}

  /** One ADD or ADC: Rd receives the byte sum with the carry in, no
      other register changes, and C is the carry out. */
  lemma AddStep(dev: Device, s: State, o: TwoRegOp, d: int, r: int)
    requires 0 <= d < 32 && 0 <= r < 32 && (o == ADD || o == ADC)
    ensures var t := ExecTwoReg(dev, s, o, d, r).0;
      var sum := s.regs[d] + s.regs[r] + Cin(o == ADC && s.sreg.C);
      && t.regs == s.regs[d := sum % 256]
      && (t.sreg.C <==> sum >= 256)
  {
    AddBytesCarries(s.regs[d], s.regs[r], o == ADC && s.sreg.C, s.sreg);
  }

  /** `ADD dl, rl; ADC dh, rh` adds the two words modulo 2^16 ... */
  lemma AddWords(dev: Device, s: State, dl: int, dh: int, rl: int, rh: int)
    requires 0 <= dl < 32 && 0 <= dh < 32 && 0 <= rl < 32 && 0 <= rh < 32
    requires dl != dh && dl != rh
    ensures var t := ExecTwoReg(dev, ExecTwoReg(dev, s, ADD, dl, rl).0, ADC, dh, rh).0;
      WordIn(t, dl, dh) == (WordIn(s, dl, dh) + WordIn(s, rl, rh)) % 65536
  {
    var a: int, b: int, c: int, d: int := s.regs[dl], s.regs[dh], s.regs[rl], s.regs[rh];
    var s1 := ExecTwoReg(dev, s, ADD, dl, rl).0;
    var t := ExecTwoReg(dev, s1, ADC, dh, rh).0;
    AddStep(dev, s, ADD, dl, rl);
    AddStep(dev, s1, ADC, dh, rh);
    assert t.regs[dl] == (a + c) % 256 && t.regs[dh] == (b + d + Cin(a + c >= 256)) % 256;
    WordSum(a, b, c, d);
  }

  /** ... and carries exactly when the unsigned sum reaches 2^16. */
  lemma AddWordsCarry(dev: Device, s: State, dl: int, dh: int, rl: int, rh: int)
    requires 0 <= dl < 32 && 0 <= dh < 32 && 0 <= rl < 32 && 0 <= rh < 32
    requires dl != dh && dl != rh
    ensures var t := ExecTwoReg(dev, ExecTwoReg(dev, s, ADD, dl, rl).0, ADC, dh, rh).0;
      t.sreg.C <==> WordIn(s, dl, dh) + WordIn(s, rl, rh) >= 65536
  {
    var s1 := ExecTwoReg(dev, s, ADD, dl, rl).0;
    AddStep(dev, s, ADD, dl, rl);
    AddStep(dev, s1, ADC, dh, rh);
  }

  /** The byte-wise sum with the carry passed on is the word sum. */
  lemma WordSum(a: Byte, b: Byte, c: Byte, d: Byte)
    ensures WordOf((a + c) % 256, (b + d + Cin(a + c >= 256)) % 256)
      == (WordOf(a, b) + WordOf(c, d)) % 65536
  {
    var lo := (a + c) % 256;
    var k := Cin(a + c >= 256);
    assert a + c == lo + 256 * k;
    var h := b + d + k;
    assert WordOf(a, b) + WordOf(c, d) == h * 256 + lo;
    ModUnique(h * 256 + lo, 65536, h / 256, (h % 256) * 256 + lo);
  }

  /** One SUB or SBC: Rd receives the byte difference with the borrow
      in, no other register changes, and C is the borrow out. */
  lemma SubStep(dev: Device, s: State, o: TwoRegOp, d: int, r: int)
    requires 0 <= d < 32 && 0 <= r < 32 && (o == SUB || o == SBC)
    ensures var t := ExecTwoReg(dev, s, o, d, r).0;
      var k := Cin(o == SBC && s.sreg.C);
      && t.regs == s.regs[d := (s.regs[d] - s.regs[r] - k) % 256]
      && (t.sreg.C <==> s.regs[d] < s.regs[r] + k)
  {
    SubBytesBorrows(s.regs[d], s.regs[r], o == SBC && s.sreg.C, s.sreg);
  }

  /** `SUB dl, rl; SBC dh, rh` subtracts the words modulo 2^16 ... */
  lemma SubtractWords(dev: Device, s: State, dl: int, dh: int, rl: int, rh: int)
    requires 0 <= dl < 32 && 0 <= dh < 32 && 0 <= rl < 32 && 0 <= rh < 32
    requires dl != dh && dl != rh
    ensures var t := ExecTwoReg(dev, ExecTwoReg(dev, s, SUB, dl, rl).0, SBC, dh, rh).0;
      WordIn(t, dl, dh) == (WordIn(s, dl, dh) - WordIn(s, rl, rh)) % 65536
  {
    var a: int, b: int, c: int, d: int := s.regs[dl], s.regs[dh], s.regs[rl], s.regs[rh];
    var s1 := ExecTwoReg(dev, s, SUB, dl, rl).0;
    var t := ExecTwoReg(dev, s1, SBC, dh, rh).0;
    SubStep(dev, s, SUB, dl, rl);
    SubStep(dev, s1, SBC, dh, rh);
    assert t.regs[dl] == (a - c) % 256 && t.regs[dh] == (b - d - Cin(a < c)) % 256;
    WordDifference(a, b, c, d);
  }

  /** ... borrows exactly when the first word is below the second ... */
  lemma SubtractWordsBorrow(dev: Device, s: State, dl: int, dh: int, rl: int, rh: int)
    requires 0 <= dl < 32 && 0 <= dh < 32 && 0 <= rl < 32 && 0 <= rh < 32
    requires dl != dh && dl != rh
    ensures var t := ExecTwoReg(dev, ExecTwoReg(dev, s, SUB, dl, rl).0, SBC, dh, rh).0;
      t.sreg.C <==> WordIn(s, dl, dh) < WordIn(s, rl, rh)
  {
    var s1 := ExecTwoReg(dev, s, SUB, dl, rl).0;
    SubStep(dev, s, SUB, dl, rl);
    SubStep(dev, s1, SBC, dh, rh);
    WordBelow(s.regs[dl], s.regs[dh], s.regs[rl], s.regs[rh]);
  }

  /** ... and, because SBC only clears Z, sets Z exactly when the whole
      16-bit difference is zero. */
  lemma SubtractWordsZero(dev: Device, s: State, dl: int, dh: int, rl: int, rh: int)
    requires 0 <= dl < 32 && 0 <= dh < 32 && 0 <= rl < 32 && 0 <= rh < 32
    requires dl != dh && dl != rh
    ensures var t := ExecTwoReg(dev, ExecTwoReg(dev, s, SUB, dl, rl).0, SBC, dh, rh).0;
      t.sreg.Z <==> WordIn(s, dl, dh) == WordIn(s, rl, rh)
  {
    var a: int, b: int, c: int, d: int := s.regs[dl], s.regs[dh], s.regs[rl], s.regs[rh];
    var s1 := ExecTwoReg(dev, s, SUB, dl, rl).0;
    assert (s1.sreg.Z <==> a == c) && (s1.sreg.C <==> a < c) by {
      SubBytesBorrows(a, c, false, s.sreg);
      SubZero(a, c, false, s.sreg);
      ModSmall(c);
    }
    SubStep(dev, s, SUB, dl, rl);
    ChainedZero(b, d, s1.sreg);
    ModSmall(d + Cin(s1.sreg.C));
    WordEqual(a, b, c, d);
  }

  /** The byte-wise difference with the borrow passed on is the word
      difference. */
  lemma WordDifference(a: Byte, b: Byte, c: Byte, d: Byte)
    ensures WordOf((a - c) % 256, (b - d - Cin(a < c)) % 256)
      == (WordOf(a, b) - WordOf(c, d)) % 65536
  {
    var lo := (a - c) % 256;
    var k := Cin(a < c);
    assert a - c == lo - 256 * k;
    var h := b - d - k;
    assert WordOf(a, b) - WordOf(c, d) == h * 256 + lo;
    ModUnique(h * 256 + lo, 65536, h / 256, (h % 256) * 256 + lo);
  }

  // ---------------------------------------------------------------------
  // ADIW and SBIW
  // ---------------------------------------------------------------------

  /** `ADIW Rd, K; SBIW Rd, K` gives every register back ... */
  lemma AddThenSubtractWord(s: State, p: int, k: int)
    requires 24 <= p < 31 && 0 <= k < 64
    ensures ExecWord(ExecWord(s, ADIW, p, k).0, SBIW, p, k).0.regs == s.regs
  {
    var a := ExecWord(s, ADIW, p, k).0;
    var b := ExecWord(a, SBIW, p, k).0;
    SubWordUndoesAddWord(s.regs[p], s.regs[p + 1], k, s.sreg, a.sreg);
    assert b.regs[p] == s.regs[p] && b.regs[p + 1] == s.regs[p + 1];
    assert forall q :: 0 <= q < 32 ==> b.regs[q] == s.regs[q];
  }

  /** ... and SBIW borrows exactly when ADIW carried. */
  lemma AddThenSubtractWordCarry(s: State, p: int, k: int)
    requires 24 <= p < 31 && 0 <= k < 64
    ensures var a := ExecWord(s, ADIW, p, k).0;
      ExecWord(a, SBIW, p, k).0.sreg.C == a.sreg.C
  {
    var a := ExecWord(s, ADIW, p, k).0;
    CarryIsBorrow(s.regs[p], s.regs[p + 1], k, s.sreg, a.sreg);
  }
}
