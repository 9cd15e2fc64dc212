/** Properties of instruction sequences and of single instructions as the
    core runs them: calls and returns, the skip instructions, compare and
    multi-byte arithmetic chains, the stack and pointer round trips, and
    the status-bit instructions.

    The core adds one to the PC after every body, so "execution continues
    at `a`" means the body leaves `a - 1` in the PC.
 */
module Properties {
  import opened Operands
  import opened Flags
  import opened Instructions
  import opened Decoder
  import opened Alu
  import opened Stack
  import opened Machine
  import opened Execute
  import opened Bits

  // ---------------------------------------------------------------------
  // Dispatch: `Exec` on an instruction of each shape is that shape's body.
  // ---------------------------------------------------------------------

  lemma RunTwoReg(dev: Device, s: State, o: TwoRegOp, d: Reg, r: Reg)
    ensures var b := ExecTwoReg(dev, s, o, d as int, r as int);
      Exec(dev, s, TwoReg(o, d, r)) == Continue(b.0, b.1)
  {}

  lemma RunOneReg(dev: Device, s: State, o: OneRegOp, d: Reg)
    ensures var b := ExecOneReg(dev, s, o, d as int);
      Exec(dev, s, OneReg(o, d)) == Continue(b.0, b.1)
  {}

  lemma RunRegBit(dev: Device, s: State, o: RegBitOp, d: Reg, b: BitNum)
    ensures var e := ExecRegBit(dev, s, o, d as int, b);
      Exec(dev, s, RegBitI(o, d, b)) == Continue(e.0, e.1)
  {}

  lemma RunWord(dev: Device, s: State, o: WordOp, p: PairReg, k: Imm6)
    ensures var e := ExecWord(s, o, p as int, k as int);
      Exec(dev, s, Word(o, p, k)) == Continue(e.0, e.1)
  {}

  lemma RunRel(dev: Device, s: State, o: RelOp, k: Imm12)
    ensures var e := ExecRel(dev, s, o, k);
      Exec(dev, s, Rel(o, k)) == Continue(e.0, e.1)
  {}

  // ---------------------------------------------------------------------
  // Decoding and execution
  // ---------------------------------------------------------------------

  /** The simulation stops on an opcode exactly when the opcode encodes no
      instruction. */
  lemma HaltsIffUnmatched(dev: Device, s: State, op: bv16)
    ensures Exec(dev, s, Decode(op)).Halt? <==> forall i: Instr :: !i.Illegal? ==> Encode(i) != op
  {
    IllegalIffNoEncoding(op);
  }

  /** The all-zero opcode is NOP, which changes nothing and takes one
      clock. */
  lemma ZeroOpcodeDoesNothing(dev: Device, s: State)
    ensures Exec(dev, s, Decode(0x0000)) == Continue(s, 1)
  {
    ExactOpcodes(NOP);
  }

  // ---------------------------------------------------------------------
  // Calls and returns
  // ---------------------------------------------------------------------

  /** RET after anything that pushed a return address `v` of `pcSize`
      bytes and jumped: execution continues at `v`, and the stack and
      every other part of the state are as before the push. */
  lemma ReturnAfterCall(dev: Device, s: State, v: int, target: int)
    requires dev.pcSize <= 3 && 0 <= v < Pow256(dev.pcSize)
    ensures ExecPlain(dev, CallTo(s, dev.pcSize, v, target), RET) == Continue(s.(pc := v - 1), dev.pcSize + 2)
  {
    PopAfterPush(s.stack, dev.pcSize, v);
    assert Pow256(dev.pcSize) <= Pow256(3) by {
      PowMonotone(dev.pcSize, 3);
    }
  }

  /** RET after a push of the address of the next instruction restores
      the whole state. */
  lemma ReturnToNext(dev: Device, s: State, target: int)
    requires dev.pcSize <= 3 && 0 <= s.pc && s.pc + 1 < Pow256(dev.pcSize)
    ensures ExecPlain(dev, CallTo(s, dev.pcSize, s.pc + 1, target), RET) == Continue(s, dev.pcSize + 2)
  {
    ReturnAfterCall(dev, s, s.pc + 1, target);
    assert s.(pc := s.pc + 1 - 1) == s;
  }

  /** RET from a CALL restores the state the CALL started from, except
      that execution continues after the two-word CALL. */
  lemma CallThenReturn(dev: Device, s: State, kh: Imm6)
    requires dev.pcSize <= 3 && 0 <= s.pc && s.pc + 2 < Pow256(dev.pcSize)
    ensures ExecPlain(dev, ExecFar(dev, s, CALL, kh as int).0, RET) == Continue(s.(pc := s.pc + 1), dev.pcSize + 2)
  {
    var c := ExecFar(dev, s, CALL, kh as int).0;
    assert c == CallTo(s, dev.pcSize, s.pc + 2, c.pc);
    ReturnAfterCall(dev, s, s.pc + 2, c.pc);
  }

  /** RCALL pushes the address of the next instruction, so RET from it
      restores the whole state and execution continues right after the
      call. */
  lemma RelativeCallThenReturn(dev: Device, s: State, k: Imm12)
    requires dev.pcSize <= 3 && 0 <= s.pc && s.pc + 1 < Pow256(dev.pcSize)
    ensures ExecPlain(dev, ExecRel(dev, s, RCALL, k).0, RET) == Continue(s, dev.pcSize + 2)
  {
    var c := ExecRel(dev, s, RCALL, k).0;
    assert c == CallTo(s, dev.pcSize, s.pc + 1, c.pc);
    ReturnToNext(dev, s, c.pc);
  }

  /** RET from ICALL restores the whole state. */
  lemma IndirectCallThenReturn(dev: Device, s: State)
    requires dev.pcSize <= 3 && 0 <= s.pc && s.pc + 1 < Pow256(dev.pcSize)
    ensures ExecPlain(dev, ExecPlain(dev, s, ICALL).state, RET) == Continue(s, dev.pcSize + 2)
  {
    var c := ExecPlain(dev, s, ICALL).state;
    assert c == CallTo(s, dev.pcSize, s.pc + 1, c.pc);
    ReturnToNext(dev, s, c.pc);
  }

  /** EICALL always pushes three bytes, so RET restores the whole state
      on a device whose return addresses are three bytes long. */
  lemma ExtendedCallThenReturn(dev: Device, s: State)
    requires dev.pcSize == 3 && 0 <= s.pc && s.pc + 1 < Pow256(3)
    ensures ExecPlain(dev, ExecPlain(dev, s, EICALL).state, RET) == Continue(s, 5)
  {
    var c := ExecPlain(dev, s, EICALL).state;
    assert c == CallTo(s, dev.pcSize, s.pc + 1, c.pc);
    ReturnToNext(dev, s, c.pc);
  }

  /** RETI after anything that pushed a return address `v` of `pcSize`
      bytes: execution continues at `v` as after RET, and the global
      interrupt flag is set. */
  lemma ReturnFromInterrupt(dev: Device, s: State, v: int, target: int)
    requires dev.pcSize <= 3 && 0 <= v < Pow256(dev.pcSize)
    ensures ExecPlain(dev, CallTo(s, dev.pcSize, v, target), RETI)
      == Continue(s.(pc := v - 1, sreg := s.sreg.(I := true)), dev.pcSize + 2)
  {
    ReturnAfterCall(dev, s, v, target);
  }

  /** RETI differs from RET only in setting I. */
  lemma ReturnFromInterruptIsReturn(dev: Device, s: State)
    ensures var i := ExecPlain(dev, s, RETI);
      var r := ExecPlain(dev, s, RET);
      i == Continue(r.state.(sreg := s.sreg.(I := true)), r.clocks)
  {}

  // ---------------------------------------------------------------------
  // Jumps
  // ---------------------------------------------------------------------

  /** After IJMP and the core's step, execution continues at the word Z
      holds, and nothing else has changed. */
  lemma IndirectJump(dev: Device, s: State)
    ensures var o := ExecPlain(dev, s, IJMP);
      Advance(o.state) == s.(pc := Pair(s, Z)) && o.clocks == 2
  {}

  /** EIJMP stores `EIND:Z` without the usual `- 1`, so after the core's
      step execution continues one word past `EIND:Z`; EIND contributes
      its low six bits. */
  lemma ExtendedIndirectJump(dev: Device, s: State)
    ensures var o := ExecPlain(dev, s, EIJMP);
      Advance(o.state) == s.(pc := (s.eind % 64) * 65536 + Pair(s, Z) + 1) && o.clocks == 2
  {}

  /** With EIND's low six bits clear, EIJMP lands one word after IJMP. */
  lemma ExtendedJumpPastIndirect(dev: Device, s: State)
    requires s.eind % 64 == 0
    ensures ExecPlain(dev, s, EIJMP).state.pc == ExecPlain(dev, s, IJMP).state.pc + 1
  {}

  /** With EIND clear and three-byte return addresses, EICALL pushes
      what ICALL pushes and lands one word after it. */
  lemma ExtendedCallPastIndirect(dev: Device, s: State)
    requires s.eind == 0 && dev.pcSize == 3
    ensures var e := ExecPlain(dev, s, EICALL).state;
      var i := ExecPlain(dev, s, ICALL).state;
      e == i.(pc := i.pc + 1)
  {}

  /** JMP adds the six opcode bits to the 16-bit operand instead of
      placing them above it, so it reaches CALL's target only when those
      bits are zero. */
  lemma JumpAndCallTargets(dev: Device, s: State, kh: Imm6)
    ensures var j := ExecFar(dev, s, JMP, kh as int).0.pc;
      && j + 1 == kh as int + SecondWord(dev, s.pc)
      && (j == ExecFar(dev, s, CALL, kh as int).0.pc <==> kh == 0)
  {}

  /** The masked target of a relative jump in a flash of `2^(n+1)` bytes
      (`2^n` words, up to 2^31 of them) is the target modulo `2^n`. */
  lemma MaskedTarget(dev: Device, t: int, n: nat)
    requires n <= 31 && |dev.flash| == 2 * Pow2(n)
    ensures MaskPc(t, PcMask(dev)) == t % Pow2(n)
  {
    var p := Pow2(n);
    Pow2Monotone(n, 31);
    Pow2Of32();
    Pow2Split(n, 32);
    assert PcMask(dev) == p - 1 by {
      assert 0 <= 2 * p - 1 < 0x1_0000_0000;
      assert (2 * p - 1) % 0x1_0000_0000 == 2 * p - 1;
    }
    AndLowBits(t % 0x1_0000_0000, n, 32);
    ModOfMod(t, p, Pow2(32 - n));
  }

  /** When the flash holds a power of two of words, RJMP wraps around the
      program space. */
  lemma RelativeJumpWraps(dev: Device, s: State, k: Imm12, n: nat)
    requires n <= 31 && |dev.flash| == 2 * Pow2(n)
    ensures ExecRel(dev, s, RJMP, k) == (s.(pc := (s.pc + JumpOffset(k)) % Pow2(n)), 2)
  {
    MaskedTarget(dev, s.pc + JumpOffset(k), n);
  }
}
