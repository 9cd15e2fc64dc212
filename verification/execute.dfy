/** The instruction bodies (`avr_op_*::operator()`).

    `Exec` runs one decoded instruction on a state and returns the state
    after it together with the clock count the body returns. It does not
    include the step every instruction takes afterwards: the core adds
    one to the PC after the body, which is why bodies that jump store the
    target minus one, and why the skip instructions add one less than the
    words they skip. Two bodies leave the instruction loop: WDR reports a
    watchdog reset to the watchdog timer, and an illegal opcode ends the
    simulation.
 */
module Execute {
  import opened Operands
  import opened Flags
  import opened Instructions
  import opened Alu
  import opened Stack
  import opened Machine
  import opened Bits

  datatype Outcome =
    | Continue(state: State, clocks: int)
      /** `wado->Wdr()`: the watchdog timer is told to restart. */
    | Watchdog(state: State, clocks: int)
      /** `exit(0)`: the simulation stops. */
    | Halt

  /** Writes an ALU result and its flags. */
  function PutByte(s: State, d: int, r: ByteResult): State
    requires 0 <= d < 32
  {
    SetReg(s, d, r.res).(sreg := r.sreg)
  }

  /** Writes R1:R0 and the flags of a product. */
  function PutProduct(s: State, r: WordResult): State
  {
    SetReg(SetReg(s, 0, r.lo), 1, r.hi).(sreg := r.sreg)
  }

  /** Logic instructions: the result and the flags of a logic result. */
  function PutLogic(s: State, d: int, res: Byte): State
    requires 0 <= d < 32
  {
    SetReg(s, d, res).(sreg := LogicFlags(res, s.sreg))
  }

  /** CPSE, SBRC, SBRS, SBIC and SBIS: when `cond` holds, the next
      instruction is skipped (the PC moves by one word less than the skip,
      the core adding the last) and the instruction takes as many clocks
      as the skip is long. */
  function SkipIf(dev: Device, s: State, cond: bool): (r: (State, int))
    ensures r.0 == s.(pc := r.0.pc)
    ensures r.0.pc != s.pc <==> cond
    ensures r.1 == r.0.pc - s.pc + 1
    ensures r.1 == 1 || r.1 == 2 || r.1 == 3
  {
    var skip := if NextIsTwoWord(dev, s.pc) then 3 else 2;
    if cond then (s.(pc := s.pc + skip - 1), skip) else (s, 1)
  }

  /** `avr_core_stack_push(cnt, ret)` followed by a jump: the body leaves
      `target` in the PC. */
  function CallTo(s: State, cnt: nat, ret: int, target: int): State
  {
    s.(stack := Push(s.stack, cnt, ret), pc := target)
  }

  /** `PC = avr_core_stack_pop(PC_size) - 1`, the 32-bit value read back
      as an `int`. */
  function Return(dev: Device, s: State): (t: State)
    ensures t == s.(stack := t.stack, pc := t.pc)
    ensures dev.pcSize <= |s.stack| ==> t.stack == s.stack[..|s.stack| - dev.pcSize]
    ensures -0x8000_0001 <= t.pc < 0x7FFF_FFFF
  {
    var (v, st) := PopValue(s.stack, dev.pcSize);
    s.(stack := st, pc := DwordToInt(v) - 1)
  }

  /** The core's `PC++` after every body: the state the next instruction
      starts from. */
  function Advance(s: State): State
  {
    s.(pc := s.pc + 1)
  }

  /** Z extended by the low six bits of RAMPZ (`RAMPZ & 0x3f`, which is
      `RAMPZ % 64` by `Bits.AndLowBits`). */
  function ExtendedZ(s: State): (z: int)
    ensures 0 <= z < 0x40_0000
    ensures z / 65536 == s.rampz % 64 && z % 65536 == Pair(s, Z)
  {
    (s.rampz % 64) * 65536 + Pair(s, Z)
  }

  // ---------------------------------------------------------------------
  // One function per operand shape
  // ---------------------------------------------------------------------

  function ExecPlain(dev: Device, s: State, p: PlainOp): (o: Outcome)
    ensures !o.Halt?
    ensures o.Watchdog? <==> p == WDR
    ensures o.Watchdog? ==> o.state == s && o.clocks == 1
    ensures p in {NOP, SLEEP, SPM, ESPM} ==> o.state == s
    ensures p in {SLEEP, SPM, ESPM} ==> o.clocks == 0
    ensures o.state.sram == s.sram && o.state.io == s.io
    ensures o.state.rampz == s.rampz && o.state.eind == s.eind
    ensures p !in {EICALL, ICALL, RET, RETI} ==> o.state.stack == s.stack
    ensures p !in {ELPM, LPM} ==> o.state.regs == s.regs
    ensures p != RETI ==> o.state.sreg == s.sreg
    ensures p == RETI ==> o.state.sreg == s.sreg.(I := true)
    ensures p in {IJMP, EIJMP} ==> o.state == s.(pc := o.state.pc) && o.clocks == 2
    ensures p == IJMP ==> o.state.pc + 1 == Pair(s, Z)
    ensures p == EIJMP ==> o.state.pc / 65536 == s.eind % 64 && o.state.pc % 65536 == Pair(s, Z)
  {
    match p
    case EICALL =>
      var target := Pair(s, Z) + s.eind * 65536;
      Continue(CallTo(s, 3, s.pc + 1, target), 4)
    case EIJMP =>
      Continue(s.(pc := (s.eind % 64) * 65536 + Pair(s, Z)), 2)
    case ELPM =>
      Continue(SetReg(s, 0, FlashByte(dev, FlipLow(ExtendedZ(s)))), 3)
    case ESPM => Continue(s, 0)
    case ICALL =>
      Continue(CallTo(s, dev.pcSize, s.pc + 1, Pair(s, Z) - 1), dev.pcSize + 1)
    case IJMP => Continue(s.(pc := Pair(s, Z) - 1), 2)
    case LPM => Continue(SetReg(s, 0, FlashByte(dev, FlipLow(Pair(s, Z)))), 3)
    case NOP => Continue(s, 1)
    case RET => Continue(Return(dev, s), dev.pcSize + 2)
    case RETI => Continue(Return(dev, s).(sreg := s.sreg.(I := true)), dev.pcSize + 2)
    case SLEEP => Continue(s, 0)
    case SPM => Continue(s, 0)
    case WDR => Watchdog(s, 1)
  }

  function ExecTwoReg(dev: Device, s: State, o: TwoRegOp, d: int, r: int): (e: (State, int))
    requires 0 <= d < 32 && 0 <= r < 32
    ensures e.0 == s.(regs := e.0.regs, sreg := e.0.sreg, pc := e.0.pc)
    ensures o != MUL ==> e.0.regs == s.regs[d := e.0.regs[d]]
    ensures o == MUL ==> e.0.regs == s.regs[0 := e.0.regs[0]][1 := e.0.regs[1]]
    ensures o in {CP, CPC, CPSE} ==> e.0.regs == s.regs
    ensures o in {CPSE, MOV} ==> e.0.sreg == s.sreg
    ensures o != CPSE ==> e.0.pc == s.pc
  {
    var rd := R(s, d);
    var rr := R(s, r);
    match o
    case ADC => (PutByte(s, d, AddBytes(rd, rr, s.sreg.C, s.sreg)), 1)
    case ADD => (PutByte(s, d, AddBytes(rd, rr, false, s.sreg)), 1)
    case AND => (PutLogic(s, d, Bitwise(And, rd, rr, 8)), 1)
    case CP => (s.(sreg := SubBytes(rd, rr, false, s.sreg).sreg), 1)
    case CPC => (s.(sreg := CompareWithCarry(rd, rr, s.sreg).sreg), 1)
    case CPSE => SkipIf(dev, s, rd == rr)
    case EOR => (PutLogic(s, d, Bitwise(Xor, rd, rr, 8)), 1)
    case MOV => (SetReg(s, d, rr), 1)
    case MUL => (PutProduct(s, Mul(rd, rr, s.sreg)), 2)
    case OR => (PutLogic(s, d, Bitwise(Or, rd, rr, 8)), 1)
    case SBC => (PutByte(s, d, SubWithCarry(rd, rr, s.sreg)), 1)
    case SUB => (PutByte(s, d, SubBytes(rd, rr, false, s.sreg)), 1)
  }

  /** Pre-decrement load through the pair `p`: the pointer is decremented
      as a 16-bit word, `Rd` is loaded, then the pair is written. */
  function LoadDecrement(s: State, d: int, p: int): State
    requires 0 <= d < 32 && 0 <= p < 31
  {
    var a := (Pair(s, p) - 1) % 65536;
    SetPair(SetReg(s, d, Load(s, a)), p, a)
  }

  /** Post-increment load: `Rd` is loaded, then the pair is incremented. */
  function LoadIncrement(s: State, d: int, p: int): State
    requires 0 <= d < 32 && 0 <= p < 31
  {
    var a := Pair(s, p);
    SetPair(SetReg(s, d, Load(s, a)), p, (a + 1) % 65536)
  }

  /** Pre-decrement store: the pair is decremented and written first, and
      then the register (read after that write) is stored. */
  function StoreDecrement(s: State, d: int, p: int): State
    requires 0 <= d < 32 && 0 <= p < 31
  {
    var a := (Pair(s, p) - 1) % 65536;
    var t := SetPair(s, p, a);
    Store(t, a, t.regs[d])
  }

  /** Post-increment store: the register is stored, then the pair is
      incremented. */
  function StoreIncrement(s: State, d: int, p: int): State
    requires 0 <= d < 32 && 0 <= p < 31
  {
    var a := Pair(s, p);
    SetPair(Store(s, a, s.regs[d]), p, (a + 1) % 65536)
  }

  /** ST -Y, Rd: Y is held in an `unsigned int`, so decrementing 0 gives
      0xFFFFFFFF, which is the address stored to; R29 receives the low
      byte of `Y >> 8`. */
  function StoreDecrementY(s: State, d: int): State
    requires 0 <= d < 32
  {
    var a := (Pair(s, Y) - 1) % DwordRange;
    var t := SetPair(s, Y, a);
    Store(t, a, t.regs[d])
  }

  function ExecOneReg(dev: Device, s: State, o: OneRegOp, d: int): (e: (State, int))
    requires 0 <= d < 32
    ensures e.0.io == s.io && e.0.eind == s.eind
    ensures o != ELPM_Z_INC ==> e.0.rampz == s.rampz
    ensures o !in {PUSH, POP} ==> e.0.stack == s.stack
    ensures o !in {STS, ST_X, ST_X_DEC, ST_X_INC, ST_Y_DEC, ST_Y_INC, ST_Z_DEC, ST_Z_INC} ==> e.0.sram == s.sram
    ensures o !in {ASR, COM, DEC, INC, LSR, NEG, ROR} ==> e.0.sreg == s.sreg
    ensures o in {PUSH, STS, ST_X} ==> e.0.regs == s.regs
    ensures e.0.pc == if o in {LDS, STS} then s.pc + 1 else s.pc
  {
    var rd := R(s, d);
    match o
    case ASR => (PutByte(s, d, Asr(rd, s.sreg)), 1)
    case COM => (PutByte(s, d, Com(rd, s.sreg)), 1)
    case DEC => (PutByte(s, d, Dec(rd, s.sreg)), 1)
    case ELPM_Z => (SetReg(s, d, FlashByte(dev, FlipLow(ExtendedZ(s)))), 3)
    case ELPM_Z_INC =>
      var z := ExtendedZ(s);
      var t := SetReg(s, d, FlashByte(dev, FlipLow(z)));
      var z' := z + 1;
      (SetPair(t.(rampz := (z' / 65536) % 64), Z, z' % 65536), 3)
    case INC => (PutByte(s, d, Inc(rd, s.sreg)), 1)
    case LDS => (SetReg(s, d, Load(s, SecondWord(dev, s.pc))).(pc := s.pc + 1), 2)
    case LD_X => (SetReg(s, d, Load(s, Pair(s, X))), 2)
    case LD_X_DEC => (LoadDecrement(s, d, X), 2)
    case LD_X_INC => (LoadIncrement(s, d, X), 2)
    case LD_Y_DEC => (LoadDecrement(s, d, Y), 2)
    case LD_Y_INC => (LoadIncrement(s, d, Y), 2)
    case LD_Z_DEC => (LoadDecrement(s, d, Z), 2)
    case LD_Z_INC => (LoadIncrement(s, d, Z), 2)
    case LPM_Z => (SetReg(s, d, FlashByte(dev, FlipLow(Pair(s, Z)))), 3)
    case LPM_Z_INC =>
      var z := Pair(s, Z);
      (SetPair(SetReg(s, d, FlashByte(dev, FlipLow(z))), Z, (z + 1) % 65536), 3)
    case LSR => (PutByte(s, d, Lsr(rd, s.sreg)), 1)
    case NEG => (PutByte(s, d, Neg(rd, s.sreg)), 1)
    case POP =>
      var (v, st) := PopValue(s.stack, 1);
      (SetReg(s.(stack := st), d, v % 256), 2)
    case PUSH => (s.(stack := Push(s.stack, 1, rd)), 2)
    case ROR => (PutByte(s, d, Ror(rd, s.sreg)), 1)
    case STS => (Store(s, SecondWord(dev, s.pc), s.regs[d]).(pc := s.pc + 1), 2)
    case ST_X => (Store(s, Pair(s, X), s.regs[d]), 2)
    case ST_X_DEC => (StoreDecrement(s, d, X), 2)
    case ST_X_INC => (StoreIncrement(s, d, X), 2)
    case ST_Y_DEC => (StoreDecrementY(s, d), 2)
    case ST_Y_INC => (StoreIncrement(s, d, Y), 2)
    case ST_Z_DEC => (StoreDecrement(s, d, Z), 2)
    case ST_Z_INC => (StoreIncrement(s, d, Z), 2)
    case SWAP => (SetReg(s, d, Swap(rd)), 1)
  }

  function ExecImm(s: State, o: ImmOp, d: int, k: Byte): (e: (State, int))
    requires 16 <= d < 32
    ensures e.0 == s.(regs := e.0.regs, sreg := e.0.sreg)
    ensures e.0.regs == s.regs[d := e.0.regs[d]]
    ensures o == CPI ==> e.0.regs == s.regs
    ensures o == LDI ==> e.0.sreg == s.sreg
    ensures e.1 == 1
  {
    var rd := R(s, d);
    match o
    case ANDI => (PutLogic(s, d, Bitwise(And, rd, k, 8)), 1)
    case CPI => (s.(sreg := SubBytes(rd, k, false, s.sreg).sreg), 1)
    case LDI => (SetReg(s, d, k), 1)
    case ORI => (PutLogic(s, d, Bitwise(Or, rd, k, 8)), 1)
    case SBCI => (PutByte(s, d, SubWithCarry(rd, k, s.sreg)), 1)
    case SUBI => (PutByte(s, d, SubBytes(rd, k, false, s.sreg)), 1)
  }

  function ExecRegBit(dev: Device, s: State, o: RegBitOp, d: int, b: BitNum): (e: (State, int))
    requires 0 <= d < 32
    ensures e.0 == s.(regs := e.0.regs, sreg := e.0.sreg, pc := e.0.pc)
    ensures e.0.regs == s.regs[d := e.0.regs[d]]
    ensures o != BLD ==> e.0.regs == s.regs
    ensures e.0.sreg == s.sreg.(T := e.0.sreg.T)
    ensures o != BST ==> e.0.sreg == s.sreg
    ensures o in {BLD, BST} ==> e.0.pc == s.pc
  {
    match o
    case BLD => (SetReg(s, d, WithBit(R(s, d), b, s.sreg.T)), 1)
    case BST => (s.(sreg := s.sreg.(T := TestBit(R(s, d), b))), 1)
    case SBRC => SkipIf(dev, s, !TestBit(R(s, d), b))
    case SBRS => SkipIf(dev, s, TestBit(R(s, d), b))
  }

  function ExecBranch(s: State, o: BranchOp, b: BitNum, k: Imm7): (e: (State, int))
    ensures e.0 == s.(pc := e.0.pc)
    ensures e.1 == 1 || e.1 == 2
    ensures e.0.pc == s.pc + if e.1 == 2 then BranchOffset(k) else 0
  {
    var isSet := BitMask(b) & ToByte(s.sreg) != 0;
    var taken := if o == BRBS then isSet else !isSet;
    if taken then (s.(pc := s.pc + BranchOffset(k)), 2) else (s, 1)
  }

  function ExecDisp(s: State, o: DispOp, d: int, q: int): (e: (State, int))
    requires 0 <= d < 32
    ensures e.0 == s.(regs := e.0.regs, sram := e.0.sram)
    ensures e.0.regs == s.regs[d := e.0.regs[d]]
    ensures o in {STD_Y, STD_Z} ==> e.0.regs == s.regs
    ensures o in {LDD_Y, LDD_Z} ==> e.0.sram == s.sram
    ensures e.1 == 2
  {
    match o
    case LDD_Y => (SetReg(s, d, Load(s, Pair(s, Y) + q)), 2)
    case LDD_Z => (SetReg(s, d, Load(s, Pair(s, Z) + q)), 2)
    case STD_Y => (Store(s, Pair(s, Y) + q, s.regs[d]), 2)
    case STD_Z => (Store(s, Pair(s, Z) + q, s.regs[d]), 2)
  }

  function ExecFar(dev: Device, s: State, o: FarOp, kh: int): (e: (State, int))
    ensures e.0 == s.(stack := e.0.stack, pc := e.0.pc)
    ensures o == JMP ==> e.0.stack == s.stack
    ensures o == CALL ==> e.0.stack == Push(s.stack, dev.pcSize, s.pc + 2)
  {
    var k16 := SecondWord(dev, s.pc);
    match o
    case CALL =>
      var k := kh * 65536 + k16;
      (CallTo(s, dev.pcSize, s.pc + 2, k - 1), dev.pcSize + 2)
    case JMP => (s.(pc := kh + k16 - 1), 3)
  }

  function ExecSreg(s: State, o: SregOp, b: BitNum): (e: (State, int))
    ensures e.0 == s.(sreg := e.0.sreg)
    ensures e.1 == 1
  {
    match o
    case BCLR => (s.(sreg := FromByte(ToByte(s.sreg) & !BitMask(b))), 1)
    case BSET => (s.(sreg := FromByte(ToByte(s.sreg) | BitMask(b))), 1)
  }

  function ExecWord(s: State, o: WordOp, p: int, k: int): (e: (State, int))
    requires 24 <= p < 31 && 0 <= k < 64
    ensures e.0 == s.(regs := e.0.regs, sreg := e.0.sreg)
    ensures e.0.regs == s.regs[p := e.0.regs[p]][p + 1 := e.0.regs[p + 1]]
    ensures e.1 == 2
  {
    var r := match o
      case ADIW => AddWord(R(s, p), R(s, p + 1), k, s.sreg)
      case SBIW => SubWord(R(s, p), R(s, p + 1), k, s.sreg);
    (SetReg(SetReg(s, p, r.lo), p + 1, r.hi).(sreg := r.sreg), 2)
  }

  function ExecIoBit(dev: Device, s: State, o: IoBitOp, a: int, b: BitNum): (e: (State, int))
    requires 0 <= a < 32
    ensures e.0 == s.(io := e.0.io, pc := e.0.pc)
    ensures e.0.io == s.io[a := e.0.io[a]]
    ensures o in {SBIC, SBIS} ==> e.0.io == s.io
    ensures o in {CBI, SBI} ==> e.0.pc == s.pc && e.1 == 2
  {
    match o
    case CBI => (s.(io := s.io[a := WithBit(s.io[a], b, false)]), 2)
    case SBI => (s.(io := s.io[a := WithBit(s.io[a], b, true)]), 2)
    case SBIC => SkipIf(dev, s, !TestBit(s.io[a], b))
    case SBIS => SkipIf(dev, s, TestBit(s.io[a], b))
  }

  function ExecIo(s: State, o: IoOp, d: int, a: int): (e: (State, int))
    requires 0 <= d < 32 && 0 <= a < 64
    ensures e.0 == s.(regs := e.0.regs, io := e.0.io)
    ensures o == IN ==> e.0.io == s.io && e.0.regs == s.regs[d := e.0.regs[d]]
    ensures o == OUT ==> e.0.regs == s.regs && e.0.io == s.io[a := e.0.io[a]]
    ensures e.1 == 1
  {
    match o
    case IN => (SetReg(s, d, s.io[a]), 1)
    case OUT => (s.(io := s.io[a := s.regs[d]]), 1)
  }

  function ExecRel(dev: Device, s: State, o: RelOp, k: Imm12): (e: (State, int))
    ensures e.0 == s.(stack := e.0.stack, pc := e.0.pc)
    ensures 0 <= e.0.pc <= PcMask(dev)
    ensures o == RJMP ==> e.0.stack == s.stack
    ensures o == RCALL ==> e.0.stack == Push(s.stack, dev.pcSize, s.pc + 1)
  {
    var target := MaskPc(s.pc + JumpOffset(k), PcMask(dev));
    match o
    case RCALL => (CallTo(s, dev.pcSize, s.pc + 1, target), dev.pcSize + 1)
    case RJMP => (s.(pc := target), 2)
  }

  function ExecHighPair(s: State, o: HighPairOp, d: int, r: int): (e: (State, int))
    requires 16 <= d < 32 && 16 <= r < 32
    ensures e.0 == s.(regs := e.0.regs, sreg := e.0.sreg)
    ensures o == MOVW ==> e.0.sreg == s.sreg
    ensures o == MULS ==> e.0.regs == s.regs[0 := e.0.regs[0]][1 := e.0.regs[1]]
  {
    match o
    case MOVW =>
      var dl := (d - 16) * 2;
      var rl := (r - 16) * 2;
      var t := SetReg(s, dl, s.regs[rl]);
      (SetReg(t, dl + 1, t.regs[rl + 1]), 1)
    case MULS => (PutProduct(s, Muls(R(s, d), R(s, r), s.sreg)), 2)
  }

  function ExecMidPair(s: State, o: MidPairOp, d: int, r: int): (e: (State, int))
    requires 16 <= d < 24 && 16 <= r < 24
    ensures e.0 == s.(regs := e.0.regs, sreg := e.0.sreg)
    ensures e.0.regs == s.regs[0 := e.0.regs[0]][1 := e.0.regs[1]]
    ensures e.1 == 2
  {
    var rd := R(s, d);
    var rr := R(s, r);
    var p := match o
      case MULSU => Mulsu(rd, rr, s.sreg)
      case FMUL => Fmul(rd, rr, s.sreg)
      case FMULS => Fmuls(rd, rr, s.sreg)
      case FMULSU => Fmulsu(rd, rr, s.sreg);
    (PutProduct(s, p), 2)
  }

  /** The instructions with operands, none of which leaves the
      instruction loop. */
  function ExecOperands(dev: Device, s: State, i: Instr): (State, int)
    requires !i.Plain? && !i.Illegal?
  {
    match i
    case TwoReg(o, d, r) => ExecTwoReg(dev, s, o, d as int, r as int)
    case OneReg(o, d) => ExecOneReg(dev, s, o, d as int)
    case Imm(o, d, k) => ExecImm(s, o, d as int, k as int)
    case RegBitI(o, d, b) => ExecRegBit(dev, s, o, d as int, b)
    case Branch(o, b, k) => ExecBranch(s, o, b, k)
    case Disp(o, d, q) => ExecDisp(s, o, d as int, q as int)
    case Far(o, kh) => ExecFar(dev, s, o, kh as int)
    case Sreg(o, b) => ExecSreg(s, o, b)
    case Word(o, p, k) => ExecWord(s, o, p as int, k as int)
    case IoBit(o, a, b) => ExecIoBit(dev, s, o, a as int, b)
    case Io(o, d, a) => ExecIo(s, o, d as int, a as int)
    case Rel(o, k) => ExecRel(dev, s, o, k)
    case HighPair(o, d, r) => ExecHighPair(s, o, d as int, r as int)
    case MidPair(o, d, r) => ExecMidPair(s, o, d as int, r as int)
  }

  /** One instruction: the state after its body and the clocks it
      returns. Only an illegal opcode halts and only WDR signals the
      watchdog. */
  function Exec(dev: Device, s: State, i: Instr): (o: Outcome)
    ensures o.Halt? <==> i.Illegal?
    ensures o.Watchdog? <==> i == Plain(WDR)
  {
    match i
    case Plain(p) => ExecPlain(dev, s, p)
    case Illegal(_) => Halt
    case _ => var (t, n) := ExecOperands(dev, s, i); Continue(t, n)
  }
}
