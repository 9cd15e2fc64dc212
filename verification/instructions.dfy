/** Decoded AVR instructions.

    The decoder sorts opcodes into an exact list of operand-free opcodes and
    fourteen operand-shape categories; `Instr` has one constructor per
    shape, carrying the operand fields the decoder binds at decode time and
    an enumeration naming the instruction within the shape. `Encode` is the
    instruction set's encoding: the category template with every operand
    placed in its bit positions.
 */
module Instructions {
  import opened Operands

  /** Opcodes without operands, matched by exact value. */
  datatype PlainOp = EICALL | EIJMP | ELPM | ESPM | ICALL | IJMP | LPM | NOP | RET | RETI | SLEEP | SPM | WDR

  /** Two 5-bit registers Rd, Rr. */
  datatype TwoRegOp = ADC | ADD | AND | CP | CPC | CPSE | EOR | MOV | MUL | OR | SBC | SUB

  /** One 5-bit register Rd. The `_X`, `_Y`, `_Z` suffixes name the pointer
      pair, `_DEC` a pre-decrement and `_INC` a post-increment. */
  datatype OneRegOp =
    | ASR | COM | DEC | ELPM_Z | ELPM_Z_INC | INC | LDS
    | LD_X | LD_X_DEC | LD_X_INC | LD_Y_DEC | LD_Y_INC | LD_Z_DEC | LD_Z_INC
    | LPM_Z | LPM_Z_INC | LSR | NEG | POP | PUSH | ROR | STS
    | ST_X | ST_X_DEC | ST_X_INC | ST_Y_DEC | ST_Y_INC | ST_Z_DEC | ST_Z_INC | SWAP

  /** Upper register Rd (R16..R31) and an 8-bit constant K. */
  datatype ImmOp = ANDI | CPI | LDI | ORI | SBCI | SUBI

  /** Register Rd and a bit number b. */
  datatype RegBitOp = BLD | BST | SBRC | SBRS

  /** Status bit number and a 7-bit relative displacement. */
  datatype BranchOp = BRBC | BRBS

  /** Register Rd and a displacement q from Y or Z. */
  datatype DispOp = LDD_Y | LDD_Z | STD_Y | STD_Z

  /** 22-bit absolute address, of which six bits sit in the opcode word. */
  datatype FarOp = CALL | JMP

  /** Status-register bit number s. */
  datatype SregOp = BCLR | BSET

  /** Register pair R24..R30 and a 6-bit constant K. */
  datatype WordOp = ADIW | SBIW

  /** 5-bit I/O address A and a bit number b. */
  datatype IoBitOp = CBI | SBI | SBIC | SBIS

  /** Register Rd and a 6-bit I/O address A. */
  datatype IoOp = IN | OUT

  /** 12-bit relative displacement. */
  datatype RelOp = RCALL | RJMP

  /** Two upper registers (4-bit fields). */
  datatype HighPairOp = MOVW | MULS

  /** Two registers R16..R23 (3-bit fields). */
  datatype MidPairOp = MULSU | FMUL | FMULS | FMULSU

  datatype Instr =
    | Plain(plain: PlainOp)
    | TwoReg(twoReg: TwoRegOp, d: Reg, r: Reg)
    | OneReg(oneReg: OneRegOp, d: Reg)
    | Imm(imm: ImmOp, dh: HighReg, k8: bv8)
    | RegBitI(regBit: RegBitOp, d: Reg, b: BitNum)
    | Branch(branch: BranchOp, b: BitNum, off7: Imm7)
    | Disp(disp: DispOp, d: Reg, q: Imm6)
    | Far(far: FarOp, kh: Imm6)
    | Sreg(sreg: SregOp, b: BitNum)
    | Word(word: WordOp, dp: PairReg, k6: Imm6)
    | IoBit(ioBit: IoBitOp, a5: Imm5, b: BitNum)
    | Io(io: IoOp, d: Reg, a6: Imm6)
    | Rel(rel: RelOp, off12: Imm12)
    | HighPair(highPair: HighPairOp, dh: HighReg, rh: HighReg)
    | MidPair(midPair: MidPairOp, dm: MidReg, rm: MidReg)
    | Illegal(opcode: bv16)

  // ---------------------------------------------------------------------
  // Templates: the opcode bits left once the operand fields are cleared.
  // ---------------------------------------------------------------------

  function PlainCode(p: PlainOp): bv16
  {
    match p
    case EICALL => 0x9519
    case EIJMP => 0x9419
    case ELPM => 0x95D8
    case ESPM => 0x95F8
    case ICALL => 0x9509
    case IJMP => 0x9409
    case LPM => 0x95C8
    case NOP => 0x0000
    case RET => 0x9508
    case RETI => 0x9518
    case SLEEP => 0x9588
    case SPM => 0x95E8
    case WDR => 0x95A8
  }

  function TwoRegBase(o: TwoRegOp): bv16
  {
    match o
    case ADC => 0x1C00
    case ADD => 0x0C00
    case AND => 0x2000
    case CP => 0x1400
    case CPC => 0x0400
    case CPSE => 0x1000
    case EOR => 0x2400
    case MOV => 0x2C00
    case MUL => 0x9C00
    case OR => 0x2800
    case SBC => 0x0800
    case SUB => 0x1800
  }

  function OneRegBase(o: OneRegOp): bv16
  {
    match o
    case ASR => 0x9405
    case COM => 0x9400
    case DEC => 0x940A
    case ELPM_Z => 0x9006
    case ELPM_Z_INC => 0x9007
    case INC => 0x9403
    case LDS => 0x9000
    case LD_X => 0x900C
    case LD_X_DEC => 0x900E
    case LD_X_INC => 0x900D
    case LD_Y_DEC => 0x900A
    case LD_Y_INC => 0x9009
    case LD_Z_DEC => 0x9002
    case LD_Z_INC => 0x9001
    case LPM_Z => 0x9004
    case LPM_Z_INC => 0x9005
    case LSR => 0x9406
    case NEG => 0x9401
    case POP => 0x900F
    case PUSH => 0x920F
    case ROR => 0x9407
    case STS => 0x9200
    case ST_X => 0x920C
    case ST_X_DEC => 0x920E
    case ST_X_INC => 0x920D
    case ST_Y_DEC => 0x920A
    case ST_Y_INC => 0x9209
    case ST_Z_DEC => 0x9202
    case ST_Z_INC => 0x9201
    case SWAP => 0x9402
  }

  function ImmBase(o: ImmOp): bv16
  {
    match o
    case ANDI => 0x7000
    case CPI => 0x3000
    case LDI => 0xE000
    case ORI => 0x6000
    case SBCI => 0x4000
    case SUBI => 0x5000
  }

  function RegBitBase(o: RegBitOp): bv16
  {
    match o
    case BLD => 0xF800
    case BST => 0xFA00
    case SBRC => 0xFC00
    case SBRS => 0xFE00
  }

  function BranchBase(o: BranchOp): bv16
  {
    match o
    case BRBC => 0xF400
    case BRBS => 0xF000
  }

  function DispBase(o: DispOp): bv16
  {
    match o
    case LDD_Y => 0x8008
    case LDD_Z => 0x8000
    case STD_Y => 0x8208
    case STD_Z => 0x8200
  }

  function FarBase(o: FarOp): bv16
  {
    match o
    case CALL => 0x940E
    case JMP => 0x940C
  }

  function SregBase(o: SregOp): bv16
  {
    match o
    case BCLR => 0x9488
    case BSET => 0x9408
  }

  function WordBase(o: WordOp): bv16
  {
    match o
    case ADIW => 0x9600
    case SBIW => 0x9700
  }

  function IoBitBase(o: IoBitOp): bv16
  {
    match o
    case CBI => 0x9800
    case SBI => 0x9A00
    case SBIC => 0x9900
    case SBIS => 0x9B00
  }

  function IoBase(o: IoOp): bv16
  {
    match o
    case IN => 0xB000
    case OUT => 0xB800
  }

  function RelBase(o: RelOp): bv16
  {
    match o
    case RCALL => 0xD000
    case RJMP => 0xC000
  }

  function HighPairBase(o: HighPairOp): bv16
  {
    match o
    case MOVW => 0x0100
    case MULS => 0x0200
  }

  function MidPairBase(o: MidPairOp): bv16
  {
    match o
    case MULSU => 0x0300
    case FMUL => 0x0308
    case FMULS => 0x0380
    case FMULSU => 0x0388
  }

  // Operand masks of each category, in the decoder's order.
  const TwoRegMask: bv16 := MaskRd5 | MaskRr5
  const OneRegMask: bv16 := MaskRd5
  const ImmMask: bv16 := MaskRd4 | MaskK8
  const RegBitMask: bv16 := MaskRd5 | MaskRegBit
  const BranchMask: bv16 := Maskk7 | MaskRegBit
  const DispMask: bv16 := MaskRd5 | MaskQ
  const FarMask: bv16 := Maskk22
  const SregMask: bv16 := MaskSregBit
  const WordMask: bv16 := MaskK6 | MaskRd2
  const IoBitMask: bv16 := MaskA5 | MaskRegBit
  const IoMask: bv16 := MaskA6 | MaskRd5
  const RelMask: bv16 := Maskk12
  const HighPairMask: bv16 := MaskRd4 | MaskRr4
  const MidPairMask: bv16 := MaskRd3 | MaskRr3

  /** The 16-bit opcode word of an instruction (for `Illegal`, the word it
      was decoded from). */
  function Encode(i: Instr): bv16
  {
    match i
    case Plain(p) => PlainCode(p)
    case TwoReg(o, d, r) => TwoRegBase(o) | PlaceRd5(d) | PlaceRr5(r)
    case OneReg(o, d) => OneRegBase(o) | PlaceRd5(d)
    case Imm(o, d, k) => ImmBase(o) | PlaceRd4(d) | PlaceK8(k)
    case RegBitI(o, d, b) => RegBitBase(o) | PlaceRd5(d) | PlaceRegBit(b)
    case Branch(o, b, k) => BranchBase(o) | Placek7(k) | PlaceRegBit(b)
    case Disp(o, d, q) => DispBase(o) | PlaceRd5(d) | PlaceQ(q)
    case Far(o, kh) => FarBase(o) | Placek22(kh)
    case Sreg(o, s) => SregBase(o) | PlaceSregBit(s)
    case Word(o, d, k) => WordBase(o) | PlaceK6(k) | PlaceRd2(d)
    case IoBit(o, a, b) => IoBitBase(o) | PlaceA5(a) | PlaceRegBit(b)
    case Io(o, d, a) => IoBase(o) | PlaceA6(a) | PlaceRd5(d)
    case Rel(o, k) => RelBase(o) | Placek12(k)
    case HighPair(o, d, r) => HighPairBase(o) | PlaceRd4(d) | PlaceRr4(r)
    case MidPair(o, d, r) => MidPairBase(o) | PlaceRd3(d) | PlaceRr3(r)
    case Illegal(op) => op
  }

  /** The instructions that occupy two program words (the second holding a
      16-bit address). */
  predicate IsTwoWord(i: Instr)
  {
    match i
    case Far(_, _) => true
    case OneReg(o, _) => o == LDS || o == STS
    case _ => false
  }
}
