/** The opcode decoder (`lookup_opcode`).

    Decoding is a first-match dispatch: the operand-free opcodes are
    compared exactly, then each operand-shape category clears its operand
    bits and compares what is left against its templates, in a fixed order;
    an opcode that matches nothing decodes to `Illegal`. The lemmas show
    that decoding and `Encode` are inverse to each other, so no template is
    shadowed by an earlier one and an opcode is illegal exactly when it is
    the encoding of no instruction.
 */
module Decoder {
  import opened Operands
  import opened Instructions

  datatype Option<T> = None | Some(value: T)

  // ---------------------------------------------------------------------
  // The template tables, one per category, as the decoder's switches.
  // ---------------------------------------------------------------------

  function PlainOf(op: bv16): (r: Option<PlainOp>)
    ensures r.Some? ==> PlainCode(r.value) == op
  {
    if op == 0x9519 then Some(EICALL)
    else if op == 0x9419 then Some(EIJMP)
    else if op == 0x95D8 then Some(ELPM)
    else if op == 0x95F8 then Some(ESPM)
    else if op == 0x9509 then Some(ICALL)
    else if op == 0x9409 then Some(IJMP)
    else if op == 0x95C8 then Some(LPM)
    else if op == 0x0000 then Some(NOP)
    else if op == 0x9508 then Some(RET)
    else if op == 0x9518 then Some(RETI)
    else if op == 0x9588 then Some(SLEEP)
    else if op == 0x95E8 then Some(SPM)
    else if op == 0x95A8 then Some(WDR)
    else None
  }

  function TwoRegOf(t: bv16): (r: Option<TwoRegOp>)
    ensures r.Some? ==> TwoRegBase(r.value) == t
  {
    if t == 0x1C00 then Some(ADC)
    else if t == 0x0C00 then Some(ADD)
    else if t == 0x2000 then Some(AND)
    else if t == 0x1400 then Some(CP)
    else if t == 0x0400 then Some(CPC)
    else if t == 0x1000 then Some(CPSE)
    else if t == 0x2400 then Some(EOR)
    else if t == 0x2C00 then Some(MOV)
    else if t == 0x9C00 then Some(MUL)
    else if t == 0x2800 then Some(OR)
    else if t == 0x0800 then Some(SBC)
    else if t == 0x1800 then Some(SUB)
    else None
  }

  function OneRegOf(t: bv16): (r: Option<OneRegOp>)
    ensures r.Some? ==> OneRegBase(r.value) == t
  {
    if t == 0x9405 then Some(ASR)
    else if t == 0x9400 then Some(COM)
    else if t == 0x940A then Some(DEC)
    else if t == 0x9006 then Some(ELPM_Z)
    else if t == 0x9007 then Some(ELPM_Z_INC)
    else if t == 0x9403 then Some(INC)
    else if t == 0x9000 then Some(LDS)
    else if t == 0x900C then Some(LD_X)
    else if t == 0x900E then Some(LD_X_DEC)
    else if t == 0x900D then Some(LD_X_INC)
    else if t == 0x900A then Some(LD_Y_DEC)
    else if t == 0x9009 then Some(LD_Y_INC)
    else if t == 0x9002 then Some(LD_Z_DEC)
    else if t == 0x9001 then Some(LD_Z_INC)
    else if t == 0x9004 then Some(LPM_Z)
    else if t == 0x9005 then Some(LPM_Z_INC)
    else if t == 0x9406 then Some(LSR)
    else if t == 0x9401 then Some(NEG)
    else if t == 0x900F then Some(POP)
    else if t == 0x920F then Some(PUSH)
    else if t == 0x9407 then Some(ROR)
    else if t == 0x9200 then Some(STS)
    else if t == 0x920C then Some(ST_X)
    else if t == 0x920E then Some(ST_X_DEC)
    else if t == 0x920D then Some(ST_X_INC)
    else if t == 0x920A then Some(ST_Y_DEC)
    else if t == 0x9209 then Some(ST_Y_INC)
    else if t == 0x9202 then Some(ST_Z_DEC)
    else if t == 0x9201 then Some(ST_Z_INC)
    else if t == 0x9402 then Some(SWAP)
    else None
  }

  function ImmOf(t: bv16): (r: Option<ImmOp>)
    ensures r.Some? ==> ImmBase(r.value) == t
  {
    if t == 0x7000 then Some(ANDI)
    else if t == 0x3000 then Some(CPI)
    else if t == 0xE000 then Some(LDI)
    else if t == 0x6000 then Some(ORI)
    else if t == 0x4000 then Some(SBCI)
    else if t == 0x5000 then Some(SUBI)
    else None
  }

  function RegBitOf(t: bv16): (r: Option<RegBitOp>)
    ensures r.Some? ==> RegBitBase(r.value) == t
  {
    if t == 0xF800 then Some(BLD)
    else if t == 0xFA00 then Some(BST)
    else if t == 0xFC00 then Some(SBRC)
    else if t == 0xFE00 then Some(SBRS)
    else None
  }

  function BranchOf(t: bv16): (r: Option<BranchOp>)
    ensures r.Some? ==> BranchBase(r.value) == t
  {
    if t == 0xF400 then Some(BRBC)
    else if t == 0xF000 then Some(BRBS)
    else None
  }

  function DispOf(t: bv16): (r: Option<DispOp>)
    ensures r.Some? ==> DispBase(r.value) == t
  {
    if t == 0x8008 then Some(LDD_Y)
    else if t == 0x8000 then Some(LDD_Z)
    else if t == 0x8208 then Some(STD_Y)
    else if t == 0x8200 then Some(STD_Z)
    else None
  }

  function FarOf(t: bv16): (r: Option<FarOp>)
    ensures r.Some? ==> FarBase(r.value) == t
  {
    if t == 0x940E then Some(CALL)
    else if t == 0x940C then Some(JMP)
    else None
  }

  function SregOf(t: bv16): (r: Option<SregOp>)
    ensures r.Some? ==> SregBase(r.value) == t
  {
    if t == 0x9488 then Some(BCLR)
    else if t == 0x9408 then Some(BSET)
    else None
  }

  function WordOf(t: bv16): (r: Option<WordOp>)
    ensures r.Some? ==> WordBase(r.value) == t
  {
    if t == 0x9600 then Some(ADIW)
    else if t == 0x9700 then Some(SBIW)
    else None
  }

  function IoBitOf(t: bv16): (r: Option<IoBitOp>)
    ensures r.Some? ==> IoBitBase(r.value) == t
  {
    if t == 0x9800 then Some(CBI)
    else if t == 0x9A00 then Some(SBI)
    else if t == 0x9900 then Some(SBIC)
    else if t == 0x9B00 then Some(SBIS)
    else None
  }

  function IoOf(t: bv16): (r: Option<IoOp>)
    ensures r.Some? ==> IoBase(r.value) == t
  {
    if t == 0xB000 then Some(IN)
    else if t == 0xB800 then Some(OUT)
    else None
  }

  function RelOf(t: bv16): (r: Option<RelOp>)
    ensures r.Some? ==> RelBase(r.value) == t
  {
    if t == 0xD000 then Some(RCALL)
    else if t == 0xC000 then Some(RJMP)
    else None
  }

  function HighPairOf(t: bv16): (r: Option<HighPairOp>)
    ensures r.Some? ==> HighPairBase(r.value) == t
  {
    if t == 0x0100 then Some(MOVW)
    else if t == 0x0200 then Some(MULS)
    else None
  }

  function MidPairOf(t: bv16): (r: Option<MidPairOp>)
    ensures r.Some? ==> MidPairBase(r.value) == t
  {
    if t == 0x0300 then Some(MULSU)
    else if t == 0x0308 then Some(FMUL)
    else if t == 0x0380 then Some(FMULS)
    else if t == 0x0388 then Some(FMULSU)
    else None
  }

  // ---------------------------------------------------------------------
  // lookup_opcode
  // ---------------------------------------------------------------------

  // One function per category: the instruction the category yields for
  // `op`, with its operands extracted, or None when no template matches.

  function DecodePlain(op: bv16): (r: Option<Instr>)
    ensures r.Some? ==> r.value.Plain?
  {
    match PlainOf(op)
    case Some(o) => Some(Plain(o))
    case None => None
  }

  function DecodeTwoReg(op: bv16): (r: Option<Instr>)
    ensures r.Some? ==> r.value.TwoReg?
  {
    match TwoRegOf(op & !TwoRegMask)
    case Some(o) => Some(TwoReg(o, Rd5(op), Rr5(op)))
    case None => None
  }

  function DecodeOneReg(op: bv16): (r: Option<Instr>)
    ensures r.Some? ==> r.value.OneReg?
  {
    match OneRegOf(op & !OneRegMask)
    case Some(o) => Some(OneReg(o, Rd5(op)))
    case None => None
  }

  function DecodeImm(op: bv16): (r: Option<Instr>)
    ensures r.Some? ==> r.value.Imm?
  {
    match ImmOf(op & !ImmMask)
    case Some(o) => Some(Imm(o, Rd4(op), K8(op)))
    case None => None
  }

  function DecodeRegBit(op: bv16): (r: Option<Instr>)
    ensures r.Some? ==> r.value.RegBitI?
  {
    match RegBitOf(op & !RegBitMask)
    case Some(o) => Some(RegBitI(o, Rd5(op), RegBit(op)))
    case None => None
  }

  function DecodeBranch(op: bv16): (r: Option<Instr>)
    ensures r.Some? ==> r.value.Branch?
  {
    match BranchOf(op & !BranchMask)
    case Some(o) => Some(Branch(o, RegBit(op), k7(op)))
    case None => None
  }

  function DecodeDisp(op: bv16): (r: Option<Instr>)
    ensures r.Some? ==> r.value.Disp?
  {
    match DispOf(op & !DispMask)
    case Some(o) => Some(Disp(o, Rd5(op), Q(op)))
    case None => None
  }

  function DecodeFar(op: bv16): (r: Option<Instr>)
    ensures r.Some? ==> r.value.Far?
  {
    match FarOf(op & !FarMask)
    case Some(o) => Some(Far(o, k22(op)))
    case None => None
  }

  function DecodeSreg(op: bv16): (r: Option<Instr>)
    ensures r.Some? ==> r.value.Sreg?
  {
    match SregOf(op & !SregMask)
    case Some(o) => Some(Sreg(o, SregBit(op)))
    case None => None
  }

  function DecodeWord(op: bv16): (r: Option<Instr>)
    ensures r.Some? ==> r.value.Word?
  {
    match WordOf(op & !WordMask)
    case Some(o) => Some(Word(o, Rd2(op), K6(op)))
    case None => None
  }

  function DecodeIoBit(op: bv16): (r: Option<Instr>)
    ensures r.Some? ==> r.value.IoBit?
  {
    match IoBitOf(op & !IoBitMask)
    case Some(o) => Some(IoBit(o, A5(op), RegBit(op)))
    case None => None
  }

  function DecodeIo(op: bv16): (r: Option<Instr>)
    ensures r.Some? ==> r.value.Io?
  {
    match IoOf(op & !IoMask)
    case Some(o) => Some(Io(o, Rd5(op), A6(op)))
    case None => None
  }

  function DecodeRel(op: bv16): (r: Option<Instr>)
    ensures r.Some? ==> r.value.Rel?
  {
    match RelOf(op & !RelMask)
    case Some(o) => Some(Rel(o, k12(op)))
    case None => None
  }

  function DecodeHighPair(op: bv16): (r: Option<Instr>)
    ensures r.Some? ==> r.value.HighPair?
  {
    match HighPairOf(op & !HighPairMask)
    case Some(o) => Some(HighPair(o, Rd4(op), Rr4(op)))
    case None => None
  }

  function DecodeMidPair(op: bv16): (r: Option<Instr>)
    ensures r.Some? ==> r.value.MidPair?
  {
    match MidPairOf(op & !MidPairMask)
    case Some(o) => Some(MidPair(o, Rd3(op), Rr3(op)))
    case None => None
  }

  /** Decode one opcode word: exact opcodes first, then the categories in
      the decoder's order; the first match wins and an unmatched opcode is
      `Illegal`. */
  function Decode(op: bv16): (r: Instr)
    ensures r.Illegal? ==> r == Illegal(op)
    ensures DecodePlain(op).Some? ==> r == DecodePlain(op).value
  {
    var c := DecodePlain(op); if c.Some? then c.value else
    var c := DecodeTwoReg(op); if c.Some? then c.value else
    var c := DecodeOneReg(op); if c.Some? then c.value else
    var c := DecodeImm(op); if c.Some? then c.value else
    var c := DecodeRegBit(op); if c.Some? then c.value else
    var c := DecodeBranch(op); if c.Some? then c.value else
    var c := DecodeDisp(op); if c.Some? then c.value else
    var c := DecodeFar(op); if c.Some? then c.value else
    var c := DecodeSreg(op); if c.Some? then c.value else
    var c := DecodeWord(op); if c.Some? then c.value else
    var c := DecodeIoBit(op); if c.Some? then c.value else
    var c := DecodeIo(op); if c.Some? then c.value else
    var c := DecodeRel(op); if c.Some? then c.value else
    var c := DecodeHighPair(op); if c.Some? then c.value else
    var c := DecodeMidPair(op); if c.Some? then c.value else
    Illegal(op)
  }

  /** Whatever category an opcode decodes in, the instruction is exactly
      what that category's template extracts from the opcode. */
  lemma DecodedByCategory(op: bv16)
    ensures Decode(op).Plain? ==> DecodePlain(op) == Some(Decode(op))
    ensures Decode(op).TwoReg? ==> DecodeTwoReg(op) == Some(Decode(op))
    ensures Decode(op).OneReg? ==> DecodeOneReg(op) == Some(Decode(op))
    ensures Decode(op).Imm? ==> DecodeImm(op) == Some(Decode(op))
    ensures Decode(op).RegBitI? ==> DecodeRegBit(op) == Some(Decode(op))
    ensures Decode(op).Branch? ==> DecodeBranch(op) == Some(Decode(op))
    ensures Decode(op).Disp? ==> DecodeDisp(op) == Some(Decode(op))
    ensures Decode(op).Far? ==> DecodeFar(op) == Some(Decode(op))
    ensures Decode(op).Sreg? ==> DecodeSreg(op) == Some(Decode(op))
    ensures Decode(op).Word? ==> DecodeWord(op) == Some(Decode(op))
    ensures Decode(op).IoBit? ==> DecodeIoBit(op) == Some(Decode(op))
    ensures Decode(op).Io? ==> DecodeIo(op) == Some(Decode(op))
    ensures Decode(op).Rel? ==> DecodeRel(op) == Some(Decode(op))
    ensures Decode(op).HighPair? ==> DecodeHighPair(op) == Some(Decode(op))
    ensures Decode(op).MidPair? ==> DecodeMidPair(op) == Some(Decode(op))
  {
    if DecodePlain(op).Some? {
      assert Decode(op) == DecodePlain(op).value;
    } else if DecodeTwoReg(op).Some? {
      assert Decode(op) == DecodeTwoReg(op).value;
    } else if DecodeOneReg(op).Some? {
      assert Decode(op) == DecodeOneReg(op).value;
    } else if DecodeImm(op).Some? {
      assert Decode(op) == DecodeImm(op).value;
    } else if DecodeRegBit(op).Some? {
      assert Decode(op) == DecodeRegBit(op).value;
    } else if DecodeBranch(op).Some? {
      assert Decode(op) == DecodeBranch(op).value;
    } else if DecodeDisp(op).Some? {
      assert Decode(op) == DecodeDisp(op).value;
    } else if DecodeFar(op).Some? {
      assert Decode(op) == DecodeFar(op).value;
    } else if DecodeSreg(op).Some? {
      assert Decode(op) == DecodeSreg(op).value;
    } else if DecodeWord(op).Some? {
      assert Decode(op) == DecodeWord(op).value;
    } else if DecodeIoBit(op).Some? {
      assert Decode(op) == DecodeIoBit(op).value;
    } else if DecodeIo(op).Some? {
      assert Decode(op) == DecodeIo(op).value;
    } else if DecodeRel(op).Some? {
      assert Decode(op) == DecodeRel(op).value;
    } else if DecodeHighPair(op).Some? {
      assert Decode(op) == DecodeHighPair(op).value;
    } else if DecodeMidPair(op).Some? {
      assert Decode(op) == DecodeMidPair(op).value;
    }
  }

  // ---------------------------------------------------------------------
  // Every template table maps each of its templates to its instruction.
  // ---------------------------------------------------------------------

  lemma PlainOfPlainCode(o: PlainOp)
    ensures PlainOf(PlainCode(o)) == Some(o)
  {}

  lemma TwoRegOfTwoRegBase(o: TwoRegOp)
    ensures TwoRegOf(TwoRegBase(o)) == Some(o)
  {}

  lemma OneRegOfOneRegBase(o: OneRegOp)
    ensures OneRegOf(OneRegBase(o)) == Some(o)
  {}

  lemma ImmOfImmBase(o: ImmOp)
    ensures ImmOf(ImmBase(o)) == Some(o)
  {}

  lemma RegBitOfRegBitBase(o: RegBitOp)
    ensures RegBitOf(RegBitBase(o)) == Some(o)
  {}

  lemma BranchOfBranchBase(o: BranchOp)
    ensures BranchOf(BranchBase(o)) == Some(o)
  {}

  lemma DispOfDispBase(o: DispOp)
    ensures DispOf(DispBase(o)) == Some(o)
  {}

  lemma FarOfFarBase(o: FarOp)
    ensures FarOf(FarBase(o)) == Some(o)
  {}

  lemma SregOfSregBase(o: SregOp)
    ensures SregOf(SregBase(o)) == Some(o)
  {}

  lemma WordOfWordBase(o: WordOp)
    ensures WordOf(WordBase(o)) == Some(o)
  {}

  lemma IoBitOfIoBitBase(o: IoBitOp)
    ensures IoBitOf(IoBitBase(o)) == Some(o)
  {}

  lemma IoOfIoBase(o: IoOp)
    ensures IoOf(IoBase(o)) == Some(o)
  {}

  lemma RelOfRelBase(o: RelOp)
    ensures RelOf(RelBase(o)) == Some(o)
  {}

  lemma HighPairOfHighPairBase(o: HighPairOp)
    ensures HighPairOf(HighPairBase(o)) == Some(o)
  {}

  lemma MidPairOfMidPairBase(o: MidPairOp)
    ensures MidPairOf(MidPairBase(o)) == Some(o)
  {}

  // ---------------------------------------------------------------------
  // Whatever a category yields is one of its own instructions and encodes
  // back to the opcode it came from.
  // ---------------------------------------------------------------------

  lemma PlainInverse(op: bv16)
    requires DecodePlain(op).Some?
    ensures DecodePlain(op).value.Plain? && Encode(DecodePlain(op).value) == op
  {}

  lemma TwoRegInverse(op: bv16)
    requires DecodeTwoReg(op).Some?
    ensures DecodeTwoReg(op).value.TwoReg? && Encode(DecodeTwoReg(op).value) == op
  {}

  lemma OneRegInverse(op: bv16)
    requires DecodeOneReg(op).Some?
    ensures DecodeOneReg(op).value.OneReg? && Encode(DecodeOneReg(op).value) == op
  {}

  lemma ImmInverse(op: bv16)
    requires DecodeImm(op).Some?
    ensures DecodeImm(op).value.Imm? && Encode(DecodeImm(op).value) == op
  {}

  lemma RegBitInverse(op: bv16)
    requires DecodeRegBit(op).Some?
    ensures DecodeRegBit(op).value.RegBitI? && Encode(DecodeRegBit(op).value) == op
  {}

  lemma BranchInverse(op: bv16)
    requires DecodeBranch(op).Some?
    ensures DecodeBranch(op).value.Branch? && Encode(DecodeBranch(op).value) == op
  {}

  lemma DispInverse(op: bv16)
    requires DecodeDisp(op).Some?
    ensures DecodeDisp(op).value.Disp? && Encode(DecodeDisp(op).value) == op
  {}

  lemma FarInverse(op: bv16)
    requires DecodeFar(op).Some?
    ensures DecodeFar(op).value.Far? && Encode(DecodeFar(op).value) == op
  {}

  lemma SregInverse(op: bv16)
    requires DecodeSreg(op).Some?
    ensures DecodeSreg(op).value.Sreg? && Encode(DecodeSreg(op).value) == op
  {}

  lemma WordInverse(op: bv16)
    requires DecodeWord(op).Some?
    ensures DecodeWord(op).value.Word? && Encode(DecodeWord(op).value) == op
  {}

  lemma IoBitInverse(op: bv16)
    requires DecodeIoBit(op).Some?
    ensures DecodeIoBit(op).value.IoBit? && Encode(DecodeIoBit(op).value) == op
  {}

  lemma IoInverse(op: bv16)
    requires DecodeIo(op).Some?
    ensures DecodeIo(op).value.Io? && Encode(DecodeIo(op).value) == op
  {}

  lemma RelInverse(op: bv16)
    requires DecodeRel(op).Some?
    ensures DecodeRel(op).value.Rel? && Encode(DecodeRel(op).value) == op
  {}

  lemma HighPairInverse(op: bv16)
    requires DecodeHighPair(op).Some?
    ensures DecodeHighPair(op).value.HighPair? && Encode(DecodeHighPair(op).value) == op
  {}

  lemma MidPairInverse(op: bv16)
    requires DecodeMidPair(op).Some?
    ensures DecodeMidPair(op).value.MidPair? && Encode(DecodeMidPair(op).value) == op
  {}

  // ---------------------------------------------------------------------
  // Row footprints. The high byte of an opcode word picks the rows of the
  // opcode map a category's templates can occupy; only rows 0x94 and 0x95
  // are shared (by the exact opcodes, the single-register, absolute-address
  // and status-bit categories).
  // ---------------------------------------------------------------------

  function Row(op: bv16): bv8 { (op >> 8) as bv8 }

  predicate PlainRow(row: bv8) { row == 0x00 || row == 0x94 || row == 0x95 }
  predicate TwoRegRow(row: bv8) { 0x04 <= row < 0x30 || 0x9C <= row < 0xA0 }
  predicate OneRegRow(row: bv8) { 0x90 <= row < 0x96 }
  predicate ImmRow(row: bv8) { 0x30 <= row < 0x80 || 0xE0 <= row < 0xF0 }
  predicate RegBitRow(row: bv8) { 0xF8 <= row }
  predicate BranchRow(row: bv8) { 0xF0 <= row < 0xF8 }
  predicate DispRow(row: bv8) { 0x80 <= row < 0x90 || 0xA0 <= row < 0xB0 }
  predicate FarRow(row: bv8) { row == 0x94 || row == 0x95 }
  predicate SregRow(row: bv8) { row == 0x94 }
  predicate WordRow(row: bv8) { row == 0x96 || row == 0x97 }
  predicate IoBitRow(row: bv8) { 0x98 <= row < 0x9C }
  predicate IoRow(row: bv8) { 0xB0 <= row < 0xC0 }
  predicate RelRow(row: bv8) { 0xC0 <= row < 0xE0 }
  predicate HighPairRow(row: bv8) { row == 0x01 || row == 0x02 }
  predicate MidPairRow(row: bv8) { row == 0x03 }

  lemma PlainRows(op: bv16)
    ensures DecodePlain(op).Some? ==> PlainRow(Row(op))
  {}

  lemma TwoRegRows(op: bv16)
    ensures DecodeTwoReg(op).Some? ==> TwoRegRow(Row(op))
  {}

  lemma OneRegRows(op: bv16)
    ensures DecodeOneReg(op).Some? ==> OneRegRow(Row(op))
  {}

  lemma ImmRows(op: bv16)
    ensures DecodeImm(op).Some? ==> ImmRow(Row(op))
  {}

  lemma RegBitRows(op: bv16)
    ensures DecodeRegBit(op).Some? ==> RegBitRow(Row(op))
  {}

  lemma BranchRows(op: bv16)
    ensures DecodeBranch(op).Some? ==> BranchRow(Row(op))
  {}

  lemma DispRows(op: bv16)
    ensures DecodeDisp(op).Some? ==> DispRow(Row(op))
  {}

  lemma FarRows(op: bv16)
    ensures DecodeFar(op).Some? ==> FarRow(Row(op))
  {}

  lemma SregRows(op: bv16)
    ensures DecodeSreg(op).Some? ==> SregRow(Row(op))
  {}

  lemma WordRows(op: bv16)
    ensures DecodeWord(op).Some? ==> WordRow(Row(op))
  {}

  lemma IoBitRows(op: bv16)
    ensures DecodeIoBit(op).Some? ==> IoBitRow(Row(op))
  {}

  lemma IoRows(op: bv16)
    ensures DecodeIo(op).Some? ==> IoRow(Row(op))
  {}

  lemma RelRows(op: bv16)
    ensures DecodeRel(op).Some? ==> RelRow(Row(op))
  {}

  lemma HighPairRows(op: bv16)
    ensures DecodeHighPair(op).Some? ==> HighPairRow(Row(op))
  {}

  lemma MidPairRows(op: bv16)
    ensures DecodeMidPair(op).Some? ==> MidPairRow(Row(op))
  {}

  // ---------------------------------------------------------------------
  // Each category recognises the encodings of its own instructions, and the
  // categories that share a row do not catch each other's encodings.
  // ---------------------------------------------------------------------

  lemma HitPlain(o: PlainOp)
    ensures DecodePlain(Encode(Plain(o))) == Some(Plain(o))
  {
    var op := Encode(Plain(o));
    PlainOfPlainCode(o);
  }

  lemma HitTwoReg(o: TwoRegOp, d: Reg, r: Reg)
    ensures DecodeTwoReg(Encode(TwoReg(o, d, r))) == Some(TwoReg(o, d, r))
  {
    var op := Encode(TwoReg(o, d, r));
    assert op & !TwoRegMask == TwoRegBase(o);
    TwoRegOfTwoRegBase(o);
    Rd5OfPlace(d, op);
    Rr5OfPlace(r, op);
  }

  lemma HitOneReg(o: OneRegOp, d: Reg)
    ensures DecodeOneReg(Encode(OneReg(o, d))) == Some(OneReg(o, d))
  {
    var op := Encode(OneReg(o, d));
    assert op & !OneRegMask == OneRegBase(o);
    OneRegOfOneRegBase(o);
    Rd5OfPlace(d, op);
  }

  lemma HitImm(o: ImmOp, d: HighReg, k: bv8)
    ensures DecodeImm(Encode(Imm(o, d, k))) == Some(Imm(o, d, k))
  {
    var op := Encode(Imm(o, d, k));
    assert op & !ImmMask == ImmBase(o);
    ImmOfImmBase(o);
    Rd4OfPlace(d, op);
    K8OfPlace(k, op);
  }

  lemma HitRegBit(o: RegBitOp, d: Reg, b: BitNum)
    ensures DecodeRegBit(Encode(RegBitI(o, d, b))) == Some(RegBitI(o, d, b))
  {
    var op := Encode(RegBitI(o, d, b));
    assert op & !RegBitMask == RegBitBase(o);
    RegBitOfRegBitBase(o);
    Rd5OfPlace(d, op);
    RegBitOfPlace(b, op);
  }

  lemma HitBranch(o: BranchOp, b: BitNum, k: Imm7)
    ensures DecodeBranch(Encode(Branch(o, b, k))) == Some(Branch(o, b, k))
  {
    var op := Encode(Branch(o, b, k));
    assert op & !BranchMask == BranchBase(o);
    BranchOfBranchBase(o);
    RegBitOfPlace(b, op);
    k7OfPlace(k, op);
  }

  lemma HitDisp(o: DispOp, d: Reg, q: Imm6)
    ensures DecodeDisp(Encode(Disp(o, d, q))) == Some(Disp(o, d, q))
  {
    var op := Encode(Disp(o, d, q));
    assert op & !DispMask == DispBase(o);
    DispOfDispBase(o);
    Rd5OfPlace(d, op);
    QOfPlace(q, op);
  }

  lemma HitFar(o: FarOp, kh: Imm6)
    ensures DecodeFar(Encode(Far(o, kh))) == Some(Far(o, kh))
  {
    var op := Encode(Far(o, kh));
    assert op & !FarMask == FarBase(o);
    FarOfFarBase(o);
    k22OfPlace(kh, op);
  }

  lemma HitSreg(o: SregOp, s: BitNum)
    ensures DecodeSreg(Encode(Sreg(o, s))) == Some(Sreg(o, s))
  {
    var op := Encode(Sreg(o, s));
    assert op & !SregMask == SregBase(o);
    SregOfSregBase(o);
    SregBitOfPlace(s, op);
  }

  lemma HitWord(o: WordOp, d: PairReg, k: Imm6)
    ensures DecodeWord(Encode(Word(o, d, k))) == Some(Word(o, d, k))
  {
    var op := Encode(Word(o, d, k));
    assert op & !WordMask == WordBase(o);
    WordOfWordBase(o);
    Rd2OfPlace(d, op);
    K6OfPlace(k, op);
  }

  lemma HitIoBit(o: IoBitOp, a: Imm5, b: BitNum)
    ensures DecodeIoBit(Encode(IoBit(o, a, b))) == Some(IoBit(o, a, b))
  {
    var op := Encode(IoBit(o, a, b));
    assert op & !IoBitMask == IoBitBase(o);
    IoBitOfIoBitBase(o);
    A5OfPlace(a, op);
    RegBitOfPlace(b, op);
  }

  lemma HitIo(o: IoOp, d: Reg, a: Imm6)
    ensures DecodeIo(Encode(Io(o, d, a))) == Some(Io(o, d, a))
  {
    var op := Encode(Io(o, d, a));
    assert op & !IoMask == IoBase(o);
    IoOfIoBase(o);
    Rd5OfPlace(d, op);
    A6OfPlace(a, op);
  }

  lemma HitRel(o: RelOp, k: Imm12)
    ensures DecodeRel(Encode(Rel(o, k))) == Some(Rel(o, k))
  {
    var op := Encode(Rel(o, k));
    assert op & !RelMask == RelBase(o);
    RelOfRelBase(o);
    k12OfPlace(k, op);
  }

  lemma HitHighPair(o: HighPairOp, d: HighReg, r: HighReg)
    ensures DecodeHighPair(Encode(HighPair(o, d, r))) == Some(HighPair(o, d, r))
  {
    var op := Encode(HighPair(o, d, r));
    assert op & !HighPairMask == HighPairBase(o);
    HighPairOfHighPairBase(o);
    Rd4OfPlace(d, op);
    Rr4OfPlace(r, op);
  }

  lemma HitMidPair(o: MidPairOp, d: MidReg, r: MidReg)
    ensures DecodeMidPair(Encode(MidPair(o, d, r))) == Some(MidPair(o, d, r))
  {
    var op := Encode(MidPair(o, d, r));
    assert op & !MidPairMask == MidPairBase(o);
    MidPairOfMidPairBase(o);
    Rd3OfPlace(d, op);
    Rr3OfPlace(r, op);
  }

  lemma MissPlain(i: Instr)
    requires !i.Illegal? && !i.Plain?
    ensures DecodePlain(Encode(i)) == None
  {}

  lemma FarMissesOneReg(o: FarOp, kh: Imm6)
    ensures DecodeOneReg(Encode(Far(o, kh))) == None
  {}

  lemma SregMissesOneReg(o: SregOp, s: BitNum)
    ensures DecodeOneReg(Encode(Sreg(o, s))) == None
  {}

  lemma SregMissesFar(o: SregOp, s: BitNum)
    ensures DecodeFar(Encode(Sreg(o, s))) == None
  {}

  lemma DecodeEncodePlain(o: PlainOp)
    ensures Decode(Encode(Plain(o))) == Plain(o)
  {
    var op := Encode(Plain(o));
    HitPlain(o);
    PlainRows(op);
  }

  lemma DecodeEncodeTwoReg(o: TwoRegOp, d: Reg, r: Reg)
    ensures Decode(Encode(TwoReg(o, d, r))) == TwoReg(o, d, r)
  {
    var op := Encode(TwoReg(o, d, r));
    HitTwoReg(o, d, r);
    TwoRegRows(op);
    MissPlain(TwoReg(o, d, r));
  }

  lemma DecodeEncodeOneReg(o: OneRegOp, d: Reg)
    ensures Decode(Encode(OneReg(o, d))) == OneReg(o, d)
  {
    var op := Encode(OneReg(o, d));
    HitOneReg(o, d);
    OneRegRows(op);
    MissPlain(OneReg(o, d));
    TwoRegRows(op);
  }

  lemma DecodeEncodeImm(o: ImmOp, d: HighReg, k: bv8)
    ensures Decode(Encode(Imm(o, d, k))) == Imm(o, d, k)
  {
    var op := Encode(Imm(o, d, k));
    HitImm(o, d, k);
    ImmRows(op);
    MissPlain(Imm(o, d, k));
    TwoRegRows(op);
    OneRegRows(op);
  }

  lemma DecodeEncodeRegBit(o: RegBitOp, d: Reg, b: BitNum)
    ensures Decode(Encode(RegBitI(o, d, b))) == RegBitI(o, d, b)
  {
    var op := Encode(RegBitI(o, d, b));
    HitRegBit(o, d, b);
    RegBitRows(op);
    MissPlain(RegBitI(o, d, b));
    TwoRegRows(op);
    OneRegRows(op);
    ImmRows(op);
  }

  lemma DecodeEncodeBranch(o: BranchOp, b: BitNum, k: Imm7)
    ensures Decode(Encode(Branch(o, b, k))) == Branch(o, b, k)
  {
    var op := Encode(Branch(o, b, k));
    HitBranch(o, b, k);
    BranchRows(op);
    MissPlain(Branch(o, b, k));
    TwoRegRows(op);
    OneRegRows(op);
    ImmRows(op);
    RegBitRows(op);
  }

  lemma DecodeEncodeDisp(o: DispOp, d: Reg, q: Imm6)
    ensures Decode(Encode(Disp(o, d, q))) == Disp(o, d, q)
  {
    var op := Encode(Disp(o, d, q));
    HitDisp(o, d, q);
    DispRows(op);
    MissPlain(Disp(o, d, q));
    TwoRegRows(op);
    OneRegRows(op);
    ImmRows(op);
    RegBitRows(op);
    BranchRows(op);
  }

  lemma DecodeEncodeFar(o: FarOp, kh: Imm6)
    ensures Decode(Encode(Far(o, kh))) == Far(o, kh)
  {
    var op := Encode(Far(o, kh));
    HitFar(o, kh);
    FarRows(op);
    MissPlain(Far(o, kh));
    TwoRegRows(op);
    OneRegRows(op);
    ImmRows(op);
    RegBitRows(op);
    BranchRows(op);
    DispRows(op);
    FarMissesOneReg(o, kh);
  }

  lemma DecodeEncodeSreg(o: SregOp, s: BitNum)
    ensures Decode(Encode(Sreg(o, s))) == Sreg(o, s)
  {
    var op := Encode(Sreg(o, s));
    HitSreg(o, s);
    SregRows(op);
    MissPlain(Sreg(o, s));
    TwoRegRows(op);
    OneRegRows(op);
    ImmRows(op);
    RegBitRows(op);
    BranchRows(op);
    DispRows(op);
    FarRows(op);
    SregMissesOneReg(o, s);
    SregMissesFar(o, s);
  }

  lemma DecodeEncodeWord(o: WordOp, d: PairReg, k: Imm6)
    ensures Decode(Encode(Word(o, d, k))) == Word(o, d, k)
  {
    var op := Encode(Word(o, d, k));
    HitWord(o, d, k);
    WordRows(op);
    MissPlain(Word(o, d, k));
    TwoRegRows(op);
    OneRegRows(op);
    ImmRows(op);
    RegBitRows(op);
    BranchRows(op);
    DispRows(op);
    FarRows(op);
    SregRows(op);
  }

  lemma DecodeEncodeIoBit(o: IoBitOp, a: Imm5, b: BitNum)
    ensures Decode(Encode(IoBit(o, a, b))) == IoBit(o, a, b)
  {
    var op := Encode(IoBit(o, a, b));
    HitIoBit(o, a, b);
    IoBitRows(op);
    MissPlain(IoBit(o, a, b));
    TwoRegRows(op);
    OneRegRows(op);
    ImmRows(op);
    RegBitRows(op);
    BranchRows(op);
    DispRows(op);
    FarRows(op);
    SregRows(op);
    WordRows(op);
  }

  lemma DecodeEncodeIo(o: IoOp, d: Reg, a: Imm6)
    ensures Decode(Encode(Io(o, d, a))) == Io(o, d, a)
  {
    var op := Encode(Io(o, d, a));
    HitIo(o, d, a);
    IoRows(op);
    MissPlain(Io(o, d, a));
    TwoRegRows(op);
    OneRegRows(op);
    ImmRows(op);
    RegBitRows(op);
    BranchRows(op);
    DispRows(op);
    FarRows(op);
    SregRows(op);
    WordRows(op);
    IoBitRows(op);
  }

  lemma DecodeEncodeRel(o: RelOp, k: Imm12)
    ensures Decode(Encode(Rel(o, k))) == Rel(o, k)
  {
    var op := Encode(Rel(o, k));
    HitRel(o, k);
    RelRows(op);
    MissPlain(Rel(o, k));
    TwoRegRows(op);
    OneRegRows(op);
    ImmRows(op);
    RegBitRows(op);
    BranchRows(op);
    DispRows(op);
    FarRows(op);
    SregRows(op);
    WordRows(op);
    IoBitRows(op);
    IoRows(op);
  }

  lemma DecodeEncodeHighPair(o: HighPairOp, d: HighReg, r: HighReg)
    ensures Decode(Encode(HighPair(o, d, r))) == HighPair(o, d, r)
  {
    var op := Encode(HighPair(o, d, r));
    HitHighPair(o, d, r);
    HighPairRows(op);
    MissPlain(HighPair(o, d, r));
    TwoRegRows(op);
    OneRegRows(op);
    ImmRows(op);
    RegBitRows(op);
    BranchRows(op);
    DispRows(op);
    FarRows(op);
    SregRows(op);
    WordRows(op);
    IoBitRows(op);
    IoRows(op);
    RelRows(op);
  }

  lemma DecodeEncodeMidPair(o: MidPairOp, d: MidReg, r: MidReg)
    ensures Decode(Encode(MidPair(o, d, r))) == MidPair(o, d, r)
  {
    var op := Encode(MidPair(o, d, r));
    HitMidPair(o, d, r);
    MidPairRows(op);
    MissPlain(MidPair(o, d, r));
    TwoRegRows(op);
    OneRegRows(op);
    ImmRows(op);
    RegBitRows(op);
    BranchRows(op);
    DispRows(op);
    FarRows(op);
    SregRows(op);
    WordRows(op);
    IoBitRows(op);
    IoRows(op);
    RelRows(op);
    HighPairRows(op);
  }

  /** Decoding inverts encoding: every instruction other than `Illegal`
      comes back unchanged from the decoder. */
  lemma DecodeEncode(i: Instr)
    requires !i.Illegal?
    ensures Decode(Encode(i)) == i
  {
    match i
    case Plain(o) => DecodeEncodePlain(o);
    case TwoReg(o, d, r) => DecodeEncodeTwoReg(o, d, r);
    case OneReg(o, d) => DecodeEncodeOneReg(o, d);
    case Imm(o, d, k) => DecodeEncodeImm(o, d, k);
    case RegBitI(o, d, b) => DecodeEncodeRegBit(o, d, b);
    case Branch(o, b, k) => DecodeEncodeBranch(o, b, k);
    case Disp(o, d, q) => DecodeEncodeDisp(o, d, q);
    case Far(o, kh) => DecodeEncodeFar(o, kh);
    case Sreg(o, s) => DecodeEncodeSreg(o, s);
    case Word(o, d, k) => DecodeEncodeWord(o, d, k);
    case IoBit(o, a, b) => DecodeEncodeIoBit(o, a, b);
    case Io(o, d, a) => DecodeEncodeIo(o, d, a);
    case Rel(o, k) => DecodeEncodeRel(o, k);
    case HighPair(o, d, r) => DecodeEncodeHighPair(o, d, r);
    case MidPair(o, d, r) => DecodeEncodeMidPair(o, d, r);
  }

  /** Encoding inverts decoding: the instruction decoded from an opcode
      encodes back to that opcode, operand bits included. */
  lemma EncodeDecode(op: bv16)
    ensures Encode(Decode(op)) == op
  {
    DecodedByCategory(op);
    match Decode(op)
    case Plain(_) => PlainInverse(op);
    case TwoReg(_, _, _) => TwoRegInverse(op);
    case OneReg(_, _) => OneRegInverse(op);
    case Imm(_, _, _) => ImmInverse(op);
    case RegBitI(_, _, _) => RegBitInverse(op);
    case Branch(_, _, _) => BranchInverse(op);
    case Disp(_, _, _) => DispInverse(op);
    case Far(_, _) => FarInverse(op);
    case Sreg(_, _) => SregInverse(op);
    case Word(_, _, _) => WordInverse(op);
    case IoBit(_, _, _) => IoBitInverse(op);
    case Io(_, _, _) => IoInverse(op);
    case Rel(_, _) => RelInverse(op);
    case HighPair(_, _, _) => HighPairInverse(op);
    case MidPair(_, _, _) => MidPairInverse(op);
    case Illegal(_) =>
  }

  /** An opcode decodes to `Illegal` exactly when it is the encoding of no
      instruction, and the illegal instruction keeps the opcode. */
  lemma IllegalIffNoEncoding(op: bv16)
    ensures Decode(op).Illegal? <==> forall i: Instr :: !i.Illegal? ==> Encode(i) != op
    ensures Decode(op).Illegal? ==> Decode(op) == Illegal(op)
  {
    EncodeDecode(op);
    if Decode(op).Illegal? {
      forall i: Instr | !i.Illegal?
        ensures Encode(i) != op
      {
        DecodeEncode(i);
      }
    }
  }

  /** No template shadows another: distinct instructions have distinct
      encodings, so the order in which the decoder tries the categories
      never changes the result. */
  lemma EncodeInjective(i: Instr, j: Instr)
    requires !i.Illegal? && !j.Illegal?
    requires Encode(i) == Encode(j)
    ensures i == j
  {
    DecodeEncode(i);
    DecodeEncode(j);
  }

  /** The operand-free opcodes are decoded by exact value: 0x0000 is NOP
      and 0x9508 is RET. */
  lemma ExactOpcodes(p: PlainOp)
    ensures Decode(PlainCode(p)) == Plain(p)
    ensures Decode(0x0000) == Plain(NOP) && Decode(0x9508) == Plain(RET)
  {
    DecodeEncodePlain(p);
    assert DecodePlain(0x0000) == Some(Plain(NOP));
    assert DecodePlain(0x9508) == Some(Plain(RET));
  }

  /** The two-word instructions are CALL, JMP, LDS and STS: an opcode
      decodes to one of them exactly when its template is 0x940E or 0x940C
      under the 22-bit address mask, or 0x9000 or 0x9200 under the Rd
      mask. */
  lemma TwoWordOpcodes(op: bv16)
    ensures IsTwoWord(Decode(op)) <==> TwoWordTemplate(op)
  {
    if TwoWordTemplate(op) {
      TwoWordFromTemplate(op);
    }
    EncodeDecode(op);
    TwoWordHasTemplate(Decode(op));
  }

  predicate TwoWordTemplate(op: bv16)
  {
    op & !FarMask == 0x940E || op & !FarMask == 0x940C ||
    op & !OneRegMask == 0x9000 || op & !OneRegMask == 0x9200
  }

  lemma TwoWordFromTemplate(op: bv16)
    requires TwoWordTemplate(op)
    ensures IsTwoWord(Decode(op))
  {
    var t := op & !FarMask;
    if t == 0x940E || t == 0x940C {
      var o := if t == 0x940E then CALL else JMP;
      FarFromTemplate(op, o);
      DecodeEncodeFar(o, k22(op));
    } else {
      var o := if op & !OneRegMask == 0x9000 then LDS else STS;
      OneRegFromTemplate(op, o);
      DecodeEncodeOneReg(o, Rd5(op));
    }
  }

  lemma TwoWordHasTemplate(i: Instr)
    ensures IsTwoWord(i) ==> TwoWordTemplate(Encode(i))
  {
    if i.Far? {
      FarTemplate(i.far, i.kh);
    } else if i.OneReg? && (i.oneReg == LDS || i.oneReg == STS) {
      OneRegTemplate(i.oneReg, i.d);
    }
  }

  lemma FarTemplate(o: FarOp, kh: Imm6)
    ensures TwoWordTemplate(Encode(Far(o, kh)))
  {
    assert Encode(Far(o, kh)) & !FarMask == FarBase(o);
  }

  lemma OneRegTemplate(o: OneRegOp, d: Reg)
    requires o == LDS || o == STS
    ensures TwoWordTemplate(Encode(OneReg(o, d)))
  {
    assert Encode(OneReg(o, d)) & !OneRegMask == OneRegBase(o);
  }

  lemma FarFromTemplate(op: bv16, o: FarOp)
    requires op & !FarMask == FarBase(o)
    ensures Encode(Far(o, k22(op))) == op
  {}

  lemma OneRegFromTemplate(op: bv16, o: OneRegOp)
    requires op & !OneRegMask == OneRegBase(o)
    ensures Encode(OneReg(o, Rd5(op))) == op
  {}
}
