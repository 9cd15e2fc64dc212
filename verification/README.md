# AVR instruction decoder and instruction semantics of simulavr

This project is a Dafny model of the core of simulavr's AVR simulator,
`src/decoder.cpp`. The model covers four parts:

- **Operand extractors** (`get_rd_2` … `get_A_6`) and `n_bit_unsigned_to_signed`.
  They read one operand field out of a 16-bit opcode word.
- **`lookup_opcode`**. This is a first-match dispatch. The operand-free opcodes are matched
  exactly. Then fourteen operand-shape categories are tried in a fixed order. Each clears
  its operand bits and compares the rest against its templates. An opcode that matches
  nothing becomes the illegal instruction.
- **The instruction bodies** (`avr_op_*::operator()`). Each changes the working registers,
  the status register, the program counter, data memory, the I/O registers or the hardware
  stack, and returns a clock count. The flag helpers `get_add_carry`, `get_sub_carry`,
  `get_*_overflow` and `get_compare_*` compute the carries and overflows the bodies store.
- **The stack helpers** `avr_core_stack_push` and `avr_core_stack_pop`. They move a
  multi-byte value to and from the byte-wide stack, low byte first.

## Modules

| file | module | contents |
|---|---|---|
| `operands.dfy` | `Operands` | operand masks, the extractors and their inverse placements, `n_bit_unsigned_to_signed` |
| `flags.dfy` | `Flags` | the status register, its byte view, the flag helpers and their arithmetic meaning |
| `bits.dfy` | `Bits` | `&`, `\|`, `^` on integers bit by bit, single-bit test and update |
| `instructions.dfy` | `Instructions` | the `Instr` datatype and the instruction set's encoding `Encode` |
| `decoder.dfy` | `Decoder` | `lookup_opcode` as `Decode`, and decode/encode inverse lemmas |
| `alu.dfy` | `Alu` | byte and word arithmetic with flags: add, subtract, logic, shifts, INC/DEC/NEG/COM/SWAP, ADIW/SBIW, the multiplies |
| `stack.dfy` | `Stack` | the push and pop helpers and their round trip |
| `machine.dfy` | `Machine` | the device (flash, decoded program, return-address size) and the state the bodies change |
| `execute.dfy` | `Execute` | one function per operand shape holding the instruction bodies, and `Exec` |
| `effects.dfy` | `Effects` | single instructions stated against independent descriptions |
| `sequences.dfy` | `Sequences` | short instruction sequences: PUSH/POP, store/load, 16-bit compare, add and subtract chains |
| `properties.dfy` | `Properties` | calls and returns, jumps, and decoding together with execution |

Machine bytes are integers in 0..255 (`Flags.Byte`), the way C promotes `unsigned char`
operands to `int`. `&`, `|` and `^` on them go through `Bits.Bitwise`, a definition bit by
bit. The register, I/O, status, pointer and memory widths of the source are written out:

- the 16-bit `word` pointers wrap modulo 2^16;
- the 32-bit `dword` accumulator of the pop helper wraps modulo 2^32;
- `unsigned int` subtractions wrap modulo 2^32.

The simulator's main loop adds one to the PC after every body. So a body that jumps to `a`
leaves `a - 1` in the PC, and the model keeps that convention.

## Behaviour modelled as the code does it

Where the code and the instruction set manual disagree, the model follows the code.

- **JMP** sets the PC to `K + k16 - 1`, where `K` is the six address bits in the opcode and
  `k16` is the second word. CALL uses `(K << 16) + k16`. JMP therefore reaches the same
  target only when `K` is zero (`Properties.JumpAndCallTargets`).
- **The second word of CALL, JMP, LDS and STS** is read through a `word *` on a
  little-endian host and then byte-swapped. So the operand is the flash byte at `2pc + 2`
  followed by the one at `2pc + 3` (`Machine.SecondWordBigEndian`).
- **EICALL** always pushes three bytes, whatever the device's return-address size. It jumps
  to `EIND:Z` with all eight EIND bits and without the usual `- 1`. EIJMP keeps six EIND
  bits and has no `- 1` either.
- **`ST -Y, Rd`** keeps Y in an `unsigned int`. With Y = 0 the byte goes to address
  0xFFFFFFFF (`Effects.StoreBelowZero`). `ST -X` and `ST -Z` decrement in 16 bits.
- **The pre-decrement stores** write the pointer pair before reading `Rd`.
- **LPM and ELPM** read flash byte `Z ^ 1`, because the flash image is kept byte-swapped
  within each word.
- **`get_compare_carry` and `get_compare_overflow`** have the same bodies as the subtract
  helpers, so one definition serves both.
- **The AVR instruction set manual** gives JMP the 22-bit absolute address
  `(K << 16) + k16`. The code computes `K + k16` instead, as described above.

## Model

| member | source | states |
|---|---|---|
| Operands.Rd2 | src/decoder.cpp:2438-2442 | the pair register is one of R24, R26, R28, R30, and placing it back reproduces the opcode's `mask_Rd_2` bits |
| Operands.Rd3 | src/decoder.cpp:2444-2448 | the register is in R16..R23, and placing it back reproduces the `mask_Rd_3` bits |
| Operands.Rd4 | src/decoder.cpp:2450-2454 | the register is in R16..R31, and placing it back reproduces the `mask_Rd_4` bits |
| Operands.Rd5 | src/decoder.cpp:2456-2460 | the register is in R0..R31, and placing it back reproduces the `mask_Rd_5` bits |
| Operands.Rr3 | src/decoder.cpp:2462-2465 | the register is in R16..R23, and placing it back reproduces the `mask_Rr_3` bits |
| Operands.Rr4 | src/decoder.cpp:2467-2470 | the register is in R16..R31, and placing it back reproduces the `mask_Rr_4` bits |
| Operands.Rr5 | src/decoder.cpp:2472-2476 | the register is in R0..R31, and placing it back reproduces the split `mask_Rr_5` bits |
| Operands.K8 | src/decoder.cpp:2478-2482 | placing the constant back reproduces the split `mask_K_8` bits |
| Operands.K6 | src/decoder.cpp:2484-2488 | the constant is at most 63, and placing it back reproduces the `mask_K_6` bits |
| Operands.k7 | src/decoder.cpp:2490-2493 | the branch field is at most 127, and placing it back reproduces the `mask_k_7` bits |
| Operands.k12 | src/decoder.cpp:2495-2498 | the jump field is at most 4095, and placing it back reproduces the `mask_k_12` bits |
| Operands.k22 | src/decoder.cpp:2500-2506 | the six in-opcode address bits are at most 63, and placing them back reproduces the `mask_k_22` bits |
| Operands.RegBit | src/decoder.cpp:2508-2511 | the bit number is at most 7, and placing it back reproduces the `mask_reg_bit` bits |
| Operands.SregBit | src/decoder.cpp:2513-2516 | the status bit number is at most 7, and placing it back reproduces the `mask_sreg_bit` bits |
| Operands.Q | src/decoder.cpp:2518-2524 | the scattered displacement is at most 63, and placing it back reproduces the `mask_q_displ` bits |
| Operands.A5 | src/decoder.cpp:2526-2529 | the I/O address is at most 31, and placing it back reproduces the `mask_A_5` bits |
| Operands.A6 | src/decoder.cpp:2531-2535 | the I/O address is at most 63, and placing it back reproduces the split `mask_A_6` bits |
| Operands.Rd2OfPlace | src/decoder.cpp:2438-2442 | a pair register placed in the Rd field is read back unchanged |
| Operands.Rd3OfPlace | src/decoder.cpp:2444-2448 | a register placed in the 3-bit Rd field is read back unchanged |
| Operands.Rd4OfPlace | src/decoder.cpp:2450-2454 | a register placed in the 4-bit Rd field is read back unchanged |
| Operands.Rr3OfPlace | src/decoder.cpp:2462-2465 | a register placed in the 3-bit Rr field is read back unchanged |
| Operands.Rr4OfPlace | src/decoder.cpp:2467-2470 | a register placed in the 4-bit Rr field is read back unchanged |
| Operands.Rr5OfPlace | src/decoder.cpp:2472-2476 | a register placed in the split 5-bit Rr field is read back unchanged |
| Operands.K8OfPlace | src/decoder.cpp:2478-2482 | a constant placed in its two nibbles is read back unchanged |
| Operands.K6OfPlace | src/decoder.cpp:2484-2488 | a constant placed in its two pieces is read back unchanged |
| Operands.k7OfPlace | src/decoder.cpp:2490-2493 | a branch field placed in its bits is read back unchanged |
| Operands.k12OfPlace | src/decoder.cpp:2495-2498 | a jump field placed in its bits is read back unchanged |
| Operands.k22OfPlace | src/decoder.cpp:2500-2506 | six address bits placed in their two pieces are read back unchanged |
| Operands.RegBitOfPlace | src/decoder.cpp:2508-2511 | a bit number placed in its field is read back unchanged |
| Operands.SregBitOfPlace | src/decoder.cpp:2513-2516 | a status bit number placed in its field is read back unchanged |
| Operands.A5OfPlace | src/decoder.cpp:2526-2529 | a 5-bit I/O address placed in its field is read back unchanged |
| Operands.Rd5OfPlace | src/decoder.cpp:2456-2460 | a register placed in the Rd field is read back unchanged, whatever the other opcode bits hold |
| Operands.QOfPlace | src/decoder.cpp:2518-2524 | a displacement placed in its three scattered pieces is read back unchanged |
| Operands.A6OfPlace | src/decoder.cpp:2531-2535 | an I/O address placed in its two pieces is read back unchanged |
| Operands.SevenBitFacts | src/decoder.cpp:2424-2435 | for a 7-bit value the result is in [-64, 63], congruent to the value modulo 128, and the value itself when bit 6 is clear |
| Operands.TwelveBitFacts | src/decoder.cpp:2424-2435 | for a 12-bit value the result is in [-2048, 2047], congruent to the value modulo 4096, and the value itself when bit 11 is clear |
| Operands.SevenBitNegative | src/decoder.cpp:2424-2435 | with bit 6 set, the complement-plus-one formula gives the value minus 128 |
| Operands.TwelveBitNegative | src/decoder.cpp:2424-2435 | with bit 11 set, the complement-plus-one formula gives the value minus 4096 |
| Operands.NBitUnsignedToSigned | src/decoder.cpp:2424-2435 | for every width from 1 to 31, the result is negative exactly when bit `n - 1` of the field is set |
| Operands.ComplementPlusOne | src/decoder.cpp:2424-2435 | in the negative branch, the complement within the `n`-bit mask plus one does not wrap to zero |
| Operands.BranchOffset | src/decoder.cpp:290-296 | the BRBC/BRBS offset is in [-64, 63] and congruent to the field modulo 128 |
| Operands.JumpOffset | src/decoder.cpp:1631-1635 | the RJMP/RCALL offset is in [-2048, 2047] and congruent to the field modulo 4096 |
| Decoder.Decode | src/decoder.cpp:2540-2717 | an opcode no template matches becomes the illegal instruction carrying that opcode, and an exact operand-free opcode wins over every category |
| Decoder.DecodedByCategory | src/decoder.cpp:2540-2717 | whichever category an opcode decodes in, the instruction is exactly what that category's template extracts from the opcode |
| Decoder.DecodePlain | src/decoder.cpp:2544-2558 | an exact operand-free opcode yields only an operand-free instruction |
| Decoder.DecodeTwoReg | src/decoder.cpp:2561-2577 | the two-register templates yield only two-register instructions |
| Decoder.DecodeOneReg | src/decoder.cpp:2578-2612 | the one-register templates yield only one-register instructions |
| Decoder.DecodeImm | src/decoder.cpp:2613-2623 | the register-and-constant templates yield only register-and-constant instructions |
| Decoder.DecodeRegBit | src/decoder.cpp:2624-2632 | the register-and-bit templates yield only register-and-bit instructions |
| Decoder.DecodeBranch | src/decoder.cpp:2633-2639 | the branch templates yield only BRBC and BRBS |
| Decoder.DecodeDisp | src/decoder.cpp:2640-2648 | the displacement templates yield only LDD and STD |
| Decoder.DecodeFar | src/decoder.cpp:2649-2655 | the 22-bit address templates yield only CALL and JMP |
| Decoder.DecodeSreg | src/decoder.cpp:2656-2664 | the status-bit templates yield only BCLR and BSET |
| Decoder.DecodeWord | src/decoder.cpp:2665-2671 | the pair-and-constant templates yield only ADIW and SBIW |
| Decoder.DecodeIoBit | src/decoder.cpp:2672-2680 | the I/O-bit templates yield only CBI, SBI, SBIC and SBIS |
| Decoder.DecodeIo | src/decoder.cpp:2681-2687 | the I/O templates yield only IN and OUT |
| Decoder.DecodeRel | src/decoder.cpp:2688-2694 | the 12-bit templates yield only RJMP and RCALL |
| Decoder.DecodeHighPair | src/decoder.cpp:2695-2701 | the high-register-pair templates yield only MOVW and MULS |
| Decoder.DecodeMidPair | src/decoder.cpp:2702-2711 | the R16..R23 templates yield only MULSU and the fractional multiplies |
| Decoder.DecodeEncode | src/decoder.cpp:2540-2717 | every instruction's encoding decodes back to that instruction, so no earlier template shadows a later one |
| Decoder.EncodeDecode | src/decoder.cpp:2540-2717 | the instruction decoded from an opcode encodes back to exactly that opcode, operand bits included |
| Decoder.IllegalIffNoEncoding | src/decoder.cpp:2712-2716 | an opcode decodes to the illegal instruction exactly when no instruction encodes to it, and the illegal instruction keeps the opcode |
| Decoder.EncodeInjective | src/decoder.cpp:2559-2711 | distinct instructions have distinct opcodes, so the order of the categories never changes a result |
| Decoder.ExactOpcodes | src/decoder.cpp:2544-2558 | every operand-free opcode decodes to its instruction; 0x0000 is NOP and 0x9508 is RET |
| Decoder.TwoWordOpcodes | src/decoder.cpp:2587-2655 | an opcode decodes to CALL, JMP, LDS or STS exactly when its template is 0x940E, 0x940C, 0x9000 or 0x9200 |
| Decoder.DecodeEncodeTwoReg | src/decoder.cpp:2561-2577 | an opcode of the two-register category decodes back to its instruction and both registers |
| Decoder.DecodeEncodeOneReg | src/decoder.cpp:2578-2612 | the same for the one-register category |
| Decoder.DecodeEncodeImm | src/decoder.cpp:2613-2623 | the same for register and 8-bit constant |
| Decoder.DecodeEncodeRegBit | src/decoder.cpp:2624-2632 | the same for register and bit number |
| Decoder.DecodeEncodeBranch | src/decoder.cpp:2633-2639 | the same for the 7-bit branches |
| Decoder.DecodeEncodeDisp | src/decoder.cpp:2640-2648 | the same for the displacement loads and stores |
| Decoder.DecodeEncodeFar | src/decoder.cpp:2649-2655 | the same for CALL and JMP |
| Decoder.DecodeEncodeSreg | src/decoder.cpp:2656-2664 | the same for BCLR and BSET |
| Decoder.DecodeEncodeWord | src/decoder.cpp:2665-2671 | the same for ADIW and SBIW |
| Decoder.DecodeEncodeIoBit | src/decoder.cpp:2672-2680 | the same for CBI, SBI, SBIC and SBIS |
| Decoder.DecodeEncodeIo | src/decoder.cpp:2681-2687 | the same for IN and OUT |
| Decoder.DecodeEncodeRel | src/decoder.cpp:2688-2694 | the same for RJMP and RCALL |
| Decoder.DecodeEncodeHighPair | src/decoder.cpp:2695-2701 | the same for MOVW and MULS |
| Decoder.DecodeEncodeMidPair | src/decoder.cpp:2702-2711 | the same for MULSU and the fractional multiplies |
| Flags.AddCarryFlag | src/decoder.cpp:2375-2381 | the add-carry formula on bit 7 is true exactly when the unsigned sum with carry reaches 256 |
| Flags.AddHalfCarryFlag | src/decoder.cpp:2375-2381 | the add-carry formula on bit 3 is true exactly when the low nibbles with carry reach 16 |
| Flags.AddOverflowFlag | src/decoder.cpp:2383-2389 | the add-overflow formula is true exactly when the signed sum leaves [-128, 127] |
| Flags.SubBorrowFlag | src/decoder.cpp:2391-2397 | the sub-carry formula on bit 7 is true exactly when `rd < rr + C` |
| Flags.SubHalfBorrowFlag | src/decoder.cpp:2391-2397 | the sub-carry formula on bit 3 is true exactly when the low nibble of `rd` is below that of `rr` plus C |
| Flags.SubOverflowFlag | src/decoder.cpp:2399-2405 | the sub-overflow formula is true exactly when the signed difference leaves [-128, 127] |
| Flags.ClearFlag | src/decoder.cpp:256-261 | clearing bit `b` of the status byte clears exactly flag `b` |
| Flags.SetFlag | src/decoder.cpp:350-355 | setting bit `b` of the status byte sets exactly flag `b` |
| Alu.AddBytes | src/decoder.cpp:110-149 | ADD/ADC keep T and I; S is N xor V and Z tells whether the byte result is zero |
| Alu.SubBytes | src/decoder.cpp:2266-2283 | SUB/SBC arithmetic keeps T and I; S is N xor V and Z tells whether the byte result is zero |
| Alu.SubWithCarry | src/decoder.cpp:1684-1705 | SBC keeps the difference of the plain subtraction with carry, and Z can only stay set, never become set |
| Alu.CompareWithCarry | src/decoder.cpp:471-491 | CPC computes the difference of the subtraction with carry, and Z can only stay set, never become set |
| Alu.LogicFlags | src/decoder.cpp:185-199 | after AND/OR/EOR, V is clear, S equals N, Z is the zero test, and C, H, T and I are kept |
| Alu.Asr | src/decoder.cpp:231-246 | ASR keeps H, T and I; S is N xor V and Z the zero test |
| Alu.Lsr | src/decoder.cpp:1303-1321 | LSR keeps H, T and I; S is N xor V and Z the zero test |
| Alu.Ror | src/decoder.cpp:1655-1673 | ROR keeps H, T and I; S is N xor V and Z the zero test |
| Alu.Com | src/decoder.cpp:419-435 | COM keeps H, T and I; S is N xor V and Z the zero test |
| Alu.Neg | src/decoder.cpp:1455-1471 | NEG keeps T and I; S is N xor V and Z the zero test |
| Alu.Inc | src/decoder.cpp:901-916 | INC keeps C, H, T and I; S is N xor V and Z the zero test |
| Alu.Dec | src/decoder.cpp:562-575 | DEC keeps C, H, T and I; S is N xor V and Z the zero test |
| Alu.AddWord | src/decoder.cpp:159-176 | ADIW keeps H, T and I; S is N xor V and Z tells whether the 16-bit result is zero |
| Alu.AddWordFlags | src/decoder.cpp:159-176 | N is bit 15 of the result, S is N xor V, Z the zero test, and H, T, I are kept |
| Alu.SubWord | src/decoder.cpp:1827-1848 | SBIW keeps H, T and I; S is N xor V and Z tells whether the 16-bit result is zero |
| Alu.SubWordFlags | src/decoder.cpp:1827-1848 | N is bit 15 of the result, S is N xor V, Z the zero test, and H, T, I are kept |
| Alu.Product | src/decoder.cpp:1369-1386 | R1:R0 receive the product word; only Z (word is zero) and C (bit 15) change |
| Alu.FractionalProduct | src/decoder.cpp:756-775 | R1:R0 receive the product word shifted left modulo 2^16; only Z and C (bit 15 before the shift) change |
| Alu.Mul | src/decoder.cpp:1369-1386 | MUL changes only Z and C, and Z tells whether R1:R0 is zero |
| Alu.Muls | src/decoder.cpp:1399-1415 | MULS changes only Z and C, and Z tells whether R1:R0 is zero |
| Alu.Mulsu | src/decoder.cpp:1427-1445 | MULSU changes only Z and C, and Z tells whether R1:R0 is zero |
| Alu.Fmul | src/decoder.cpp:756-775 | FMUL changes only Z and C, and Z tells whether R1:R0 is zero |
| Alu.Fmuls | src/decoder.cpp:788-806 | FMULS changes only Z and C, and Z tells whether R1:R0 is zero |
| Alu.Fmulsu | src/decoder.cpp:820-836 | FMULSU changes only Z and C, and Z tells whether R1:R0 is zero |
| Alu.AddBytesMeaning | src/decoder.cpp:110-149 | ADD/ADC: the result is the sum with carry modulo 256; C, H, V, N, S and Z have their arithmetic meanings |
| Alu.AddSubInverse | src/decoder.cpp:134-149 | subtracting what ADD/ADC added gives the operand back, and the borrow equals the carry |
| Alu.SubBytesMeaning | src/decoder.cpp:2266-2283 | SUB/SBC arithmetic: the result is the difference with borrow modulo 256; C is `rd < rr + Cin`, and H, V, N, S, Z have their meanings |
| Alu.SubZero | src/decoder.cpp:2266-2283 | the byte difference is zero exactly when `rd` equals `rr + Cin` modulo 256 |
| Alu.ChainedZero | src/decoder.cpp:471-491 | CPC and SBC/SBCI compute the same flags; Z holds exactly when Z held before and `rd == rr + C` modulo 256 |
| Alu.LogicFlagsMeaning | src/decoder.cpp:185-199 | after AND/OR/EOR, V is clear, N and S give the sign and Z the zero test, and C and H are kept |
| Alu.AsrMeaning | src/decoder.cpp:231-246 | ASR halves the signed value rounding down; C is the bit shifted out and S equals C |
| Alu.LsrMeaning | src/decoder.cpp:1303-1321 | LSR halves the unsigned value; N is clear and V, S equal C |
| Alu.RorMeaning | src/decoder.cpp:1655-1673 | ROR rotates C:rd right, so `rd` and the old carry are recoverable from the result and the new C |
| Alu.ComMeaning | src/decoder.cpp:419-435 | COM flips every bit (twice gives `rd` back), sets C and clears V |
| Alu.NegIsSubtraction | src/decoder.cpp:1455-1471 | NEG sets the result and every flag as the subtraction `0 - rd` does |
| Alu.NegTwice | src/decoder.cpp:1455-1471 | negating twice gives `rd` back |
| Alu.IncIsAddOne | src/decoder.cpp:901-916 | INC is ADD of 1 with C and H kept |
| Alu.DecIsSubOne | src/decoder.cpp:562-575 | DEC is SUB of 1 with C and H kept |
| Alu.IncDecInverse | src/decoder.cpp:562-575 | DEC undoes INC and INC undoes DEC |
| Alu.SwapMeaning | src/decoder.cpp:2321-2331 | SWAP exchanges the nibbles, so applying it twice gives `rd` back |
| Alu.AddWordMeaning | src/decoder.cpp:159-176 | ADIW adds modulo 2^16; C is the unsigned carry, V the signed overflow and S the sign of the exact signed sum |
| Alu.SubWordMeaning | src/decoder.cpp:1827-1848 | SBIW subtracts modulo 2^16; C is the unsigned borrow, V the signed overflow and S the sign of the exact signed difference |
| Alu.SubWordUndoesAddWord | src/decoder.cpp:1827-1848 | SBIW with the same constant gives back both bytes ADIW changed |
| Alu.CarryIsBorrow | src/decoder.cpp:159-176 | SBIW after ADIW borrows exactly when ADIW carried |
| Alu.MulMeaning | src/decoder.cpp:1369-1386 | MUL leaves the exact unsigned product in R1:R0; C is its bit 15 and Z tells whether a factor is zero |
| Alu.MulsMeaning | src/decoder.cpp:1399-1415 | MULS leaves the signed product in two's complement; C is its sign |
| Alu.MulsuMeaning | src/decoder.cpp:1427-1445 | MULSU leaves the signed-by-unsigned product in two's complement; C is its sign |
| Alu.FmulMeaning | src/decoder.cpp:756-775 | FMUL leaves twice the product modulo 2^16; C is bit 15 of the product |
| Alu.FmulsMeaning | src/decoder.cpp:788-806 | FMULS leaves twice the signed product modulo 2^16; C is its sign |
| Alu.FmulsuMeaning | src/decoder.cpp:820-836 | FMULSU leaves twice the signed-by-unsigned product modulo 2^16; C is its sign |
| Stack.Push | src/decoder.cpp:2358-2363 | pushing `cnt` bytes of `val` keeps the stack below and appends byte `i` of `val` at position `i`, least significant first |
| Stack.PopInto | src/decoder.cpp:2365-2372 | the pop loop leaves a value below 2^32 (the accumulator when nothing is popped) and removes the top `cnt` bytes, or all of a shorter stack |
| Stack.PopValue | src/decoder.cpp:2365-2372 | the popped value is below 2^32, and the stack loses its top `cnt` bytes, or all of them when it is shorter |
| Stack.PopIntoValue | src/decoder.cpp:2365-2372 | the accumulator loop computes `acc * 256^cnt` plus the top `cnt` bytes read as a number, modulo 2^32 |
| Stack.PopValueMeaning | src/decoder.cpp:2365-2372 | the popped value is the top `cnt` bytes read as a number, the most recently pushed byte least significant, modulo 2^32 |
| Stack.PopAfterPush | src/decoder.cpp:2358-2372 | popping `cnt <= 4` bytes right after pushing them returns the value modulo 256^cnt and restores the stack |
| Machine.SetPair | src/decoder.cpp:1077-1098 | writing a pointer pair sets the low and high byte and nothing else |
| Machine.PairOfSetPair | src/decoder.cpp:1077-1098 | a word written to a pair reads back unchanged |
| Machine.Store | src/decoder.cpp:2057-2076 | a stored byte reads back, and every other address keeps its byte |
| Machine.SecondWordBigEndian | src/decoder.cpp:381-396 | the byte-swapped second word is the flash byte at `2pc + 2` followed by the one at `2pc + 3` |
| Machine.PcMask | src/decoder.cpp:1637-1644 | `(GetSize() - 1) >> 1` is the word address of the image's last word, and 0x7FFFFFFF for an empty image |
| Machine.MaskPc | src/decoder.cpp:1637-1644 | the masked PC is non-negative and at most both the mask and the PC read as unsigned |
| Machine.FlipLow | src/decoder.cpp:1228-1241 | `Z ^ 1` is the other byte of the same program word |
| Execute.ExecPlain | src/decoder.cpp:2544-2558 | no operand-free instruction halts; only WDR signals the watchdog, leaving the state unchanged in one clock; NOP, SLEEP, SPM and ESPM change nothing, the last three in zero clocks; only the calls and returns touch the stack, only LPM and ELPM a register, and only RETI the status register, setting I; IJMP and EIJMP change only the PC in two clocks, IJMP to Z minus one and EIJMP to EIND's low six bits above Z |
| Execute.ExtendedZ | src/decoder.cpp:624-640 | the extended address is RAMPZ's low six bits above the 16-bit Z |
| Execute.SkipIf | src/decoder.cpp:526-552 | a skip changes only the PC, moves it exactly when the condition holds, and takes the words moved plus one clock (1, 2 or 3) |
| Execute.Return | src/decoder.cpp:1602-1610 | RET changes only the stack and the PC, and the stack loses exactly its top `PC_size` bytes |
| Execute.ExecTwoReg | src/decoder.cpp:2561-2577 | a two-register instruction changes at most Rd (R1:R0 for MUL), the flags and, for CPSE, the PC; CP, CPC and CPSE change no register, CPSE and MOV no flag |
| Execute.ExecOneReg | src/decoder.cpp:2578-2612 | a one-register instruction never touches the I/O registers or EIND; only ELPM Z+ changes RAMPZ, only PUSH and POP the stack, only the stores data memory, only the shifts and single-operand arithmetic the flags; LDS and STS step over their second word |
| Execute.ExecImm | src/decoder.cpp:2613-2623 | a register-and-constant instruction changes at most Rd and the flags, in one clock; CPI no register, LDI no flag |
| Execute.ExecRegBit | src/decoder.cpp:2624-2632 | BLD changes only bit `b`'s register, BST only T, and the skips only the PC |
| Execute.ExecBranch | src/decoder.cpp:2633-2639 | a branch changes only the PC, moving by the signed offset in two clocks when taken and staying in one clock otherwise |
| Execute.ExecDisp | src/decoder.cpp:2640-2648 | LDD changes only Rd and STD only data memory, in two clocks |
| Execute.ExecFar | src/decoder.cpp:2649-2655 | CALL and JMP change only the stack and the PC; JMP leaves the stack and CALL pushes the address after its second word |
| Execute.ExecSreg | src/decoder.cpp:2656-2664 | BCLR and BSET change only the status register, in one clock |
| Execute.ExecWord | src/decoder.cpp:2665-2671 | ADIW and SBIW change only their register pair and the flags, in two clocks |
| Execute.ExecIoBit | src/decoder.cpp:2672-2680 | CBI and SBI change only I/O register `A` in two clocks; SBIC and SBIS only the PC |
| Execute.ExecIo | src/decoder.cpp:2681-2687 | IN changes only Rd and OUT only I/O register `A`, in one clock |
| Execute.ExecRel | src/decoder.cpp:2688-2694 | RJMP and RCALL change only the stack and a PC within the mask; RCALL pushes the address after itself |
| Execute.ExecHighPair | src/decoder.cpp:2695-2701 | MOVW and MULS change only registers and flags; MOVW no flag, MULS only R1:R0 |
| Execute.ExecMidPair | src/decoder.cpp:2702-2711 | MULSU and the fractional multiplies change only R1:R0 and the flags, in two clocks |
| Execute.Exec | src/decoder.cpp:2351-2356 | an instruction halts the simulation exactly when it is illegal |
| Effects.SkipIfMeaning | src/decoder.cpp:526-552 | a skip changes only the PC, by the length of the next instruction, and takes that length plus one clock; otherwise nothing changes and it takes one clock |
| Effects.CompareSkip | src/decoder.cpp:526-552 | CPSE skips exactly when the registers are equal |
| Effects.RegisterBitSkip | src/decoder.cpp:1858-1911 | SBRS skips when bit `b` is set and SBRC when it is clear |
| Effects.IoBitSkip | src/decoder.cpp:1761-1815 | SBIS skips when the I/O bit is set and SBIC when it is clear |
| Effects.BranchOnFlag | src/decoder.cpp:298-341 | BRBS branches when flag `b` is set and BRBC when it is clear, by the signed offset and in two clocks; otherwise nothing changes |
| Effects.ClearStatusBit | src/decoder.cpp:256-261 | BCLR clears flag `b` and changes nothing else |
| Effects.SetStatusBit | src/decoder.cpp:350-355 | BSET sets flag `b` and changes nothing else |
| Effects.BitStore | src/decoder.cpp:365-371 | BST copies bit `b` of the register into T and changes nothing else |
| Effects.BitLoad | src/decoder.cpp:272-288 | BLD puts T into bit `b` and keeps the register's other bits |
| Effects.BitLoadOnlyRegister | src/decoder.cpp:272-288 | BLD changes no other register and nothing else |
| Effects.IoBitWrite | src/decoder.cpp:405-410 | CBI clears and SBI sets bit `b` of the I/O register and keep its other bits |
| Effects.IoBitWriteOnlyRegister | src/decoder.cpp:1745-1751 | CBI and SBI change no other I/O register and nothing else |
| Effects.CompareIsSubtraction | src/decoder.cpp:445-461 | CP sets the flags SUB sets and changes no register |
| Effects.CompareWithCarryIsSubtraction | src/decoder.cpp:471-491 | CPC sets the flags SBC sets and changes no register |
| Effects.CompareImmediateIsSubtraction | src/decoder.cpp:502-516 | CPI sets the flags SUBI sets and changes no register |
| Effects.ClearRegister | src/decoder.cpp:710-727 | `EOR Rd, Rd` clears the register and sets Z, clearing N, V and S |
| Effects.TestRegister | src/decoder.cpp:185-199 | `AND Rd, Rd` and `OR Rd, Rd` keep the register and set Z, N, S from its value |
| Effects.CopyPair | src/decoder.cpp:1350-1356 | MOVW copies a register pair and changes no other register |
| Effects.ProgramPointerIncrement | src/decoder.cpp:1277-1294 | `LPM Rd, Z+` increments Z modulo 2^16, even when Rd is R30 or R31 |
| Effects.ExtendedPointerIncrement | src/decoder.cpp:650-673 | `ELPM Rd, Z+` increments RAMPZ:Z modulo 2^22 |
| Effects.ProgramByteRead | src/decoder.cpp:624-640 | `LPM Rd, Z` reads the other byte of the addressed word, and ELPM matches LPM when RAMPZ's low six bits are zero |
| Effects.StoreBelowZero | src/decoder.cpp:2144-2163 | `ST -Y` with Y = 0 stores at 0xFFFFFFFF and leaves Y = 0xFFFF |
| Effects.StoreBelowZeroZ | src/decoder.cpp:2203-2224 | `ST -Z` with Z = 0 stores at 0xFFFF |
| Sequences.PushThenPop | src/decoder.cpp:1557-1577 | `PUSH Rr; POP Rd` moves Rr into Rd and restores the stack |
| Sequences.IncrementThenDecrementBodies | src/decoder.cpp:2118-2262 | `ST p+` is the post-increment store and `LD -p` the pre-decrement load through `p`, for p one of X, Y, Z |
| Sequences.StoreThenLoad | src/decoder.cpp:2118-2262 | `ST p+, Rr; LD Rd, -p` for p one of X, Y, Z reads back the byte stored, when the pointer addresses data memory (0x60 up) and Rd is not half of the pointer |
| Sequences.StoreThenLoadPointer | src/decoder.cpp:1046-1224 | `ST p+, Rr; LD Rd, -p` leaves the pointer as it was |
| Sequences.DecrementThenIncrementBodies | src/decoder.cpp:2087-2262 | with the pointer above zero, `ST -p` is the 16-bit pre-decrement store and `LD p+` the post-increment load, `ST -Y`'s 32-bit decrement included |
| Sequences.DecrementStoreThenLoad | src/decoder.cpp:2087-2262 | `ST -p, Rr; LD Rd, p+` reads back the byte stored, when the decremented pointer addresses data memory and neither register is half of the pointer |
| Sequences.DisplacedStoreThenLoad | src/decoder.cpp:1971-1987 | `STD Y+q, Rr; LDD Rd, Y+q` reads back the byte stored when `Y+q` addresses data memory |
| Sequences.DirectStoreThenLoad | src/decoder.cpp:2025-2047 | STS, the core's step past it, then LDS naming the same data-memory address reads back the byte stored |
| Sequences.OutThenIn | src/decoder.cpp:1542-1548 | `OUT A, Rr; IN Rd, A` moves Rr into Rd |
| Sequences.BitTransfer | src/decoder.cpp:365-371 | BST then BLD copies bit `b` of one register into bit `c` of another |
| Sequences.CompareLow | src/decoder.cpp:445-461 | after CP, Z is byte equality and C is unsigned "below", with no register changed |
| Sequences.CompareWordsEqual | src/decoder.cpp:471-491 | `CP; CPC` sets Z exactly when the 16-bit words are equal |
| Sequences.CompareWordsBelow | src/decoder.cpp:471-491 | `CP; CPC` sets C exactly when the first word is below the second |
| Sequences.AddStep | src/decoder.cpp:110-149 | one ADD or ADC writes the byte sum with carry into Rd, changes no other register, and C is the carry out |
| Sequences.AddWords | src/decoder.cpp:110-125 | `ADD; ADC` adds two 16-bit words modulo 2^16 |
| Sequences.AddWordsCarry | src/decoder.cpp:110-125 | `ADD; ADC` carries exactly when the word sum reaches 2^16 |
| Sequences.SubStep | src/decoder.cpp:1684-1705 | one SUB or SBC writes the byte difference with borrow into Rd, changes no other register, and C is the borrow out |
| Sequences.SubtractWords | src/decoder.cpp:1684-1705 | `SUB; SBC` subtracts two 16-bit words modulo 2^16 |
| Sequences.SubtractWordsBorrow | src/decoder.cpp:1684-1705 | `SUB; SBC` borrows exactly when the first word is below the second |
| Sequences.SubtractWordsZero | src/decoder.cpp:1684-1705 | `SUB; SBC` sets Z exactly when the words are equal |
| Sequences.AddThenSubtractWord | src/decoder.cpp:1827-1848 | `ADIW; SBIW` with the same constant gives every register back |
| Sequences.AddThenSubtractWordCarry | src/decoder.cpp:1827-1848 | SBIW borrows exactly when the preceding ADIW carried |
| Properties.HaltsIffUnmatched | src/decoder.cpp:2351-2356 | running a decoded opcode halts exactly when no instruction encodes to it |
| Properties.ZeroOpcodeDoesNothing | src/decoder.cpp:1479-1483 | opcode 0x0000 changes nothing and takes one clock |
| Properties.ReturnAfterCall | src/decoder.cpp:1602-1610 | RET after a push of `v` continues at `v` with the stack restored, in `PC_size + 2` clocks |
| Properties.ReturnToNext | src/decoder.cpp:1602-1610 | RET after a push of the next instruction's address restores the whole state, in `PC_size + 2` clocks |
| Properties.CallThenReturn | src/decoder.cpp:381-396 | RET after CALL restores the state and continues after the two-word CALL |
| Properties.RelativeCallThenReturn | src/decoder.cpp:1585-1595 | RET after RCALL restores the whole state |
| Properties.IndirectCallThenReturn | src/decoder.cpp:846-859 | RET after ICALL restores the whole state |
| Properties.ExtendedCallThenReturn | src/decoder.cpp:585-598 | with three-byte return addresses, RET after EICALL restores the whole state |
| Properties.ReturnFromInterrupt | src/decoder.cpp:1618-1628 | RETI after a push of `v` continues at `v` with the stack restored and I set, in `PC_size + 2` clocks |
| Properties.ReturnFromInterruptIsReturn | src/decoder.cpp:1618-1628 | RETI does what RET does and also sets I |
| Properties.IndirectJump | src/decoder.cpp:869-875 | after IJMP and the core's step, execution continues at Z with nothing else changed, in two clocks |
| Properties.ExtendedIndirectJump | src/decoder.cpp:608-613 | after EIJMP and the core's step, execution continues one word past EIND's low six bits above Z, in two clocks |
| Properties.ExtendedJumpPastIndirect | src/decoder.cpp:608-613 | with EIND's low six bits clear, EIJMP lands one word after IJMP |
| Properties.ExtendedCallPastIndirect | src/decoder.cpp:585-598 | with EIND clear and three-byte return addresses, EICALL pushes what ICALL pushes and lands one word after it |
| Properties.JumpAndCallTargets | src/decoder.cpp:924-934 | JMP targets `K + k16`, which equals CALL's target exactly when `K` is zero |
| Properties.MaskedTarget | src/decoder.cpp:1637-1644 | with 2^n program words, masking the PC is reduction modulo 2^n |
| Properties.RelativeJumpWraps | src/decoder.cpp:1637-1644 | RJMP wraps around a power-of-two program space |

## Left out

- WDR reaches a watchdog object outside the core. It is an outcome of its own (`Watchdog`), and the watchdog is not modelled.
- SLEEP, SPM and ESPM are stubs that return 0 clocks and change nothing. They are modelled that way.
- The illegal instruction prints a message and calls `exit(0)`. It is the `Halt` outcome, without the message.
- Writing an I/O register can trigger peripheral side effects. These are not modelled: the 64 I/O registers are a plain byte sequence.
- Interrupts, the cycle-level main loop, the flash cache and program loading are not part of this model.
- The register file and the I/O registers are not mapped into data memory. Data memory is a map whose unwritten cells read 0. So the store/load round trips (`Sequences.StoreThenLoad`, `Sequences.DecrementStoreThenLoad`, `Sequences.DisplacedStoreThenLoad`, `Sequences.DirectStoreThenLoad`) are stated only for addresses from `Machine.RamStart` (0x60) up, where data memory is plain memory on the device. The extended I/O space of larger devices is not modelled.
- A skip instruction at the end of the decoded image treats the missing next instruction as one word long.
- Flash reads outside the image read 0.
- `IsInstruction2Words` of the decoded-program cache is `Device.decoded`, the decoded instruction at each word address.
- RAMPZ and EIND are state fields rather than I/O register entries.
- Popping an empty stack gives 0. The stack object's behaviour there is not shown.
- Operands.NBitUnsignedToSigned: for every width its contract gives only the sign. The range and the congruence are proved for `n` = 7 and `n` = 12, the only widths the decoder uses.
- `avr_core_stack_pop` with more than four bytes is not covered by the round-trip lemma, because the 32-bit accumulator loses the high bytes.
- SWAP and ROR combine two disjoint bit fields with `|`. The model adds them, which gives the same byte.
- `RAMPZ & 0x3f` is `RAMPZ % 64`. The bit 7 and bit 15 tests of ADIW/SBIW are comparisons with 128 and 32768.
- `funyFunc` is dead code and is not modelled.
- `src/flash.h` and `src/irqsystem.h` hold declarations only, and are not part of this model.
