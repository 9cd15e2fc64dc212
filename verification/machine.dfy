/** The part of the device an instruction body reads and writes.

    `Device` holds what stays fixed while instructions run: the size of a
    return address on the stack, the flash image and the decoded
    instruction at each word address. `State` holds what the bodies
    change: the 32 working registers, the status register, the program
    counter, data memory, the 64 I/O registers, the hardware stack and the
    RAMPZ and EIND extension registers.
 */
module Machine {
  import opened Operands
  import opened Flags
  import opened Instructions
  import opened Bits

  type Regs = r: seq<Byte> | |r| == 32 witness seq(32, _ => 0)

  type IoRegs = r: seq<Byte> | |r| == 64 witness seq(64, _ => 0)

  datatype Device = Device(
    pcSize: nat,          // bytes of a return address (`PC_size`)
    flash: seq<Byte>,     // the flash image, byte by byte
    decoded: seq<Instr>)  // the decoded instruction at each word address

  datatype State = State(
    regs: Regs,
    sreg: Sreg,
    pc: int,              // a word address
    sram: map<int, Byte>, // data memory; an unwritten cell reads 0
    io: IoRegs,
    stack: seq<Byte>,     // top of stack last
    rampz: Byte,
    eind: Byte)

  /** The low registers of the pointer pairs X (R27:R26), Y (R29:R28) and
      Z (R31:R30). */
  const X: int := 26
  const Y: int := 28
  const Z: int := 30

  /** Register `r` as the integer the bodies compute with. */
  function R(s: State, r: int): Byte
    requires 0 <= r < 32
  {
    s.regs[r]
  }

  function SetReg(s: State, r: int, v: Byte): (t: State)
    requires 0 <= r < 32
    ensures t.regs[r] == v
    ensures forall q :: 0 <= q < 32 && q != r ==> t.regs[q] == s.regs[q]
    ensures t == s.(regs := t.regs)
  {
    s.(regs := s.regs[r := v])
  }

  /** The word `(Rh << 8) + Rl` of the pair whose low register is `lo`. */
  function Pair(s: State, lo: int): (w: int)
    requires 0 <= lo < 31
    ensures 0 <= w < 65536
  {
    R(s, lo + 1) * 256 + R(s, lo)
  }

  /** `Rl = w & 0xff; Rh = w >> 8;`, in that order; the byte store of
      `Rh` keeps the low eight bits of `w >> 8`. */
  function SetPair(s: State, lo: int, w: int): (t: State)
    requires 0 <= lo < 31 && 0 <= w
    ensures t.regs[lo] == w % 256
    ensures t.regs[lo + 1] == (w / 256) % 256
    ensures forall q :: 0 <= q < 32 && q != lo && q != lo + 1 ==> t.regs[q] == s.regs[q]
    ensures t == s.(regs := t.regs)
  {
    SetReg(SetReg(s, lo, w % 256), lo + 1, (w / 256) % 256)
  }

  /** Storing a word into a pair and reading it back gives the word. */
  lemma PairOfSetPair(s: State, lo: int, w: int)
    requires 0 <= lo < 31 && 0 <= w < 65536
    ensures Pair(SetPair(s, lo, w), lo) == w
  {}

  /** The first data-memory address past the 32 working registers and the
      64 I/O registers. On the device, lower data addresses name those
      registers; this model keeps data memory apart from them, so the
      memory round trips are stated for addresses from here up. */
  const RamStart: int := 0x60

  function Load(s: State, a: int): Byte
  {
    if a in s.sram then s.sram[a] else 0
  }

  function Store(s: State, a: int, v: Byte): (t: State)
    ensures Load(t, a) == v
    ensures forall b :: b != a ==> Load(t, b) == Load(s, b)
  {
    s.(sram := s.sram[a := v])
  }

  /** The flash byte at address `a`; outside the image it reads 0. */
  function FlashByte(dev: Device, a: int): Byte
  {
    if 0 <= a < |dev.flash| then dev.flash[a] else 0
  }

  /** Program word `i` read through a `word *` on a little-endian host:
      the byte at `2i` is its low half. */
  function HostWord(dev: Device, i: int): (w: int)
    ensures 0 <= w < 65536
  {
    FlashByte(dev, 2 * i) + 256 * FlashByte(dev, 2 * i + 1)
  }

  /** `(w >> 8) + ((w & 0xff) << 8)`: the two bytes of a word exchanged. */
  function SwapBytes(w: int): (r: int)
    requires 0 <= w < 65536
    ensures 0 <= r < 65536
  {
    w / 256 + (w % 256) * 256
  }

  /** The 16-bit operand in the program word after the instruction at
      `pc`, as CALL, JMP, LDS and STS read it. */
  function SecondWord(dev: Device, pc: int): (k: int)
    ensures 0 <= k < 65536
  {
    SwapBytes(HostWord(dev, pc + 1))
  }

  /** The byte swap undoes the host's byte order: the operand is the
      flash byte at `2pc + 2` followed by the one at `2pc + 3`, read
      big-endian. */
  lemma SecondWordBigEndian(dev: Device, pc: int)
    ensures SecondWord(dev, pc) == 256 * FlashByte(dev, 2 * pc + 2) + FlashByte(dev, 2 * pc + 3)
  {
    var lo: int := FlashByte(dev, 2 * (pc + 1));
    var hi: int := FlashByte(dev, 2 * (pc + 1) + 1);
    assert HostWord(dev, pc + 1) == lo + 256 * hi;
    assert (lo + 256 * hi) / 256 == hi;
    assert (lo + 256 * hi) % 256 == lo;
  }

  /** Whether the instruction after `pc` occupies two program words. An
      address past the decoded image counts as a one-word instruction. */
  predicate NextIsTwoWord(dev: Device, pc: int)
  {
    0 <= pc + 1 < |dev.decoded| && IsTwoWord(dev.decoded[pc + 1])
  }

  /** `a ^ 0x0001` on a non-negative address: the other byte of the same
      program word. */
  function FlipLow(a: int): (r: int)
    requires 0 <= a
    ensures 0 <= r && r / 2 == a / 2 && r % 2 != a % 2
  {
    if a % 2 == 0 then a + 1 else a - 1
  }

  /** `(GetSize() - 1) >> 1` with the size an `unsigned int`: the word
      address of the image's last word; for an empty image the
      subtraction wraps and every bit below bit 31 is set. */
  function PcMask(dev: Device): (m: int)
    ensures 0 <= m < 0x8000_0000
    ensures 0 < |dev.flash| <= 0x1_0000_0000 ==> 2 * m < |dev.flash| <= 2 * m + 2
    ensures |dev.flash| == 0 ==> m == 0x7FFF_FFFF
  {
    ((|dev.flash| - 1) % 0x1_0000_0000) / 2
  }

  /** `PC &= mask`: the `int` PC is converted to `unsigned int` for the
      `&`, and the result, which is at most the mask and so below 2^31,
      converted back to `int`. */
  function MaskPc(pc: int, m: nat): (r: int)
    ensures 0 <= r <= m
    ensures r <= pc % 0x1_0000_0000
  {
    AndBound(pc % 0x1_0000_0000, m, 32);
    AndBound(m, pc % 0x1_0000_0000, 32);
    AndCommutes(pc % 0x1_0000_0000, m, 32);
    Bitwise(And, pc % 0x1_0000_0000, m, 32)
  }

  /** A 32-bit unsigned value stored into an `int`. */
  function DwordToInt(v: int): int
  {
    if v < 0x8000_0000 then v else v - 0x1_0000_0000
  }
}
