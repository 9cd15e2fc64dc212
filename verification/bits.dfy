/** Bitwise operations on non-negative integers.

    The instruction bodies combine bytes promoted to `int` with `&`, `|`
    and `^`, test and change single bits with masks `1 << b`, and mask the
    program counter with `&`. Here those operators work bit by bit on
    integers, so that register values stay plain integers throughout.
 */
module Bits {
  import opened Operands
  import opened Flags

  function Pow2(k: nat): (p: nat)
    ensures p >= 1
  {
    if k == 0 then 1 else 2 * Pow2(k - 1)
  }

  lemma Pow2Of32()
    ensures Pow2(32) == 0x1_0000_0000
  {
    Pow2Split(1, 2);
    Pow2Split(2, 4);
    Pow2Split(4, 8);
    Pow2Split(8, 16);
    Pow2Split(16, 32);
  }

  lemma {:induction false} Pow2Monotone(m: nat, n: nat)
    requires m <= n
    ensures Pow2(m) <= Pow2(n)
    decreases n
  {
    if m < n {
      Pow2Monotone(m, n - 1);
    }
  }

  lemma {:induction false} Pow2Split(m: nat, n: nat)
    requires m <= n
    ensures Pow2(n) == Pow2(m) * Pow2(n - m)
    decreases n
  {
    if m < n {
      Pow2Split(m, n - 1);
      assert Pow2(n) == 2 * Pow2(n - 1);
      assert Pow2(n - m) == 2 * Pow2(n - 1 - m);
    }
  }

  /** Reducing modulo a multiple of `p` first does not change the
      remainder modulo `p`. */
  lemma ModOfMod(t: int, p: int, q: int)
    requires p >= 1 && q >= 1
    ensures (t % (p * q)) % p == t % p
  {
    var m := t % (p * q);
    var a := t / (p * q);
    assert t == (p * q) * a + m;
    assert m == p * (m / p) + m % p;
    assert t == p * (q * a + m / p) + m % p;
    ModUnique(t, p, q * a + m / p, m % p);
  }

  /** The three bitwise operators. */
  datatype BitOp = And | Or | Xor

  function Combine(op: BitOp, x: bool, y: bool): bool
  {
    match op
    case And => x && y
    case Or => x || y
    case Xor => x != y
  }

  /** Bit `i` of `x` (`x >> i & 1`). */
  function BitOf(x: nat, i: nat): bool
  {
    if i == 0 then x % 2 == 1 else BitOf(x / 2, i - 1)
  }

  /** `a op b` on the low `n` bits of `a` and `b`. */
  function Bitwise(op: BitOp, a: nat, b: nat, n: nat): (r: nat)
    ensures r < Pow2(n)
  {
    if n == 0 then 0
    else (if Combine(op, a % 2 == 1, b % 2 == 1) then 1 else 0) + 2 * Bitwise(op, a / 2, b / 2, n - 1)
  }

  lemma {:induction false} ZeroBits(i: nat)
    ensures !BitOf(0, i)
  {
    if i > 0 {
      ZeroBits(i - 1);
    }
  }

  /** Each bit of the result is the operator applied to the operands' bits
      at the same position; the bits from `n` up are clear. */
  lemma {:induction false} BitwiseBit(op: BitOp, a: nat, b: nat, n: nat, i: nat)
    ensures BitOf(Bitwise(op, a, b, n), i) == (i < n && Combine(op, BitOf(a, i), BitOf(b, i)))
    decreases n
  {
    if n == 0 {
      ZeroBits(i);
    } else {
      var c := if Combine(op, a % 2 == 1, b % 2 == 1) then 1 else 0;
      var r := Bitwise(op, a / 2, b / 2, n - 1);
      assert Bitwise(op, a, b, n) == c + 2 * r;
      if i == 0 {
        assert (c + 2 * r) % 2 == c;
      } else {
        assert (c + 2 * r) / 2 == r;
        BitwiseBit(op, a / 2, b / 2, n - 1, i - 1);
      }
    }
  }

  /** Two numbers below `2^n` with the same low `n` bits are equal. */
  lemma {:induction false} SameBits(x: nat, y: nat, n: nat)
    requires x < Pow2(n) && y < Pow2(n)
    requires forall i: nat :: i < n ==> BitOf(x, i) == BitOf(y, i)
    ensures x == y
    decreases n
  {
    if n > 0 {
      forall i: nat | i < n - 1
        ensures BitOf(x / 2, i) == BitOf(y / 2, i)
      {
        assert BitOf(x, i + 1) == BitOf(y, i + 1);
      }
      SameBits(x / 2, y / 2, n - 1);
      assert BitOf(x, 0) == BitOf(y, 0);
    }
  }

  /** `a & b` is at most `b`. */
  lemma {:induction false} AndBound(a: nat, b: nat, n: nat)
    ensures Bitwise(And, a, b, n) <= b
    decreases n
  {
    if n > 0 {
      AndBound(a / 2, b / 2, n - 1);
    }
  }

  /** `a & b` is `b & a`. */
  lemma {:induction false} AndCommutes(a: nat, b: nat, n: nat)
    ensures Bitwise(And, a, b, n) == Bitwise(And, b, a, n)
    decreases n
  {
    if n > 0 {
      AndCommutes(a / 2, b / 2, n - 1);
    }
  }

  lemma {:induction false} AndZero(a: nat, n: nat)
    ensures Bitwise(And, a, 0, n) == 0
    decreases n
  {
    if n > 0 {
      AndZero(a / 2, n - 1);
    }
  }

  lemma ModSplitTwo(a: nat, p: nat)
    requires p >= 1
    ensures a % (2 * p) == 2 * ((a / 2) % p) + a % 2
  {
    var q := (a / 2) / p;
    var r := (a / 2) % p;
    assert a == (2 * p) * q + (2 * r + a % 2);
    ModUnique(a, 2 * p, q, 2 * r + a % 2);
  }

  /** `x == 2 * y + c` with `c` a bit: `x / 2 == y` and `x % 2 == c`. */
  lemma Halve(x: int, y: int, c: int)
    requires c == 0 || c == 1
    requires x == 2 * y + c
    ensures x / 2 == y && x % 2 == c
  {}

  /** `a & (2^k - 1)` keeps the low `k` bits of `a`. */
  lemma {:induction false} AndLowBits(a: nat, k: nat, n: nat)
    requires k <= n
    ensures Bitwise(And, a, Pow2(k) - 1, n) == a % Pow2(k)
    decreases n
  {
    if k == 0 {
      AndZero(a, n);
    } else {
      var p := Pow2(k - 1);
      assert Pow2(k) == 2 * p;
      var m := Pow2(k) - 1;
      Halve(m, p - 1, 1);
      var low := Bitwise(And, a / 2, p - 1, n - 1);
      assert Bitwise(And, a, m, n) == a % 2 + 2 * low;
      assert low == (a / 2) % p by {
        AndLowBits(a / 2, k - 1, n - 1);
      }
      assert a % 2 + 2 * low == a % (2 * p) by {
        ModSplitTwo(a, p);
      }
    }
  }

  lemma {:induction false} BitOfPow2(i: nat, j: nat)
    ensures BitOf(Pow2(i), j) <==> i == j
    decreases i
  {
    if i == 0 {
      if j > 0 {
        ZeroBits(j - 1);
      }
    } else if j > 0 {
      BitOfPow2(i - 1, j - 1);
    }
  }

  /** `2^n - 1` has its low `n` bits set. */
  lemma {:induction false} OnesBits(n: nat, j: nat)
    ensures BitOf(Pow2(n) - 1, j) <==> j < n
    decreases n
  {
    if n == 0 {
      ZeroBits(j);
    } else if j > 0 {
      OnesBits(n - 1, j - 1);
    }
  }

  /** `2^n - 1 - 2^i` has its low `n` bits set except bit `i`: the low
      bits of `~(1 << i)`. */
  lemma {:induction false} ClearMaskBits(n: nat, i: nat, j: nat)
    requires i < n
    ensures Pow2(i) < Pow2(n) && (BitOf(Pow2(n) - 1 - Pow2(i), j) <==> j < n && j != i)
    decreases n
  {
    var x := Pow2(n) - 1 - Pow2(i);
    if i == 0 {
      Halve(x, Pow2(n - 1) - 1, 0);
      if j > 0 {
        assert BitOf(x, j) == BitOf(Pow2(n - 1) - 1, j - 1);
        OnesBits(n - 1, j - 1);
      }
    } else {
      ClearMaskBits(n - 1, i - 1, if j > 0 then j - 1 else 0);
      var y := Pow2(n - 1) - 1 - Pow2(i - 1);
      Halve(x, y, 1);
      if j > 0 {
        assert BitOf(x, j) == BitOf(y, j - 1);
      }
    }
  }

  // ---------------------------------------------------------------------
  // Single bits of a byte
  // ---------------------------------------------------------------------

  /** The bit number `b` as an integer. */
  function Index(b: BitNum): (i: nat)
    ensures i < 8
  {
    match b
    case 0 => 0
    case 1 => 1
    case 2 => 2
    case 3 => 3
    case 4 => 4
    case 5 => 5
    case 6 => 6
    case _ => 7
  }

  /** `1 << b`. */
  function Weight(b: BitNum): (w: nat)
    ensures 1 <= w <= 128
  {
    match b
    case 0 => 1
    case 1 => 2
    case 2 => 4
    case 3 => 8
    case 4 => 16
    case 5 => 32
    case 6 => 64
    case _ => 128
  }

  lemma WeightIsPow2(b: BitNum)
    ensures Weight(b) == Pow2(Index(b))
  {
    assert Pow2(7) == 128;
  }

  /** `(x & (1 << b)) != 0`. */
  predicate TestBit(x: Byte, b: BitNum)
  {
    Bitwise(And, x, Weight(b), 8) != 0
  }

  /** `x & ~(1 << b)` when `v` is false and `x | (1 << b)` when it is
      true; on a byte, `~(1 << b)` is `0xff - (1 << b)`. */
  function WithBit(x: Byte, b: BitNum, v: bool): Byte
  {
    if v then Bitwise(Or, x, Weight(b), 8) else Bitwise(And, x, 0xFF - Weight(b), 8)
  }

  /** The mask test reads bit `b`. */
  lemma TestBitMeaning(x: Byte, b: BitNum)
    ensures TestBit(x, b) <==> BitOf(x, Index(b))
  {
    var i := Index(b);
    var r := Bitwise(And, x, Weight(b), 8);
    WeightIsPow2(b);
    forall j: nat | j < 8
      ensures BitOf(r, j) == BitOf(if BitOf(x, i) then Pow2(i) else 0, j)
    {
      BitwiseBit(And, x, Weight(b), 8, j);
      BitOfPow2(i, j);
      ZeroBits(j);
    }
    assert Pow2(8) == 256;
    SameBits(r, if BitOf(x, i) then Pow2(i) else 0, 8);
  }

  /** Bit `b` becomes `v`; the other bits are kept. */
  lemma WithBitMeaning(x: Byte, b: BitNum, v: bool, j: nat)
    requires j < 8
    ensures BitOf(WithBit(x, b, v), j) == if j == Index(b) then v else BitOf(x, j)
  {
    var i := Index(b);
    assert Pow2(8) == 256;
    WeightIsPow2(b);
    if v {
      BitwiseBit(Or, x, Weight(b), 8, j);
      BitOfPow2(i, j);
    } else {
      BitwiseBit(And, x, 0xFF - Weight(b), 8, j);
      ClearMaskBits(8, i, j);
    }
  }

  /** Writing a bit and reading it back gives the value written. */
  lemma WithBitTest(x: Byte, b: BitNum, v: bool)
    ensures TestBit(WithBit(x, b, v), b) == v
  {
    WithBitMeaning(x, b, v, Index(b));
    TestBitMeaning(WithBit(x, b, v), b);
  }

  /** Writing the bit a byte already has leaves the byte unchanged. */
  lemma WithSameBit(x: Byte, b: BitNum)
    ensures WithBit(x, b, TestBit(x, b)) == x
  {
    var y := WithBit(x, b, TestBit(x, b));
    TestBitMeaning(x, b);
    forall j: nat | j < 8
      ensures BitOf(y, j) == BitOf(x, j)
    {
      WithBitMeaning(x, b, TestBit(x, b), j);
    }
    assert Pow2(8) == 256;
    SameBits(y, x, 8);
  }

  /** `x ^ x == 0`: EOR of a register with itself clears it. */
  lemma XorSelf(x: Byte)
    ensures Bitwise(Xor, x, x, 8) == 0
  {
    var r := Bitwise(Xor, x, x, 8);
    forall j: nat | j < 8
      ensures BitOf(r, j) == BitOf(0, j)
    {
      BitwiseBit(Xor, x, x, 8, j);
      ZeroBits(j);
    }
    assert Pow2(8) == 256;
    SameBits(r, 0, 8);
  }

  /** `x & x == x` and `x | x == x`: AND and OR of a register with itself
      keep its value. */
  lemma SelfAndOr(x: Byte)
    ensures Bitwise(And, x, x, 8) == x && Bitwise(Or, x, x, 8) == x
  {
    assert Pow2(8) == 256;
    forall j: nat | j < 8
      ensures BitOf(Bitwise(And, x, x, 8), j) == BitOf(x, j)
      ensures BitOf(Bitwise(Or, x, x, 8), j) == BitOf(x, j)
    {
      BitwiseBit(And, x, x, 8, j);
      BitwiseBit(Or, x, x, 8, j);
    }
    SameBits(Bitwise(And, x, x, 8), x, 8);
    SameBits(Bitwise(Or, x, x, 8), x, 8);
  }
}
