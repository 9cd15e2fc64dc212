/** The stack helpers of the instruction bodies. `avr_core_stack_push`
    pushes the low byte of a value and shifts the value right by eight,
    `cnt` times, so the least significant byte goes first;
    `avr_core_stack_pop` pops `cnt` bytes into a 32-bit accumulator, each
    shifting the earlier ones up by eight. The device's stack object is
    modelled as a sequence of bytes with its top at the end.
 */
module Stack {
  import opened Flags

  /** 2^32: the range of the `dword` accumulator. */
  const DwordRange: int := 0x1_0000_0000

  function Pow256(n: nat): (p: int)
    ensures p >= 1
  {
    if n == 0 then 1 else 256 * Pow256(n - 1)
  }

  /** Byte `i` of `v`, counting from the least significant; for a
      negative `v` the byte of its two's complement, as `v >> 8i` on a
      `long` gives it. */
  function ByteOf(v: int, i: nat): Byte
  {
    (v / Pow256(i)) % 256
  }

  /** Dividing by 256 and then by `p` is dividing by `256p`. */
  lemma DivDiv(v: int, p: int)
    requires p >= 1
    ensures (v / 256) / p == v / (256 * p)
  {
    var q := v / 256;
    var a := q / p;
    var c := q % p;
    assert v == 256 * q + v % 256;
    assert q == p * a + c;
    assert v == (256 * p) * a + (c * 256 + v % 256);
    assert 0 <= c * 256 + v % 256 < 256 * p;
    ModUnique(v, 256 * p, a, c * 256 + v % 256);
    assert v / (256 * p) == a;
  }

  /** The bytes of `v / 256` are those of `v` moved down by one. */
  lemma ShiftedBytes(v: int, i: nat)
    requires i >= 1
    ensures ByteOf(v / 256, i - 1) == ByteOf(v, i)
  {
    DivDiv(v, Pow256(i - 1));
  }

  /** The inductive step of `Push`: pushing the low byte of `val` and
      then `cnt - 1` bytes of `val / 256` pushes `cnt` bytes of `val`. */
  lemma PushedBytes(st: seq<Byte>, cnt: nat, val: int, r: seq<Byte>)
    requires cnt >= 1 && |r| == |st| + cnt
    requires r[..|st| + 1] == st + [val % 256]
    requires forall j :: 0 <= j < cnt - 1 ==> r[|st| + 1 + j] == ByteOf(val / 256, j)
    ensures r[..|st|] == st
    ensures forall i :: 0 <= i < cnt ==> r[|st| + i] == ByteOf(val, i)
  {
    assert r[..|st|] == r[..|st| + 1][..|st|];
    forall i | 0 <= i < cnt
      ensures r[|st| + i] == ByteOf(val, i)
    {
      if i == 0 {
        assert r[|st|] == r[..|st| + 1][|st|];
      } else {
        assert r[|st| + 1 + (i - 1)] == ByteOf(val / 256, i - 1);
        ShiftedBytes(val, i);
      }
    }
  }

  /** Pushes `cnt` bytes of `val`, least significant first (`val & 0xff`,
      then `val >>= 8`; Dafny's `%` and `/` by 256 are exactly those
      operations on a two's-complement `long`): the stack grows by byte 0
      of `val`, then byte 1, and so on, so byte `cnt - 1` ends on top. */
  function Push(st: seq<Byte>, cnt: nat, val: int): (r: seq<Byte>)
    ensures |r| == |st| + cnt
    ensures r[..|st|] == st
    ensures forall i :: 0 <= i < cnt ==> r[|st| + i] == ByteOf(val, i)
    decreases cnt
  {
    if cnt == 0 then st
    else
      var r := Push(st + [val % 256], cnt - 1, val / 256);
      PushedBytes(st, cnt, val, r);
      r
  }

  /** The top byte and the rest of the stack. The stack object is not part
      of this model; popping an empty stack is given the value 0. */
  function Pop(st: seq<Byte>): (Byte, seq<Byte>)
  {
    if |st| == 0 then (0, st) else (st[|st| - 1], st[..|st| - 1])
  }

  /** The pop loop continued from the accumulator `acc`:
      `val = val << 8; val += Pop();` on a 32-bit unsigned `val`. It
      removes the top `cnt` bytes (all of them when fewer are left), and
      once it has popped anything the accumulator is a 32-bit value. */
  function PopInto(st: seq<Byte>, cnt: nat, acc: int): (r: (int, seq<Byte>))
    ensures cnt == 0 ==> r.0 == acc
    ensures cnt > 0 ==> 0 <= r.0 < DwordRange
    ensures cnt <= |st| ==> r.1 == st[..|st| - cnt]
    ensures cnt >= |st| ==> r.1 == []
  {
    if cnt == 0 then (acc, st)
    else
      var (b, rest) := Pop(st);
      PopInto(rest, cnt - 1, ((acc * 256) % DwordRange + b) % DwordRange)
  }

  /** `avr_core_stack_pop`: the value of `cnt` popped bytes, a 32-bit
      unsigned value, and the stack left after them. */
  function PopValue(st: seq<Byte>, cnt: nat): (r: (int, seq<Byte>))
    ensures 0 <= r.0 < DwordRange
    ensures cnt <= |st| ==> r.1 == st[..|st| - cnt]
    ensures cnt >= |st| ==> r.1 == []
  {
    PopInto(st, cnt, 0)
  }

  /** The value the accumulator holds after popping the `n` bytes of `v`
      on top of `acc`. */
  function Accumulated(acc: int, n: nat, v: int): int
  {
    (acc * Pow256(n) + v % Pow256(n)) % DwordRange
  }

  // ---------------------------------------------------------------------
  // Arithmetic behind the round trip
  // ---------------------------------------------------------------------

  /** Splitting off the low byte: `v mod 256P` is the high part modulo
      `P`, shifted up by one byte, plus the low byte. */
  lemma ModSplit(v: int, p: int)
    requires p >= 1
    ensures v % (256 * p) == (v / 256 % p) * 256 + v % 256
  {
    var q := v / 256;
    var a := q / p;
    var c := q % p;
    assert v == 256 * q + v % 256;
    assert q == p * a + c;
    assert v == (256 * p) * a + (c * 256 + v % 256);
    ModUnique(v, 256 * p, a, c * 256 + v % 256);
  }

  lemma DwordShift(x: int, k: int)
    ensures (x % DwordRange * k) % DwordRange == (x * k) % DwordRange
  {
    var q := x / DwordRange;
    var r := x % DwordRange;
    assert x * k == DwordRange * (q * k) + r * k;
    var a := (r * k) / DwordRange;
    var t := (r * k) % DwordRange;
    assert r * k == DwordRange * a + t;
    assert x * k == DwordRange * (q * k + a) + t;
    ModUnique(x * k, DwordRange, q * k + a, t);
  }

  lemma DwordAdd(x: int, y: int)
    ensures (x % DwordRange + y) % DwordRange == (x + y) % DwordRange
  {
    var q := x / DwordRange;
    assert x + y == DwordRange * q + (x % DwordRange + y);
    var a := (x % DwordRange + y) / DwordRange;
    var t := (x % DwordRange + y) % DwordRange;
    assert x + y == DwordRange * (q + a) + t;
    ModUnique(x + y, DwordRange, q + a, t);
  }

  /** One step of the pop loop applied to an accumulator that already
      holds the bytes popped so far, reduced modulo 2^32. */
  lemma AccumulatorArith(acc: int, p: int, v: int)
    requires p >= 1 && 0 <= acc < DwordRange
    ensures var a1 := (acc * p + v / 256 % p) % DwordRange;
      ((a1 * 256) % DwordRange + v % 256) % DwordRange
        == (acc * (256 * p) + v % (256 * p)) % DwordRange
  {
    var x := acc * p + v / 256 % p;
    DwordShift(x, 256);
    DwordAdd(x * 256, v % 256);
    assert ((x * 256) % DwordRange + v % 256) % DwordRange == (x * 256 + v % 256) % DwordRange;
    ModSplit(v, p);
    assert x * 256 + v % 256 == acc * (256 * p) + v % (256 * p);
  }

  lemma AccumulatorStep(acc: int, n: nat, v: int)
    requires n >= 1 && 0 <= acc < DwordRange
    ensures ((Accumulated(acc, n - 1, v / 256) * 256) % DwordRange + v % 256) % DwordRange
      == Accumulated(acc, n, v)
  {
    AccumulatorArith(acc, Pow256(n - 1), v);
    assert Pow256(n) == 256 * Pow256(n - 1);
  }

  // ---------------------------------------------------------------------
  // Round trip
  // ---------------------------------------------------------------------

  /** Popping `n + j` bytes after pushing `n` bytes of `v` first recovers
      `v` modulo 256^n into the accumulator and then continues on the
      stack as it was before the push. */
  lemma {:induction false} PopAfterPushFrom(st: seq<Byte>, n: nat, v: int, j: nat, acc: int)
    requires 0 <= acc < DwordRange
    ensures PopInto(Push(st, n, v), n + j, acc) == PopInto(st, j, Accumulated(acc, n, v))
    decreases n
  {
    if n == 0 {
      assert Accumulated(acc, 0, v) == acc by {
        assert Pow256(0) == 1;
        assert acc * 1 + v % 1 == acc;
      }
    } else {
      var b0 := v % 256;
      assert PopInto(Push(st + [b0], n - 1, v / 256), (n - 1) + (j + 1), acc)
        == PopInto(st + [b0], j + 1, Accumulated(acc, n - 1, v / 256)) by {
        PopAfterPushFrom(st + [b0], n - 1, v / 256, j + 1, acc);
      }
      PopAfterPushStep(st, n, v, j, acc);
    }
  }

  /** The inductive step: the first `n - 1` pops take back what the last
      `n - 1` pushes put, and the next pop takes the low byte of `v`. */
  lemma PopAfterPushStep(st: seq<Byte>, n: nat, v: int, j: nat, acc: int)
    requires 0 <= acc < DwordRange && n >= 1
    requires PopInto(Push(st + [v % 256], n - 1, v / 256), (n - 1) + (j + 1), acc)
      == PopInto(st + [v % 256], j + 1, Accumulated(acc, n - 1, v / 256))
    ensures PopInto(Push(st, n, v), n + j, acc) == PopInto(st, j, Accumulated(acc, n, v))
  {
    var b0 := v % 256;
    var a1 := Accumulated(acc, n - 1, v / 256);
    assert Push(st, n, v) == Push(st + [b0], n - 1, v / 256);
    assert Pop(st + [b0]) == (b0, st);
    assert PopInto(st + [b0], j + 1, a1)
      == PopInto(st, j, ((a1 * 256) % DwordRange + b0) % DwordRange);
    AccumulatorStep(acc, n, v);
  }

  /** Popping `cnt` bytes right after pushing `cnt` bytes of `v` gives back
      `v` modulo 256^cnt (all of `v` when it fits) and the stack as it
      was, for the at most four bytes the 32-bit accumulator holds. */
  lemma PopAfterPush(st: seq<Byte>, cnt: nat, v: int)
    requires cnt <= 4
    ensures PopValue(Push(st, cnt, v), cnt) == (v % Pow256(cnt), st)
    ensures 0 <= v < Pow256(cnt) ==> PopValue(Push(st, cnt, v), cnt).0 == v
  {
    var p := Pow256(cnt);
    PopAfterPushFrom(st, cnt, v, 0, 0);
    assert p <= DwordRange by {
      PowMonotone(cnt, 4);
    }
    assert Accumulated(0, cnt, v) == (0 * p + v % p) % DwordRange;
    assert 0 * p + v % p == v % p;
    ModUnique(v % p, DwordRange, 0, v % p);
    if 0 <= v < p {
      ModUnique(v, p, 0, v);
    }
  }

  lemma {:induction false} PowMonotone(m: nat, n: nat)
    requires m <= n
    ensures Pow256(m) <= Pow256(n)
    decreases n
  {
    if m < n {
      PowMonotone(m, n - 1);
    }
  }
  // ---------------------------------------------------------------------
  // The popped value
  // ---------------------------------------------------------------------

  /** The number whose bytes, least significant first, are `b`. */
  function LittleEndian(b: seq<Byte>): (v: nat)
  {
    if |b| == 0 then 0 else b[0] + 256 * LittleEndian(b[1..])
  }

  /** A byte appended at the end is the most significant one. */
  lemma {:induction false} LittleEndianAppend(b: seq<Byte>, x: Byte)
    ensures LittleEndian(b + [x]) == LittleEndian(b) + x * Pow256(|b|)
    decreases |b|
  {
    if |b| > 0 {
      assert (b + [x])[1..] == b[1..] + [x];
      LittleEndianAppend(b[1..], x);
    }
  }

  /** Adding a multiple of 2^32 does not change a value modulo 2^32. */
  lemma DwordMultiple(a: int, k: int)
    ensures (a + DwordRange * k) % DwordRange == a % DwordRange
  {
    var q := a / DwordRange;
    assert a + DwordRange * k == DwordRange * (q + k) + a % DwordRange;
    ModUnique(a + DwordRange * k, DwordRange, q + k, a % DwordRange);
  }

  /** One pop step, modulo 2^32: the accumulator `y mod 2^32` carried
      through `n` more bytes gives what `y` would. */
  lemma ReducedAccumulator(y: int, p: int, l: int)
    ensures ((y % DwordRange) * p + l) % DwordRange == (y * p + l) % DwordRange
  {
    var q := y / DwordRange;
    assert y % DwordRange == y - DwordRange * q;
    assert (y % DwordRange) * p + l == (y * p + l) + DwordRange * (-(q * p));
    DwordMultiple(y * p + l, -(q * p));
  }

  lemma PopStepArith(acc: int, b: int, p: int, l: int, e: int, pp: int)
    requires pp == 256 * p && e == l + b * p
    ensures (acc * 256 + b) * p + l == acc * pp + e
  {}

  /** The pop loop reads the top `cnt` bytes as one number whose most
      significant byte is the top of the stack, shifted in above `acc`,
      all modulo 2^32. */
  lemma {:induction false} PopIntoValue(st: seq<Byte>, cnt: nat, acc: int)
    requires cnt <= |st| && 0 <= acc < DwordRange
    ensures PopInto(st, cnt, acc).0
      == (acc * Pow256(cnt) + LittleEndian(st[|st| - cnt..])) % DwordRange
    decreases cnt
  {
    if cnt == 0 {
      assert st[|st|..] == [];
      ModUnique(acc, DwordRange, 0, acc);
    } else {
      var b := st[|st| - 1];
      var rest := st[..|st| - 1];
      var y := acc * 256 + b;
      var acc' := ((acc * 256) % DwordRange + b) % DwordRange;
      assert acc' == y % DwordRange by {
        DwordAdd(acc * 256, b);
      }
      var p := Pow256(cnt - 1);
      var x := rest[|rest| - (cnt - 1)..];
      PopIntoValue(rest, cnt - 1, acc');
      assert PopInto(st, cnt, acc).0 == (acc' * p + LittleEndian(x)) % DwordRange;
      ReducedAccumulator(y, p, LittleEndian(x));
      var l := LittleEndian(x);
      var e := LittleEndian(st[|st| - cnt..]);
      assert e == l + b * p by {
        assert st[|st| - cnt..] == x + [b];
        LittleEndianAppend(x, b);
      }
      PopStepArith(acc, b, p, l, e, Pow256(cnt));
    }
  }

  /** `avr_core_stack_pop(cnt)` returns the top `cnt` bytes read as one
      number, the top of the stack most significant, modulo 2^32. */
  lemma PopValueMeaning(st: seq<Byte>, cnt: nat)
    requires cnt <= |st|
    ensures PopValue(st, cnt).0 == LittleEndian(st[|st| - cnt..]) % DwordRange
  {
    PopIntoValue(st, cnt, 0);
    assert 0 * Pow256(cnt) == 0;
  }
}
