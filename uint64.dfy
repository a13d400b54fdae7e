/** Go's unsigned 64-bit arithmetic, stated on mathematical integers.

    A `u64` is an integer in [0, 2^64). Every operation whose Go result can
    wrap around is passed through `Wrap`. A left shift is multiplication by
    a power of two modulo 2^64; the right shift and the bitwise operators
    `&` and `|` are defined by halving. The lemmas below relate them to
    plain arithmetic, so that the codec can be written with the operators
    its source uses. */
module Uint64 {

  const LIMIT: int := 0x1_0000_0000_0000_0000

  /** A value of Go's `uint64`, and of `uint` on a 64-bit platform: an
      integer below `LIMIT`, written out as a literal in the constraint. */
  type u64 = x: int | 0 <= x < 0x1_0000_0000_0000_0000

  /** Reduction modulo 2^64: what `+`, `-` and `*` on `uint64` do on overflow. */
  function Wrap(x: int): u64 {
    x % LIMIT
  }

  function Pow2(k: nat): (r: nat)
    ensures r >= 1
  {
    if k == 0 then 1 else 2 * Pow2(k - 1)
  }

  /** `x >> k`: `x` with its low `k` bits dropped. Go yields 0 once
      `k >= 64`, and so does `Shr` on a u64. */
  function Shr(x: nat, k: nat): (r: nat)
    ensures r <= x
  {
    if k == 0 then x else Shr(x / 2, k - 1)
  }

  /** The low `k` bits of `x`, `x mod 2^k`. */
  function LowBits(x: nat, k: nat): (r: nat)
    ensures r < Pow2(k) && r <= x
  {
    if k == 0 then 0 else 2 * LowBits(x / 2, k - 1) + x % 2
  }

  /** `x << k`: multiplication by 2^k modulo 2^64, so the bits shifted past
      bit 63 are lost. */
  function ShiftLeft(x: u64, k: nat): u64 {
    Wrap(x * Pow2(k))
  }

  /** Bit `k` of `x`, bit 0 being the least significant. */
  predicate Bit(x: nat, k: nat) {
    Shr(x, k) % 2 == 1
  }

  /** `x & y`, built from the least significant bit up. */
  function And(x: nat, y: nat): nat
    decreases x
  {
    if x == 0 || y == 0 then 0
    else 2 * And(x / 2, y / 2) + (if x % 2 == 1 && y % 2 == 1 then 1 else 0)
  }

  /** `x | y`, built from the least significant bit up. */
  function Or(x: nat, y: nat): nat
    decreases x + y
  {
    if x == 0 then y
    else if y == 0 then x
    else 2 * Or(x / 2, y / 2) + (if x % 2 == 1 || y % 2 == 1 then 1 else 0)
  }

  // ---------------------------------------------------------------------
  // Arithmetic

  /** Values already in range do not wrap. */
  lemma WrapId(x: int)
    requires 0 <= x < LIMIT
    ensures Wrap(x) == x
  {
    DivModUnique(x, LIMIT, 0, x);
  }

  lemma MulLe(a: int, b: int, d: int)
    requires a <= b && d >= 0
    ensures a * d <= b * d
  {
    assert b * d == a * d + (b - a) * d;
  }

  /** `a + uint64(c)` wraps the same whether or not `c` was wrapped first. */
  lemma WrapAdd(a: nat, c: nat)
    ensures Wrap(a + Wrap(c)) == Wrap(a + c)
  {
    var q := c / LIMIT;
    assert c == q * LIMIT + Wrap(c);
    var s := a + c;
    assert a + Wrap(c) == (s / LIMIT - q) * LIMIT + Wrap(s);
    DivModUnique(a + Wrap(c), LIMIT, s / LIMIT - q, Wrap(s));
  }

  /** The slot after slot `i` of width `w` ends at or before slot `n`. */
  lemma MulNext(i: nat, n: nat, w: nat)
    requires i < n
    ensures i * w + w <= n * w
  {
    assert (i + 1) * w == i * w + w;
    MulLe(i + 1, n, w);
  }

  /** `x + 1` on a u64 wraps only from the largest value, to 0. */
  lemma WrapSucc(x: u64)
    ensures Wrap(x + 1) == if x + 1 < LIMIT then x + 1 else 0
  {
    if x + 1 < LIMIT {
      WrapId(x + 1);
    } else {
      DivModUnique(x + 1, LIMIT, 1, 0);
    }
  }

  /** Quotient and remainder are determined by the division equation. */
  lemma DivModUnique(x: int, d: int, q: int, r: int)
    requires d > 0 && 0 <= r < d && x == q * d + r
    ensures x / d == q && x % d == r
  {
    var q' := x / d;
    assert x == q' * d + x % d;
    if q' > q {
      assert (q + 1) * d == q * d + d;
      MulLe(q + 1, q', d);
    } else if q' < q {
      assert (q' + 1) * d == q' * d + d;
      MulLe(q' + 1, q, d);
    }
  }

  lemma {:induction false} Pow2Add(a: nat, b: nat)
    ensures Pow2(a + b) == Pow2(a) * Pow2(b)
  {
    if a > 0 {
      Pow2Add(a - 1, b);
      assert Pow2(a + b) == 2 * Pow2(a - 1 + b);
    }
  }

  lemma Pow2Limit()
    ensures Pow2(64) == LIMIT
  {
    assert Pow2(2) == 4;
    Pow2Add(2, 2);
    assert Pow2(4) == 16;
    Pow2Add(4, 4);
    assert Pow2(8) == 256;
    Pow2Add(8, 8);
    assert Pow2(16) == 0x1_0000;
    Pow2Add(16, 16);
    assert Pow2(32) == 0x1_0000_0000;
    Pow2Add(32, 32);
  }

  lemma {:induction false} Pow2Monotone(a: nat, b: nat)
    requires a <= b
    ensures Pow2(a) <= Pow2(b)
  {
    if a < b {
      Pow2Monotone(a, b - 1);
    }
  }

  /** Every power of two below 2^64 is a u64. */
  lemma Pow2Below(k: nat)
    requires k < 64
    ensures Pow2(k) < LIMIT && 2 * Pow2(k) <= LIMIT
  {
    Pow2Limit();
    Pow2Monotone(k + 1, 64);
  }

  // ---------------------------------------------------------------------
  // Shifts and low bits

  /** Dropping `k + 1` bits is dropping `k`, then halving. */
  lemma {:induction false} ShrSucc(x: nat, k: nat)
    ensures Shr(x, k + 1) == Shr(x, k) / 2
  {
    if k > 0 {
      ShrSucc(x / 2, k - 1);
    }
  }

  lemma {:induction false} ShrMonotone(x: nat, y: nat, k: nat)
    requires x <= y
    ensures Shr(x, k) <= Shr(y, k)
  {
    if k > 0 {
      ShrMonotone(x / 2, y / 2, k - 1);
    }
  }

  /** A value below 2^k has nothing left after dropping `k` bits. */
  lemma {:induction false} ShrSmall(x: nat, k: nat)
    requires x < Pow2(k)
    ensures Shr(x, k) == 0
  {
    if k > 0 {
      ShrSmall(x / 2, k - 1);
    }
  }

  /** A value below 2^k is its own low `k` bits. */
  lemma {:induction false} LowBitsSmall(x: nat, k: nat)
    requires x < Pow2(k)
    ensures LowBits(x, k) == x
  {
    if k > 0 {
      LowBitsSmall(x / 2, k - 1);
    }
  }

  lemma Twice(q: int, p: int)
    ensures q * (2 * p) == 2 * (q * p)
  {
  }

  lemma {:induction false} LowBitsZero(k: nat)
    ensures LowBits(0, k) == 0
  {
    if k > 0 {
      LowBitsZero(k - 1);
    }
  }

  /** `x` is its high part shifted back, plus its low `k` bits. */
  lemma {:induction false} ShrSplit(x: nat, k: nat)
    ensures x == Shr(x, k) * Pow2(k) + LowBits(x, k)
  {
    if k > 0 {
      var h := x / 2;
      ShrSplit(h, k - 1);
      var p, q, l := Pow2(k - 1), Shr(h, k - 1), LowBits(h, k - 1);
      assert Shr(x, k) == q && LowBits(x, k) == 2 * l + x % 2 && Pow2(k) == 2 * p;
      Twice(q, p);
    }
  }

  // ---------------------------------------------------------------------
  // The bitwise operators

  /** `x & (2^k - 1)` keeps the low `k` bits of `x`. */
  lemma {:induction false} AndLowMask(x: nat, k: nat)
    ensures And(x, Pow2(k) - 1) == LowBits(x, k)
  {
    if k > 0 && x > 0 {
      var m := Pow2(k) - 1;
      assert m == 2 * (Pow2(k - 1) - 1) + 1;
      assert m / 2 == Pow2(k - 1) - 1 && m % 2 == 1;
      AndLowMask(x / 2, k - 1);
    }
  }

  /** `x & 2^k` is non-zero exactly when bit `k` of `x` is set. */
  lemma {:induction false} AndSingleBit(x: nat, k: nat)
    ensures (And(x, Pow2(k)) > 0) == Bit(x, k)
  {
    if x > 0 && k > 0 {
      assert Pow2(k) / 2 == Pow2(k - 1) && Pow2(k) % 2 == 0;
      AndSingleBit(x / 2, k - 1);
    }
  }

  /** `(h << k) | low` is `h * 2^k + low` when `low` fits in `k` bits. */
  lemma {:induction false} OrDisjoint(h: nat, k: nat, low: nat)
    requires low < Pow2(k)
    ensures Or(h * Pow2(k), low) == h * Pow2(k) + low
  {
    if k > 0 && h > 0 && low > 0 {
      var x := h * Pow2(k);
      assert x == 2 * (h * Pow2(k - 1));
      assert x / 2 == h * Pow2(k - 1) && x % 2 == 0;
      OrDisjoint(h, k - 1, low / 2);
    }
  }

  /** `|` never sets a bit at or above `k` when neither operand has one. */
  lemma {:induction false} OrBelow(x: nat, y: nat, k: nat)
    requires x < Pow2(k) && y < Pow2(k)
    ensures Or(x, y) < Pow2(k)
  {
    if x > 0 && y > 0 {
      assert k > 0;
      OrBelow(x / 2, y / 2, k - 1);
    }
  }

  /** `1 << s` is 2^s below 64 and 0 from 64 on. */
  lemma ShiftOne(s: nat)
    ensures s < 64 ==> ShiftLeft(1, s) == Pow2(s)
    ensures s >= 64 ==> ShiftLeft(1, s) == 0 && LIMIT <= Pow2(s)
  {
    Pow2Limit();
    if s < 64 {
      Pow2Below(s);
      WrapId(Pow2(s));
    } else {
      Pow2Add(64, s - 64);
      DivModUnique(Pow2(s), LIMIT, Pow2(s - 64), 0);
      MulLe(1, Pow2(s - 64), LIMIT);
    }
  }

  /** The test `bits & (1 << s) > 0` reads bit `s` of `bits`, also when
      `s >= 64`, where Go's shift yields 0 and the bit is 0 too. */
  lemma MaskedBit(bits: u64, s: nat)
    ensures (And(bits, ShiftLeft(1, s)) > 0) == Bit(bits, s)
  {
    ShiftOne(s);
    if s < 64 {
      AndSingleBit(bits, s);
    } else {
      ShrSmall(bits, s);
    }
  }

  /** The mask `(1 << k) - 1` is 2^k - 1 below 64 and all ones from 64 on,
      where `1 << k` is 0 and the subtraction wraps. */
  lemma MaskValue(k: nat)
    ensures k < 64 ==> Wrap(ShiftLeft(1, k) - 1) + 1 == Pow2(k)
    ensures k >= 64 ==> Wrap(ShiftLeft(1, k) - 1) == LIMIT - 1
  {
    ShiftOne(k);
    if k < 64 {
      Pow2Below(k);
      WrapId(Pow2(k) - 1);
    } else {
      DivModUnique(-1, LIMIT, -1, LIMIT - 1);
    }
  }

  /** `x & ((1 << k) - 1)` keeps the low `k` bits of a u64 `x`, for every
      `k`: from 64 on the mask wraps round to all ones. */
  lemma MaskLow(x: u64, k: nat)
    ensures And(x, Wrap(ShiftLeft(1, k) - 1)) == LowBits(x, k)
  {
    ShiftOne(k);
    if k < 64 {
      Pow2Below(k);
      WrapId(Pow2(k) - 1);
      AndLowMask(x, k);
    } else {
      Pow2Limit();
      DivModUnique(-1, LIMIT, -1, LIMIT - 1);
      AndLowMask(x, 64);
      LowBitsSmall(x, 64);
      LowBitsSmall(x, k);
    }
  }

  /** Bit 0 of the low `k` bits of `x` is bit 0 of `x`, for `k > 0`. */
  lemma LowBitsKeepBit0(x: nat, k: nat)
    requires k > 0
    ensures Bit(LowBits(x, k), 0) == Bit(x, 0)
  {
    var y := LowBits(x, k);
    assert y == 2 * LowBits(x / 2, k - 1) + x % 2;
  }
}
