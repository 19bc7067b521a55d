/** Machine integers: bitwise operators, powers of two, and the two's-complement
    reading of a 32-bit word, all over unbounded naturals. */
module Bits {

  const TWO31: int := 0x8000_0000
  const TWO32: int := 0x1_0000_0000
  const TWO64: int := 0x1_0000_0000_0000_0000

  type Byte = b: int | 0 <= b < 256
  type Word = w: int | -0x8000_0000 <= w < 0x8000_0000

  function Max(a: nat, b: nat): nat {
    if a < b then b else a
  }

  function Min(a: nat, b: nat): nat {
    if a < b then a else b
  }

  // ---------- bitwise operators ----------

  function And(a: nat, b: nat): (r: nat)
    ensures r <= a && r <= b
  {
    if a == 0 || b == 0 then 0
    else 2 * And(a / 2, b / 2) + (if a % 2 == 1 && b % 2 == 1 then 1 else 0)
  }

  function Or(a: nat, b: nat): nat {
    if a == 0 then b else if b == 0 then a
    else 2 * Or(a / 2, b / 2) + (if a % 2 == 1 || b % 2 == 1 then 1 else 0)
  }

  function Xor(a: nat, b: nat): nat {
    if a == 0 then b else if b == 0 then a
    else 2 * Xor(a / 2, b / 2) + (if a % 2 != b % 2 then 1 else 0)
  }

  function Shr(a: nat, k: nat): nat {
    if k == 0 then a else Shr(a / 2, k - 1)
  }

  function Bit(a: nat, i: nat): nat {
    if i == 0 then a % 2 else Bit(a / 2, i - 1)
  }

  function Pow2(k: nat): (p: nat)
    ensures p >= 1
  {
    if k == 0 then 1 else 2 * Pow2(k - 1)
  }

  predicate IsPow2(n: nat) {
    n == 1 || (n > 1 && n % 2 == 0 && IsPow2(n / 2))
  }

  lemma {:induction false} Pow2IsPow2(k: nat)
    ensures IsPow2(Pow2(k))
  {
    if k > 0 {
      Pow2IsPow2(k - 1);
    }
  }

  lemma {:induction false} OrXorBelow(a: nat, b: nat, k: nat)
    requires a < Pow2(k) && b < Pow2(k)
    ensures Or(a, b) < Pow2(k)
    ensures Xor(a, b) < Pow2(k)
  {
    if a != 0 && b != 0 {
      OrXorBelow(a / 2, b / 2, k - 1);
    }
  }

  // ---------- FAST_MOD_POW_TWO ----------

  function FastMod(n: nat, m: nat): (r: nat)
    requires m >= 1
    ensures r < m
  {
    And(n, m - 1)
  }

  /** Masking with m - 1 is the remainder modulo m when m is a power of two. */
  lemma {:induction false} FastModIsMod(n: nat, m: nat)
    requires IsPow2(m)
    ensures FastMod(n, m) == n % m
  {
    if m == 1 {
      assert And(n, 0) == 0;
    } else if n == 0 {
      assert And(0, m - 1) == 0;
    } else {
      assert (m - 1) / 2 == m / 2 - 1 && (m - 1) % 2 == 1;
      assert And(n, m - 1) == 2 * And(n / 2, m / 2 - 1) + n % 2;
      FastModIsMod(n / 2, m / 2);
      assert And(n / 2, m / 2 - 1) == n / 2 % (m / 2);
      HalfMod(n, m / 2);
      assert 2 * (m / 2) == m;
    }
  }

  lemma HalfMod(n: nat, h: nat)
    requires h >= 1
    ensures n % (2 * h) == 2 * (n / 2 % h) + n % 2
  {
    var q, r := n / 2 / h, n / 2 % h;
    assert n / 2 == h * q + r;
    assert n == (2 * h) * q + (2 * r + n % 2) by {
      assert 2 * (h * q + r) == (2 * h) * q + 2 * r;
    }
    ModUnique(n, 2 * h, q, 2 * r + n % 2);
  }

  lemma ProductBounds(m: nat, d: int)
    requires m >= 1
    ensures d >= 1 ==> m * d >= m
    ensures d <= -1 ==> m * d <= 0 - m
  {
    if d >= 1 {
      assert m * (d - 1) >= 0;
    } else if d <= -1 {
      assert m * (-1 - d) >= 0;
    }
  }

  lemma ModUnique(n: nat, m: nat, q: nat, r: nat)
    requires m >= 1 && r < m && n == m * q + r
    ensures n % m == r && n / m == q
  {
    var d := n / m - q;
    assert n == m * (n / m) + n % m;
    assert m * d == r - n % m by {
      assert m * (n / m) - m * q == m * d;
    }
    ProductBounds(m, d);
  }

  // ---------- ROUND_UP_POW_TWO32 ----------

  /** r |= r >> j for j = 1, 2, 4, 8, 16: every bit is copied into all lower positions. */
  function Smear(r: nat, j: nat): nat
    requires j > 0
    decreases 32 - j, r
  {
    if j >= 32 then r else Smear(Or(r, Shr(r, j)), 2 * j)
  }

  /** The macro truncates to unsigned int, steps down, smears and steps up again,
      all modulo 2^32. */
  function RoundUpPow2(n: nat): nat {
    (Smear((n % TWO32 + TWO32 - 1) % TWO32, 1) + 1) % TWO32
  }

  lemma {:induction false} BitOr(a: nat, b: nat, i: nat)
    ensures Bit(Or(a, b), i) == Max(Bit(a, i), Bit(b, i))
  {
    if a == 0 || b == 0 {
      BitZero(i);
    } else if i > 0 {
      BitOr(a / 2, b / 2, i - 1);
    }
  }

  lemma {:induction false} BitXor(a: nat, b: nat, i: nat)
    ensures Bit(Xor(a, b), i) == (Bit(a, i) + Bit(b, i)) % 2
  {
    if a == 0 || b == 0 {
      BitZero(i);
      BitRange(a, i);
      BitRange(b, i);
    } else if i == 0 {
      assert Xor(a, b) % 2 == if a % 2 != b % 2 then 1 else 0;
    } else {
      assert Xor(a, b) / 2 == Xor(a / 2, b / 2);
      BitXor(a / 2, b / 2, i - 1);
    }
  }

  lemma {:induction false} BitAnd(a: nat, b: nat, i: nat)
    ensures Bit(And(a, b), i) == if Bit(a, i) == 1 && Bit(b, i) == 1 then 1 else 0
  {
    if a == 0 || b == 0 {
      BitZero(i);
    } else if i > 0 {
      BitAnd(a / 2, b / 2, i - 1);
    }
  }

  /** Numbers with the same bits are equal. */
  lemma {:induction false} SameBits(a: nat, b: nat)
    requires forall i: nat :: Bit(a, i) == Bit(b, i)
    ensures a == b
    decreases a + b
  {
    assert Bit(a, 0) == Bit(b, 0);
    if a + b > 0 {
      forall i: nat
        ensures Bit(a / 2, i) == Bit(b / 2, i)
      {
        assert Bit(a, i + 1) == Bit(b, i + 1);
      }
      SameBits(a / 2, b / 2);
    }
  }

  lemma {:induction false} BitZero(i: nat)
    ensures Bit(0, i) == 0
  {
    if i > 0 {
      BitZero(i - 1);
    }
  }

  lemma BitDouble(a: nat, i: nat)
    ensures Bit(2 * a, i) == if i == 0 then 0 else Bit(a, i - 1)
  {
  }

  lemma {:induction false} BitRange(a: nat, i: nat)
    ensures Bit(a, i) <= 1
  {
    if i > 0 {
      BitRange(a / 2, i - 1);
    }
  }

  lemma {:induction false} BitShr(a: nat, k: nat, i: nat)
    ensures Bit(Shr(a, k), i) == Bit(a, i + k)
  {
    if k > 0 {
      BitShr(a / 2, k - 1, i);
    }
  }

  lemma {:induction false} BitAbove(a: nat, k: nat, i: nat)
    requires a < Pow2(k) && k <= i
    ensures Bit(a, i) == 0
  {
    if k == 0 {
      BitZero(i);
    } else {
      BitAbove(a / 2, k - 1, i - 1);
    }
  }

  lemma {:induction false} ShrBelow(a: nat, k: nat, j: nat)
    requires a < Pow2(k)
    ensures Shr(a, j) < Pow2(k)
  {
    if j > 0 {
      ShrBelow(a / 2, k, j - 1);
    }
  }

  /** The bits of a in positions l - j up to l - 1 are set and none is at l or above. */
  ghost predicate TopOnes(a: nat, l: nat, j: nat) {
    a < Pow2(l) && forall i: nat :: l <= i + j && i < l ==> Bit(a, i) == 1
  }

  /** One smearing step doubles the run of ones under the highest set bit. */
  lemma SmearDoubles(a: nat, l: nat, j: nat)
    requires TopOnes(a, l, j)
    ensures TopOnes(Or(a, Shr(a, j)), l, 2 * j)
  {
    ShrBelow(a, l, j);
    OrXorBelow(a, Shr(a, j), l);
    forall i: nat | l <= i + 2 * j && i < l
      ensures Bit(Or(a, Shr(a, j)), i) == 1
    {
      BitOr(a, Shr(a, j), i);
      BitShr(a, j, i);
      BitRange(a, i);
      BitRange(a, i + j);
      assert l <= i + j ==> Bit(a, i) == 1;
      assert l > i + j ==> l <= (i + j) + j && Bit(a, i + j) == 1;
    }
  }

  lemma {:induction false} AllOnes(a: nat, l: nat)
    requires TopOnes(a, l, l)
    ensures a == Pow2(l) - 1
  {
    if l > 0 {
      assert Bit(a, 0) == 1;
      forall i: nat | i < l - 1
        ensures Bit(a / 2, i) == 1
      {
        assert Bit(a, i + 1) == 1;
      }
      AllOnes(a / 2, l - 1);
    }
  }

  /** Every positive number has a highest set bit. */
  lemma {:induction false} HighestBit(a: nat) returns (l: nat)
    requires a >= 1
    ensures l >= 1 && Pow2(l - 1) <= a < Pow2(l) && TopOnes(a, l, 1)
  {
    if a == 1 {
      l := 1;
    } else {
      var h := HighestBit(a / 2);
      l := h + 1;
      assert Bit(a, l - 1) == Bit(a / 2, h - 1) == 1;
    }
  }

  lemma {:induction false} Pow2Monotone(a: nat, b: nat)
    requires a <= b
    ensures Pow2(a) <= Pow2(b)
  {
    if a < b {
      Pow2Monotone(a, b - 1);
    }
  }

  lemma Pow2Values()
    ensures Pow2(31) == TWO31 && Pow2(32) == TWO32
  {
    assert Pow2(8) == 256;
    assert Pow2(16) == 0x1_0000 by {
      assert Pow2(12) == 4096;
    }
    assert Pow2(24) == 0x100_0000 by {
      assert Pow2(20) == 0x10_0000;
    }
    assert Pow2(28) == 0x1000_0000;
  }

  lemma {:induction false} SmearFills(a: nat, l: nat, j: nat)
    requires j > 0 && l <= 32 && TopOnes(a, l, j)
    ensures Smear(a, j) == Pow2(l) - 1
    decreases 32 - j
  {
    if j >= 32 {
      AllOnes(a, l);
    } else {
      SmearDoubles(a, l, j);
      SmearFills(Or(a, Shr(a, j)), l, 2 * j);
    }
  }

  lemma HighestBitOfWord(a: nat) returns (l: nat)
    requires a < TWO32
    ensures l <= 32 && TopOnes(a, l, 1)
    ensures if l == 0 then a == 0 else Pow2(l - 1) <= a < Pow2(l)
  {
    Pow2Values();
    if a == 0 {
      l := 0;
    } else {
      l := HighestBit(a);
      if l > 32 {
        Pow2Monotone(32, l - 1);
        assert false;
      }
    }
  }

  /** Stepping up from l ones, where r0 has l binary digits. */
  lemma RoundUpOfSmeared(r0: nat, l: nat, up: nat)
    requires r0 < TWO32 && l <= 32 && up == Pow2(l) % TWO32
    requires if l == 0 then r0 == 0 else Pow2(l - 1) <= r0 < Pow2(l)
    ensures r0 < TWO31 ==> IsPow2(up) && r0 < up && (r0 > 0 ==> up <= 2 * r0)
    ensures TWO31 <= r0 ==> up == 0
  {
    Pow2Values();
    if l <= 31 {
      Pow2Monotone(l, 31);
      assert up == Pow2(l);
      Pow2IsPow2(l);
    }
  }

  lemma StepDown(n: nat)
    requires n < TWO32
    ensures (n % TWO32 + TWO32 - 1) % TWO32 == if n == 0 then TWO32 - 1 else n - 1
  {
  }

  /** ROUND_UP_POW_TWO32 yields the least power of two that is at least n when
      1 <= n <= 2^31 and wraps round to 0 for every other 32-bit n. */
  lemma RoundUpPow2Correct(n: nat)
    requires n < TWO32
    ensures 1 <= n <= TWO31 ==> IsPow2(RoundUpPow2(n)) && n <= RoundUpPow2(n) && (n > 1 ==> RoundUpPow2(n) < 2 * n)
    ensures !(1 <= n <= TWO31) ==> RoundUpPow2(n) == 0
  {
    var r0 := (n % TWO32 + TWO32 - 1) % TWO32;
    StepDown(n);
    var l := HighestBitOfWord(r0);
    SmearFills(r0, l, 1);
    RoundUpOfSmeared(r0, l, RoundUpPow2(n));
  }

  // ---------- products and quotients by repetition ----------
  // Stated by recursion so that the proofs about machine steps stay linear; each equals the
  // built-in operator.

  function Times(x: int, n: nat): (t: int)
    ensures x >= 0 ==> t >= 0
  {
    if n == 0 then 0 else x + Times(x, n - 1)
  }

  lemma {:induction false} TimesIsProduct(x: int, n: nat)
    ensures Times(x, n) == x * n
  {
    if n > 0 {
      TimesIsProduct(x, n - 1);
    }
  }

  function Product(x: int, y: int): int {
    if y < 0 then -Times(x, -y) else Times(x, y)
  }

  lemma ProductIsProduct(x: int, y: int)
    ensures Product(x, y) == x * y
  {
    TimesIsProduct(x, if y < 0 then -y else y);
  }

  function Div(a: nat, b: nat): (q: nat)
    requires b > 0
    ensures q <= a
  {
    if a < b then 0 else 1 + Div(a - b, b)
  }

  function Mod(a: nat, b: nat): (r: nat)
    requires b > 0
    ensures r < b && r <= a
  {
    if a < b then a else Mod(a - b, b)
  }

  lemma {:induction false} DivModSplit(a: nat, b: nat)
    requires b > 0
    ensures a == b * Div(a, b) + Mod(a, b)
  {
    if a >= b {
      DivModSplit(a - b, b);
    }
  }

  lemma DivModAreBuiltin(a: nat, b: nat)
    requires b > 0
    ensures Div(a, b) == a / b && Mod(a, b) == a % b
  {
    DivModSplit(a, b);
    ModUnique(a, b, Div(a, b), Mod(a, b));
  }

  function Shl(x: int, k: nat): int
    decreases k
  {
    if k == 0 then x else Shl(2 * x, k - 1)
  }

  /** The right shift of a signed number rounds down. */
  function Sar(x: int, k: nat): int
    decreases k
  {
    if k == 0 then x else Sar(x / 2, k - 1)
  }

  lemma {:induction false} ShlIsProduct(x: int, k: nat)
    ensures Shl(x, k) == x * Pow2(k)
    decreases k
  {
    if k > 0 {
      ShlIsProduct(2 * x, k - 1);
    }
  }

  lemma DoubleBounds(s: int, p: nat, h: int, x: int)
    requires s * p <= h < (s + 1) * p && 2 * h <= x <= 2 * h + 1
    ensures s * (2 * p) <= x < (s + 1) * (2 * p)
  {
    assert s * (2 * p) == 2 * (s * p);
    assert (s + 1) * (2 * p) == 2 * ((s + 1) * p);
  }

  lemma {:induction false} SarRoundsDown(x: int, k: nat)
    ensures Sar(x, k) * Pow2(k) <= x < (Sar(x, k) + 1) * Pow2(k)
    decreases k
  {
    if k > 0 {
      SarRoundsDown(x / 2, k - 1);
      DoubleBounds(Sar(x / 2, k - 1), Pow2(k - 1), x / 2, x);
    }
  }

  // ---------- 32-bit words ----------

  /** The word with the same value modulo 2^32. */
  function Wrap(x: int): Word {
    if -0x8000_0000 <= x < 0x8000_0000 then x else (x + 0x8000_0000) % 0x1_0000_0000 - 0x8000_0000
  }

  function Unsigned(w: Word): (u: nat)
    ensures u < TWO32
  {
    if w < 0 then w + 0x1_0000_0000 else w
  }
}
