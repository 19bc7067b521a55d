/** The integer mixers and the two 28-bit string hashes of core/hashalg.c, on words kept below
    2^32 or 2^64 by an explicit remainder. */
module HashMix {
  import opened Bits

  // ---------- bit by bit ----------

  /** a & ~b */
  function AndNot(a: nat, b: nat): nat {
    if a == 0 || b == 0 then a
    else 2 * AndNot(a / 2, b / 2) + (if a % 2 == 1 && b % 2 == 0 then 1 else 0)
  }

  lemma {:induction false} BitAndNot(a: nat, b: nat, i: nat)
    ensures Bit(AndNot(a, b), i) == if Bit(a, i) == 1 && Bit(b, i) == 0 then 1 else 0
  {
    BitRange(a, i);
    if a == 0 || b == 0 {
      BitZero(i);
    } else if i > 0 {
      BitAndNot(a / 2, b / 2, i - 1);
    }
  }

  lemma Pow2Of64()
    ensures Pow2(32) == TWO32 && Pow2(64) == TWO64
  {
    Pow2Values();
    assert Pow2(36) == 16 * TWO32;
    assert Pow2(40) == 256 * TWO32;
    assert Pow2(44) == 0x1000 * TWO32;
    assert Pow2(48) == 0x1_0000 * TWO32;
    assert Pow2(52) == 0x10_0000 * TWO32;
    assert Pow2(56) == 0x100_0000 * TWO32;
    assert Pow2(60) == 0x1000_0000 * TWO32;
  }

  // ---------- undoing a xor-shift ----------

  /** x ^ (x >> s) */
  function Fold(x: nat, s: nat): nat {
    Xor(x, Shr(x, s))
  }

  /** y ^ (y >> s) ^ (y >> 2s) */
  function Unfold(y: nat, s: nat): nat {
    Xor(Xor(y, Shr(y, s)), Shr(y, 2 * s))
  }

  lemma FoldBit(x: nat, s: nat, i: nat)
    ensures Bit(Fold(x, s), i) == (Bit(x, i) + Bit(x, i + s)) % 2
  {
    BitXor(x, Shr(x, s), i);
    BitShr(x, s, i);
  }

  lemma UnfoldBit(y: nat, s: nat, i: nat)
    ensures Bit(Unfold(y, s), i) == (Bit(y, i) + Bit(y, i + s) + Bit(y, i + 2 * s)) % 2
  {
    FoldBit(y, s, i);
    BitXor(Fold(y, s), Shr(y, 2 * s), i);
    BitShr(y, 2 * s, i);
  }

  lemma Telescope(a: nat, b: nat, c: nat)
    requires a < 2 && b < 2 && c < 2
    ensures ((a + b) % 2 + (b + c) % 2 + (c + 0) % 2) % 2 == a
    ensures ((a + b + c) % 2 + (b + c + 0) % 2) % 2 == a
  {
  }

  /** The bits of x at i and two further distances, and none beyond. */
  lemma ThreeBits(x: nat, s: nat, w: nat, i: nat)
    requires x < Pow2(w) && w <= 3 * s
    ensures Bit(x, i) < 2 && Bit(x, i + s) < 2 && Bit(x, i + 2 * s) < 2 && Bit(x, i + 3 * s) == 0
  {
    BitAbove(x, w, i + 3 * s);
    BitRange(x, i);
    BitRange(x, i + s);
    BitRange(x, i + 2 * s);
  }

  lemma UnfoldFoldBit(x: nat, s: nat, w: nat, i: nat)
    requires x < Pow2(w) && w <= 3 * s
    ensures Bit(Unfold(Fold(x, s), s), i) == Bit(x, i)
  {
    ThreeBits(x, s, w, i);
    UnfoldBit(Fold(x, s), s, i);
    FoldBit(x, s, i);
    FoldBit(x, s, i + s);
    FoldBit(x, s, i + 2 * s);
    Telescope(Bit(x, i), Bit(x, i + s), Bit(x, i + 2 * s));
  }

  lemma FoldUnfoldBit(x: nat, s: nat, w: nat, i: nat)
    requires x < Pow2(w) && w <= 3 * s
    ensures Bit(Fold(Unfold(x, s), s), i) == Bit(x, i)
  {
    ThreeBits(x, s, w, i);
    FoldBit(Unfold(x, s), s, i);
    UnfoldBit(x, s, i);
    UnfoldBit(x, s, i + s);
    Telescope(Bit(x, i), Bit(x, i + s), Bit(x, i + 2 * s));
  }

  /** A xor-shift by at least a third of the width is undone by one more term, on both sides. */
  lemma FoldUndone(x: nat, s: nat, w: nat)
    requires x < Pow2(w) && w <= 3 * s
    ensures Unfold(Fold(x, s), s) == x && Fold(Unfold(x, s), s) == x
  {
    forall i: nat
      ensures Bit(Unfold(Fold(x, s), s), i) == Bit(x, i) && Bit(Fold(Unfold(x, s), s), i) == Bit(x, i)
    {
      UnfoldFoldBit(x, s, w, i);
      FoldUnfoldBit(x, s, w, i);
    }
    SameBits(Unfold(Fold(x, s), s), x);
    SameBits(Fold(Unfold(x, s), s), x);
  }

  /** With half the width it is its own inverse. */
  lemma FoldTwice(x: nat, s: nat, w: nat)
    requires x < Pow2(w) && w <= 2 * s
    ensures Fold(Fold(x, s), s) == x
  {
    forall i: nat
      ensures Bit(Fold(Fold(x, s), s), i) == Bit(x, i)
    {
      FoldBit(Fold(x, s), s, i);
      FoldBit(x, s, i);
      FoldBit(x, s, i + s);
      BitAbove(x, w, i + 2 * s);
      BitRange(x, i);
      BitRange(x, i + s);
    }
    SameBits(Fold(Fold(x, s), s), x);
  }

  lemma FoldBelow(x: nat, s: nat, w: nat)
    requires x < Pow2(w)
    ensures Fold(x, s) < Pow2(w) && Unfold(x, s) < Pow2(w)
  {
    ShrBelow(x, w, s);
    OrXorBelow(x, Shr(x, s), w);
    ShrBelow(x, w, 2 * s);
    OrXorBelow(Fold(x, s), Shr(x, 2 * s), w);
  }

  // ---------- undoing a multiplication ----------

  lemma Regroup(x: int, k: int, inverse: int, j: int, m: int, q: int)
    requires k * inverse == 1 + j * m
    ensures (x * k - q * m) * inverse == m * (x * j - q * inverse) + x
  {
    assert (x * k - q * m) * inverse == x * (k * inverse) - m * (q * inverse);
    assert x * (1 + j * m) == x + m * (x * j);
  }

  /** Multiplying by k and then by its inverse modulo m gives back every x below m. */
  lemma TimesUndone(x: nat, k: nat, inverse: nat, j: nat, m: nat)
    requires x < m && k * inverse == 1 + j * m
    ensures x * k % m * inverse % m == x
  {
    var q := x * k / m;
    assert x * k % m == x * k - q * m;
    Regroup(x, k, inverse, j, m, q);
    RemainderOf(x * k % m * inverse, m, x * j - q * inverse, x);
  }

  lemma RemainderOf(n: nat, m: nat, q: int, r: nat)
    requires r < m && n == m * q + r
    ensures n % m == r
  {
    if q < 0 {
      ProductBounds(m, q);
      assert false;
    }
    ModUnique(n, m, q, r);
  }

  const INT_FACTOR := 0x45d9f3b
  const INT_INVERSE := 0x119de1f3

  function Times32(x: nat, k: nat): (r: nat)
    ensures r < TWO32
  {
    x * k % TWO32
  }

  lemma IntFactor(x: nat)
    requires x < TWO32
    ensures Times32(Times32(x, INT_FACTOR), INT_INVERSE) == x && Times32(Times32(x, INT_INVERSE), INT_FACTOR) == x
  {
    TimesUndone(x, INT_FACTOR, INT_INVERSE, 5040344, TWO32);
    TimesUndone(x, INT_INVERSE, INT_FACTOR, 5040344, TWO32);
  }

  // ---------- hash_int ----------

  function IntRound(x: nat): nat {
    Times32(Fold(x, 16), INT_FACTOR)
  }

  function IntUnround(y: nat): nat {
    Fold(Times32(y, INT_INVERSE), 16)
  }

  function HashInt(key: nat): nat {
    Fold(IntRound(IntRound(key)), 16)
  }

  function UnhashInt(hash: nat): nat {
    IntUnround(IntUnround(Fold(hash, 16)))
  }

  lemma IntRoundUndone(x: nat)
    requires x < TWO32
    ensures IntRound(x) < TWO32 && IntUnround(x) < TWO32
    ensures IntUnround(IntRound(x)) == x && IntRound(IntUnround(x)) == x
  {
    Pow2Of64();
    var y := Times32(x, INT_INVERSE);
    FoldBelow(x, 16, 32);
    FoldBelow(y, 16, 32);
    IntFactor(Fold(x, 16));
    IntFactor(x);
    FoldTwice(x, 16, 32);
    FoldTwice(y, 16, 32);
  }

  /** hash_int is a bijection on 32-bit words. */
  lemma HashIntBijective(x: nat)
    requires x < TWO32
    ensures HashInt(x) < TWO32 && UnhashInt(x) < TWO32
    ensures UnhashInt(HashInt(x)) == x && HashInt(UnhashInt(x)) == x
  {
    Pow2Of64();
    var a := IntRound(x);
    var b, c := IntRound(a), Fold(x, 16);
    IntRoundUndone(x);
    IntRoundUndone(a);
    FoldBelow(b, 16, 32);
    FoldTwice(b, 16, 32);
    FoldBelow(x, 16, 32);
    FoldTwice(x, 16, 32);
    IntRoundUndone(c);
    IntRoundUndone(IntUnround(c));
  }

  // ---------- hash64_splitmix ----------

  function Times64(x: nat, k: nat): (r: nat)
    ensures r < TWO64
  {
    x * k % TWO64
  }

  const FIRST := 0xBF58476D1CE4E5B9
  const FIRST_INVERSE := 0x96de1b173f119089
  const SECOND := 0x94D049BB133111EB
  const SECOND_INVERSE := 0x319642b2d24d8ec3

  lemma SplitFactors(x: nat)
    requires x < TWO64
    ensures Times64(Times64(x, FIRST), FIRST_INVERSE) == x && Times64(Times64(x, FIRST_INVERSE), FIRST) == x
    ensures Times64(Times64(x, SECOND), SECOND_INVERSE) == x && Times64(Times64(x, SECOND_INVERSE), SECOND) == x
  {
    TimesUndone(x, FIRST, FIRST_INVERSE, 8125545580553827436, TWO64);
    TimesUndone(x, FIRST_INVERSE, FIRST, 8125545580553827436, TWO64);
    TimesUndone(x, SECOND, SECOND_INVERSE, 2077064247507883091, TWO64);
    TimesUndone(x, SECOND_INVERSE, SECOND, 2077064247507883091, TWO64);
  }

  /** One xor-shift and one multiplication. */
  function MixRound(x: nat, s: nat, k: nat): nat {
    Times64(Fold(x, s), k)
  }

  function MixUnround(y: nat, s: nat, inverse: nat): nat {
    Unfold(Times64(y, inverse), s)
  }

  function SplitMix(x: nat): nat {
    Fold(MixRound(MixRound(x, 30, FIRST), 27, SECOND), 31)
  }

  function UnsplitMix(y: nat): nat {
    MixUnround(MixUnround(Unfold(y, 31), 27, SECOND_INVERSE), 30, FIRST_INVERSE)
  }

  lemma MixRoundUndone(x: nat, s: nat, k: nat, inverse: nat)
    requires x < TWO64 && 22 <= s
    requires forall v: nat | v < TWO64 :: Times64(Times64(v, k), inverse) == v && Times64(Times64(v, inverse), k) == v
    ensures MixRound(x, s, k) < TWO64 && MixUnround(x, s, inverse) < TWO64
    ensures MixUnround(MixRound(x, s, k), s, inverse) == x && MixRound(MixUnround(x, s, inverse), s, k) == x
  {
    Pow2Of64();
    var y := Times64(x, inverse);
    FoldBelow(x, s, 64);
    FoldBelow(y, s, 64);
    FoldUndone(x, s, 64);
    FoldUndone(y, s, 64);
  }

  lemma FirstRound(x: nat)
    requires x < TWO64
    ensures MixRound(x, 30, FIRST) < TWO64 && MixUnround(x, 30, FIRST_INVERSE) < TWO64
    ensures MixUnround(MixRound(x, 30, FIRST), 30, FIRST_INVERSE) == x
         && MixRound(MixUnround(x, 30, FIRST_INVERSE), 30, FIRST) == x
  {
    forall v: nat | v < TWO64
      ensures Times64(Times64(v, FIRST), FIRST_INVERSE) == v && Times64(Times64(v, FIRST_INVERSE), FIRST) == v
    {
      SplitFactors(v);
    }
    MixRoundUndone(x, 30, FIRST, FIRST_INVERSE);
  }

  lemma SecondRound(x: nat)
    requires x < TWO64
    ensures MixRound(x, 27, SECOND) < TWO64 && MixUnround(x, 27, SECOND_INVERSE) < TWO64
    ensures MixUnround(MixRound(x, 27, SECOND), 27, SECOND_INVERSE) == x
         && MixRound(MixUnround(x, 27, SECOND_INVERSE), 27, SECOND) == x
  {
    forall v: nat | v < TWO64
      ensures Times64(Times64(v, SECOND), SECOND_INVERSE) == v && Times64(Times64(v, SECOND_INVERSE), SECOND) == v
    {
      SplitFactors(v);
    }
    MixRoundUndone(x, 27, SECOND, SECOND_INVERSE);
  }

  lemma LastFold(x: nat)
    requires x < TWO64
    ensures Fold(x, 31) < TWO64 && Unfold(x, 31) < TWO64
    ensures Unfold(Fold(x, 31), 31) == x && Fold(Unfold(x, 31), 31) == x
  {
    Pow2Of64();
    FoldBelow(x, 31, 64);
    FoldUndone(x, 31, 64);
  }

  /** hash64_splitmix is a bijection on 64-bit words. */
  lemma SplitMixBijective(x: nat)
    requires x < TWO64
    ensures SplitMix(x) < TWO64 && UnsplitMix(x) < TWO64
    ensures UnsplitMix(SplitMix(x)) == x && SplitMix(UnsplitMix(x)) == x
  {
    var a := MixRound(x, 30, FIRST);
    FirstRound(x);
    SecondRound(a);
    LastFold(MixRound(a, 27, SECOND));
    var c := Unfold(x, 31);
    LastFold(x);
    SecondRound(c);
    FirstRound(MixUnround(c, 27, SECOND_INVERSE));
  }

  // ---------- hash_weinberger and hash_elf ----------

  const HIGH := 0xF000_0000
  const LOW := 0x0FFF_FFFF

  /** A plain char, which is signed, as 32-bit unsigned arithmetic sees it. */
  function Widened(c: Byte): nat {
    if c < 128 then c else c + 0xFFFF_FF00
  }

  /** (hash << 4) + c */
  function Shifted(hash: nat, c: nat): nat {
    (16 * hash + c) % TWO32
  }

  /** The top nibble is folded back and masked off, if it is not zero. */
  function WeinbergerStep(h: nat): nat {
    var test := And(h, HIGH);
    if test != 0 then And(Xor(h, Shr(test, 24)), LOW) else h
  }

  /** The top nibble is folded back if it is not zero, and cleared in any case. */
  function ElfStep(h: nat): nat {
    var x := And(h, HIGH);
    AndNot(if x != 0 then Xor(h, Shr(x, 24)) else h, x)
  }

  function Weinberger(s: seq<Byte>): nat {
    if s == [] then 0 else WeinbergerStep(Shifted(Weinberger(s[..|s| - 1]), Widened(s[|s| - 1])))
  }

  function Elf(s: seq<Byte>): nat {
    if s == [] then 0 else ElfStep(Shifted(Elf(s[..|s| - 1]), Widened(s[|s| - 1])))
  }

  method HashWeinberger(s: seq<Byte>) returns (hash: nat)
    ensures hash == Weinberger(s)
  {
    hash := 0;
    for i := 0 to |s|
      invariant hash == Weinberger(s[..i])
    {
      hash := (hash * 16 + Widened(s[i])) % TWO32;
      var test := And(hash, HIGH);
      if test != 0 {
        hash := And(Xor(hash, Shr(test, 24)), LOW);
      }
      assert s[..i + 1][..i] == s[..i];
    }
    assert s[..|s|] == s;
  }

  method HashElf(s: seq<Byte>) returns (hash: nat)
    ensures hash == Elf(s)
  {
    hash := 0;
    for i := 0 to |s|
      invariant hash == Elf(s[..i])
    {
      hash := (hash * 16 + Widened(s[i])) % TWO32;
      var x := And(hash, HIGH);
      if x != 0 {
        hash := Xor(hash, Shr(x, 24));
      }
      hash := AndNot(hash, x);
      assert s[..i + 1][..i] == s[..i];
    }
    assert s[..|s|] == s;
  }

  function Ones(k: nat): nat {
    if k == 0 then 0 else 2 * Ones(k - 1) + 1
  }

  function ShiftedOnes(n: nat, k: nat): nat {
    if k == 0 then Ones(n) else 2 * ShiftedOnes(n, k - 1)
  }

  lemma {:induction false} BitOnes(n: nat, i: nat)
    ensures Bit(Ones(n), i) == if i < n then 1 else 0
  {
    if n == 0 {
      BitZero(i);
    } else if i > 0 {
      BitOnes(n - 1, i - 1);
    }
  }

  lemma {:induction false} BitShiftedOnes(n: nat, k: nat, i: nat)
    ensures Bit(ShiftedOnes(n, k), i) == if k <= i < n + k then 1 else 0
  {
    if k == 0 {
      BitOnes(n, i);
    } else {
      BitDouble(ShiftedOnes(n, k - 1), i);
      if i > 0 {
        BitShiftedOnes(n, k - 1, i - 1);
      }
    }
  }

  lemma Masks()
    ensures Ones(28) == LOW && ShiftedOnes(4, 28) == HIGH
  {
    assert Ones(7) == 127;
    assert Ones(14) == 0x3FFF;
    assert Ones(21) == 0x1F_FFFF;
    assert ShiftedOnes(4, 7) == 15 * 128;
    assert ShiftedOnes(4, 14) == 15 * 0x4000;
    assert ShiftedOnes(4, 21) == 15 * 0x20_0000;
  }

  lemma TestBit(h: nat, i: nat)
    requires h < TWO32
    ensures Bit(And(h, HIGH), i) == if i < 28 then 0 else Bit(h, i)
  {
    Masks();
    Pow2Values();
    BitAnd(h, HIGH, i);
    BitShiftedOnes(4, 28, i);
    BitRange(h, i);
    if i >= 32 {
      BitAbove(h, 32, i);
    }
  }

  lemma LowBit(z: nat, i: nat)
    ensures Bit(And(z, LOW), i) == if i < 28 then Bit(z, i) else 0
  {
    Masks();
    BitAnd(z, LOW, i);
    BitOnes(28, i);
    BitRange(z, i);
  }

  /** The bits of the test, 24 places down, are those of the top nibble. */
  lemma TestDown(h: nat, i: nat)
    requires h < TWO32
    ensures Bit(Shr(And(h, HIGH), 24), i) == if 4 <= i < 8 then Bit(h, i + 24) else 0
  {
    Pow2Values();
    BitShr(And(h, HIGH), 24, i);
    TestBit(h, i + 24);
    if i >= 8 {
      BitAbove(h, 32, i + 24);
    }
  }

  /** Above bit 27 the folded hash still has the bits of the test. */
  lemma FoldedBit(h: nat, i: nat)
    requires h < TWO32 && i >= 28
    ensures Bit(Xor(h, Shr(And(h, HIGH), 24)), i) == Bit(And(h, HIGH), i)
  {
    BitXor(h, Shr(And(h, HIGH), 24), i);
    TestDown(h, i);
    TestBit(h, i);
    BitRange(h, i);
  }

  /** Masking everything above bit 27 and clearing the tested bits come to the same. */
  lemma ClearedSame(h: nat, z: nat)
    requires h < TWO32
    requires forall i: nat :: i >= 28 ==> Bit(z, i) == Bit(And(h, HIGH), i)
    ensures And(z, LOW) == AndNot(z, And(h, HIGH))
  {
    var x := And(h, HIGH);
    forall i: nat
      ensures Bit(And(z, LOW), i) == Bit(AndNot(z, x), i)
    {
      LowBit(z, i);
      BitAndNot(z, x, i);
      TestBit(h, i);
      BitRange(z, i);
    }
    SameBits(And(z, LOW), AndNot(z, x));
  }

  /** Whatever came in, the two steps agree and leave 28 bits. */
  lemma StepsAgree(h: nat)
    requires h < TWO32
    ensures WeinbergerStep(h) == ElfStep(h) && WeinbergerStep(h) <= LOW
  {
    var x := And(h, HIGH);
    if x != 0 {
      forall i: nat | i >= 28
        ensures Bit(Xor(h, Shr(x, 24)), i) == Bit(x, i)
      {
        FoldedBit(h, i);
      }
      ClearedSame(h, Xor(h, Shr(x, 24)));
    } else {
      forall i: nat | i >= 28
        ensures Bit(h, i) == Bit(x, i)
      {
        TestBit(h, i);
      }
      ClearedSame(h, h);
      assert AndNot(h, x) == h;
    }
  }

  /** The two hashes of every string are equal and below 2^28. */
  lemma {:induction false} HashesAgree(s: seq<Byte>)
    ensures Weinberger(s) == Elf(s) && Weinberger(s) < 0x1000_0000
  {
    if s != [] {
      var init := s[..|s| - 1];
      HashesAgree(init);
      StepsAgree(Shifted(Weinberger(init), Widened(s[|s| - 1])));
    }
  }

  // ---------- what the string hashes compute ----------

  /** Bit i of a number with its top nibble folded back into bits 4 to 7 and cleared. */
  function FoldedBack(v: nat, i: nat): nat {
    if 4 <= i < 8 then (Bit(v, i) + Bit(v, i + 24)) % 2 else if i < 28 then Bit(v, i) else 0
  }

  lemma FoldedBits(h: nat, i: nat)
    requires h < TWO32
    ensures Bit(And(Xor(h, Shr(And(h, HIGH), 24)), LOW), i) == FoldedBack(h, i)
  {
    var t := Shr(And(h, HIGH), 24);
    LowBit(Xor(h, t), i);
    BitXor(h, t, i);
    TestDown(h, i);
    BitRange(h, i);
  }

  lemma UnfoldedBits(h: nat, i: nat)
    requires h < TWO32 && And(h, HIGH) == 0
    ensures Bit(h, i) == FoldedBack(h, i)
  {
    TestBit(h, i);
    TestBit(h, i + 24);
    BitZero(i);
    BitZero(i + 24);
    BitRange(h, i);
  }

  lemma StepBits(h: nat, i: nat)
    requires h < TWO32
    ensures Bit(WeinbergerStep(h), i) == FoldedBack(h, i)
  {
    if And(h, HIGH) != 0 {
      FoldedBits(h, i);
    } else {
      UnfoldedBits(h, i);
    }
  }

  /** The char c, which is signed, is added to 16 times the hash of the string before it, modulo
      2^32, and the top nibble of the sum is folded back. */
  lemma HashAppend(s: seq<Byte>, c: Byte, i: nat)
    ensures var v := (16 * Weinberger(s) + (if c < 128 then c else c - 256)) % 0x1_0000_0000;
      && Bit(Weinberger(s + [c]), i) == FoldedBack(v, i)
      && (v < 0x1000_0000 ==> Weinberger(s + [c]) == v)
      && Elf(s + [c]) == Weinberger(s + [c])
  {
    HashesAgree(s + [c]);
    var v := Shifted(Weinberger(s), Widened(c));
    LastStep(s, c);
    SignedSum(Weinberger(s), c);
    StepBits(v, i);
    if v < 0x1000_0000 {
      LowHasNoTest(v);
    }
  }

  lemma LastStep(s: seq<Byte>, c: Byte)
    ensures Weinberger(s + [c]) == WeinbergerStep(Shifted(Weinberger(s), Widened(c)))
  {
    assert (s + [c])[..|s|] == s;
  }

  lemma SignedSum(h: nat, c: Byte)
    ensures Shifted(h, Widened(c)) == (16 * h + (if c < 128 then c else c - 256)) % 0x1_0000_0000
  {
  }

  lemma LowHasNoTest(v: nat)
    requires v < 0x1000_0000
    ensures And(v, HIGH) == 0
  {
    Pow2Values();
    forall i: nat
      ensures Bit(And(v, HIGH), i) == Bit(0, i)
    {
      TestBit(v, i);
      BitZero(i);
      if i >= 28 {
        BitAbove(v, 28, i);
      }
    }
    SameBits(And(v, HIGH), 0);
  }

  /** The value of a string whose characters are the digits in base 16. */
  function Positional(s: seq<Byte>): nat {
    if s == [] then 0 else 16 * Positional(s[..|s| - 1]) + s[|s| - 1]
  }

  function Sixteens(n: nat): nat {
    if n == 0 then 1 else 16 * Sixteens(n - 1)
  }

  lemma {:induction false} PositionalBelow(s: seq<Byte>)
    requires forall i :: 0 <= i < |s| ==> s[i] < 128
    ensures 15 * Positional(s) <= 127 * (Sixteens(|s|) - 1)
  {
    if s != [] {
      PositionalBelow(s[..|s| - 1]);
    }
  }

  lemma SixAreShort(s: seq<Byte>)
    requires |s| <= 6 && forall i :: 0 <= i < |s| ==> s[i] < 128
    ensures Positional(s) < 0x1000_0000
  {
    PositionalBelow(s);
    SixteensGrow(|s|, 6);
    assert Sixteens(6) == 0x100_0000;
  }

  lemma AsciiAppend(s: seq<Byte>, c: Byte, h: nat)
    requires Weinberger(s) == h && c < 128 && 16 * h + c < 0x1000_0000
    ensures Weinberger(s + [c]) == 16 * h + c
  {
    AsciiSum(h, c);
    LastStep(s, c);
    LowHasNoTest(16 * h + c);
  }

  lemma AsciiSum(h: nat, c: Byte)
    requires c < 128 && 16 * h + c < 0x1000_0000
    ensures Shifted(h, Widened(c)) == 16 * h + c
  {
  }

  lemma {:induction false} ShortIsPositional(s: seq<Byte>, h: nat)
    requires |s| <= 6 && (forall i :: 0 <= i < |s| ==> s[i] < 128) && h == Positional(s)
    ensures Weinberger(s) == h
    decreases |s|
  {
    if s != [] {
      var init, c := s[..|s| - 1], s[|s| - 1];
      var g := Positional(init);
      ShortIsPositional(init, g);
      SixAreShort(s);
      AsciiAppend(init, c, g);
      assert init + [c] == s;
    }
  }

  /** Up to six ASCII characters hash to just that. */
  lemma ShortHash(s: seq<Byte>)
    requires |s| <= 6 && forall i :: 0 <= i < |s| ==> s[i] < 128
    ensures Weinberger(s) == Elf(s) == Positional(s)
  {
    ShortIsPositional(s, Positional(s));
    HashesAgree(s);
  }

  lemma {:induction false} SixteensGrow(m: nat, n: nat)
    requires m <= n
    ensures Sixteens(m) <= Sixteens(n)
  {
    if m < n {
      SixteensGrow(m, n - 1);
    }
  }

  // ---------- what the integer mixers compute ----------

  /** y is x with bit i + s xored into bit i. */
  ghost predicate IsFold(y: nat, x: nat, s: nat) {
    forall i: nat :: Bit(y, i) == (Bit(x, i) + Bit(x, i + s)) % 2
  }

  lemma FoldIsFold(x: nat, s: nat)
    ensures IsFold(Fold(x, s), x, s)
  {
    forall i: nat
      ensures Bit(Fold(x, s), i) == (Bit(x, i) + Bit(x, i + s)) % 2
    {
      FoldBit(x, s, i);
    }
  }

  /** hash_int step by step. */
  lemma HashIntSteps(x: nat) returns (a: nat, b: nat)
    requires x < TWO32
    ensures IsFold(a, x, 16) && IsFold(b, a * 0x45D9F3B % 0x1_0000_0000, 16)
    ensures IsFold(HashInt(x), b * 0x45D9F3B % 0x1_0000_0000, 16)
  {
    a := Fold(x, 16);
    b := Fold(Times32(a, INT_FACTOR), 16);
    FoldIsFold(x, 16);
    FoldIsFold(Times32(a, INT_FACTOR), 16);
    FoldIsFold(Times32(b, INT_FACTOR), 16);
  }

  /** hash64_splitmix step by step. */
  lemma SplitMixSteps(x: nat) returns (a: nat, b: nat)
    requires x < TWO64
    ensures IsFold(a, x, 30) && IsFold(b, a * 0xBF58476D1CE4E5B9 % 0x1_0000_0000_0000_0000, 27)
    ensures IsFold(SplitMix(x), b * 0x94D049BB133111EB % 0x1_0000_0000_0000_0000, 31)
  {
    a := Fold(x, 30);
    b := Fold(Times64(a, FIRST), 27);
    FoldIsFold(x, 30);
    FoldIsFold(Times64(a, FIRST), 27);
    FoldIsFold(Times64(b, SECOND), 31);
  }
}
