/** What the arithmetic commands compute, in terms of the built-in operators: C's 32-bit
    wrapping product, truncating division and arithmetic shift. */
module Arithmetic {
  import opened Bits
  import opened Machine

  /** Equal modulo 2^32. */
  predicate SameWord(w: Word, x: int) {
    (w - x) % 0x1_0000_0000 == 0
  }

  lemma WrapIsSameWord(x: int)
    ensures SameWord(Wrap(x), x)
  {
  }

  lemma MulWraps(x: Word, y: Word)
    ensures var r := Binary(MUL, x, y);
      r.Some? && SameWord(r.value, x as int * y as int)
  {
    ProductIsProduct(x, y);
    WrapIsSameWord(x as int * y as int);
  }

  /** The quotient rounds toward zero and the remainder has the sign of the dividend; both
      are missing exactly where C gives them no meaning. */
  lemma DivModTruncate(x: Word, y: Word)
    ensures var q, r := Binary(DIV, x, y), Binary(MOD, x, y);
      && (q.None? <==> y == 0 || (x == MINWORD && y == -1)) && (r.None? <==> q.None?)
      && (q.Some? ==>
            && x as int == q.value as int * y as int + r.value
            && Abs(r.value) < Abs(y) && (r.value < 0 ==> x < 0) && (r.value > 0 ==> x > 0))
  {
    if Binary(DIV, x, y).Some? {
      var q, r := Div(Abs(x), Abs(y)), Mod(Abs(x), Abs(y));
      DivModSplit(Abs(x), Abs(y));
      QuotientFits(x, y, q, r);
      SignedSplit(x, y, q, r);
    }
  }

  function Signed(n: nat, negative: bool): int {
    if negative then 0 - n else n
  }

  lemma QuotientFits(x: Word, y: Word, q: nat, r: nat)
    requires y != 0 && !(x == MINWORD && y == -1) && Abs(x) == Abs(y) * q + r
    ensures MINWORD <= Signed(q, (x < 0) != (y < 0)) <= MAXWORD
  {
    if Abs(y) >= 2 {
      assert Abs(y) * q >= 2 * q;
    }
  }

  lemma SignedSplit(x: int, y: int, q: nat, r: nat)
    requires Abs(x) == Abs(y) * q + r
    ensures x == Signed(q, (x < 0) != (y < 0)) * y + Signed(r, x < 0)
  {
    if (x < 0) != (y < 0) {
      assert (0 - q) * y == 0 - q * y;
    }
  }

  /** Shifting left multiplies by a power of two, and wraps; shifting right divides by it,
      rounding down. */
  lemma ShiftsScale(x: Word, k: Word)
    ensures var l, r := Binary(SHL, x, k), Binary(SHR, x, k);
      && (l.Some? <==> 0 <= k < 32) && (r.Some? <==> 0 <= k < 32)
      && (0 <= k < 32 ==>
            SameWord(l.value, x * Pow2(k)) && r.value * Pow2(k) <= x < (r.value + 1) * Pow2(k))
  {
    if 0 <= k < 32 {
      ShlIsProduct(x, k);
      WrapIsSameWord(Shl(x, k));
      SarRoundsDown(x, k);
      SarStays(x, k);
    }
  }

  lemma {:induction false} SarStays(x: int, k: nat)
    requires MINWORD <= x <= MAXWORD
    ensures MINWORD <= Sar(x, k) <= MAXWORD
    decreases k
  {
    if k > 0 {
      SarStays(x / 2, k - 1);
    }
  }

  // ---------- bit by bit ----------

  lemma WrapKeeps(n: nat)
    requires n < TWO32
    ensures Unsigned(Wrap(n)) == n
  {
  }

  lemma BitwiseByBit(x: Word, y: Word, i: nat)
    ensures var a, b := Unsigned(x), Unsigned(y);
      && Bit(Unsigned(Wrap(Or(a, b))), i) == Max(Bit(a, i), Bit(b, i))
      && Bit(Unsigned(Wrap(Xor(a, b))), i) == (Bit(a, i) + Bit(b, i)) % 2
      && Bit(Unsigned(Wrap(And(a, b))), i) == Min(Bit(a, i), Bit(b, i))
  {
    var a, b := Unsigned(x), Unsigned(y);
    Pow2Values();
    OrXorBelow(a, b, 32);
    WrapKeeps(Or(a, b));
    WrapKeeps(Xor(a, b));
    WrapKeeps(And(a, b));
    BitOr(a, b, i);
    BitXor(a, b, i);
    BitAnd(a, b, i);
    BitRange(a, i);
    BitRange(b, i);
  }

  lemma {:induction false} BitShl(a: nat, k: nat, i: nat)
    ensures Shl(a, k) >= 0 && Bit(Shl(a, k), i) == if i < k then 0 else Bit(a, i - k)
    decreases k
  {
    if k > 0 {
      BitShl(2 * a, k - 1, i);
      BitDouble(a, if i < k then 0 else i - (k - 1));
    }
  }

  lemma {:induction false} BitLow(a: nat, k: nat, i: nat)
    ensures Bit(a % Pow2(k), i) == if i < k then Bit(a, i) else 0
    decreases k
  {
    if k == 0 {
      assert a % 1 == 0;
      BitZero(i);
    } else {
      HalfLow(a, Pow2(k - 1));
      if i > 0 {
        BitLow(a / 2, k - 1, i - 1);
      }
    }
  }

  lemma HalfLow(a: nat, p: nat)
    requires p > 0
    ensures a % (2 * p) % 2 == a % 2 && a % (2 * p) / 2 == a / 2 % p
  {
    var q, r := a / 2 / p, a / 2 % p;
    assert a / 2 == q * p + r;
    assert a == q * (2 * p) + (2 * r + a % 2);
    ModUnique(a, 2 * p, q, 2 * r + a % 2);
  }

  /** The bits of a rotated word. */
  lemma RotatesBit(x: Word, k: Word, i: nat)
    requires 1 <= k <= 31 && i < 32
    ensures Rotate(x, k).Some?
    ensures Bit(Unsigned(Rotate(x, k).value), i) == Bit(Unsigned(x), if i < k then i + 32 - k else i - k)
  {
    var a := Unsigned(x);
    Pow2Values();
    BitShl(a, k, i);
    BitLow(Shl(a, k), 32, i);
    BitShr(a, 32 - k, i);
    BitOr(Shl(a, k) % TWO32, Shr(a, 32 - k), i);
    BitRange(a, if i < k then i + 32 - k else i - k);
    ShrBelow(a, 32, 32 - k);
    OrXorBelow(Shl(a, k) % TWO32, Shr(a, 32 - k), 32);
    WrapKeeps(Or(Shl(a, k) % TWO32, Shr(a, 32 - k)));
    if i >= k {
      BitAbove(a, 32, i + 32 - k);
    }
  }

  // ---------- what the commands compute ----------

  /** The result w of a command with two operands. */
  ghost predicate Computes(op: Byte, x: Word, y: Word, w: Word) {
    var a, b, c := Unsigned(x), Unsigned(y), Unsigned(w);
    if op == SUM then SameWord(w, x + y)
    else if op == DIF then SameWord(w, x - y)
    else if op == MUL then SameWord(w, x as int * y as int)
    else if op == DIV then exists r: int :: Divides(x, y, w, r)
    else if op == MOD then exists q: int :: Divides(x, y, q, w)
    else if op == OR then forall i: nat :: Bit(c, i) == Max(Bit(a, i), Bit(b, i))
    else if op == XOR then forall i: nat :: Bit(c, i) == (Bit(a, i) + Bit(b, i)) % 2
    else if op == AND then forall i: nat :: Bit(c, i) == Min(Bit(a, i), Bit(b, i))
    else if op == SHL then y >= 0 && SameWord(w, x * Pow2(y))
    else if op == SHR then y >= 0 && w * Pow2(y) <= x < (w + 1) * Pow2(y)
    else if op == ROL || op == ROR then
      1 <= y <= 31 && forall i: nat :: i < 32 ==> Bit(c, i) == Bit(a, if i < y then i + 32 - y else i - y)
    else if op == BOR then w == (if x == 0 && y == 0 then 0 else 1)
    else op == BAND && w == (if x == 0 || y == 0 then 0 else 1)
  }

  /** Quotient and truncated remainder, which is zero or has the sign of the dividend. */
  predicate Divides(x: int, y: int, q: int, r: int) {
    x == q * y + r && Abs(r) < Abs(y) && (r < 0 ==> x < 0) && (r > 0 ==> x > 0)
  }

  /** Where C gives the command a meaning. */
  predicate Meaningful(op: Byte, x: Word, y: Word) {
    if op == DIV || op == MOD then y != 0 && !(x == MINWORD && y == -1)
    else if op == SHL || op == SHR then 0 <= y <= 31
    else if op == ROL || op == ROR then 1 <= y <= 31
    else true
  }

  lemma DivModCompute(x: Word, y: Word)
    requires Meaningful(DIV, x, y)
    ensures Binary(DIV, x, y).Some? && Computes(DIV, x, y, Binary(DIV, x, y).value)
    ensures Binary(MOD, x, y).Some? && Computes(MOD, x, y, Binary(MOD, x, y).value)
  {
    DivModTruncate(x, y);
    var q, r: int := Binary(DIV, x, y).value, Binary(MOD, x, y).value;
    assert Divides(x, y, q, r);
  }

  lemma BitwiseCompute(op: Byte, x: Word, y: Word)
    requires op == OR || op == XOR || op == AND
    ensures Computes(op, x, y, Binary(op, x, y).value)
  {
    forall i: nat
      ensures var a, b := Unsigned(x), Unsigned(y);
        && (op == OR ==> Bit(Unsigned(Wrap(Or(a, b))), i) == Max(Bit(a, i), Bit(b, i)))
        && (op == XOR ==> Bit(Unsigned(Wrap(Xor(a, b))), i) == (Bit(a, i) + Bit(b, i)) % 2)
        && (op == AND ==> Bit(Unsigned(Wrap(And(a, b))), i) == Min(Bit(a, i), Bit(b, i)))
    {
      BitwiseByBit(x, y, i);
    }
  }

  lemma RotateComputes(op: Byte, x: Word, y: Word)
    requires (op == ROL || op == ROR) && 1 <= y <= 31
    ensures Rotate(x, y).Some? && Computes(op, x, y, Rotate(x, y).value)
  {
    forall i: nat | i < 32
      ensures Rotate(x, y).Some?
      ensures Bit(Unsigned(Rotate(x, y).value), i) == Bit(Unsigned(x), if i < y then i + 32 - y else i - y)
    {
      RotatesBit(x, y, i);
    }
    RotatesBit(x, y, 0);
  }

  /** Every command with two operands has a result exactly where C gives it one. */
  lemma BinaryComputes(op: Byte, x: Word, y: Word)
    requires IsBinary(op)
    ensures Binary(op, x, y).Some? <==> Meaningful(op, x, y)
    ensures Meaningful(op, x, y) ==> Computes(op, x, y, Binary(op, x, y).value)
  {
    if op == SUM {
      WrapIsSameWord(x + y);
    } else if op == DIF {
      WrapIsSameWord(x - y);
    } else if op == MUL {
      MulWraps(x, y);
    } else if op == DIV || op == MOD {
      DivModTruncate(x, y);
      if Meaningful(op, x, y) {
        DivModCompute(x, y);
      }
    } else if op == OR || op == XOR || op == AND {
      BitwiseCompute(op, x, y);
    } else if op == SHL || op == SHR {
      ShiftsScale(x, y);
    } else if (op == ROL || op == ROR) && Meaningful(op, x, y) {
      RotateComputes(op, x, y);
    }
  }

  /** The result w of a command with one operand. */
  ghost predicate ComputesOne(op: Byte, x: Word, w: Word) {
    if op == INC then SameWord(w, x + 1)
    else if op == DEC then SameWord(w, x - 1)
    else if op == NOT then forall i: nat :: i < 32 ==> Bit(Unsigned(w), i) == 1 - Bit(Unsigned(x), i)
    else op == BNOT && w == (if x == 0 then 1 else 0)
  }

  lemma {:induction false} BitFlips(a: nat, k: nat, i: nat)
    requires a < Pow2(k) && i < k
    ensures Bit(Pow2(k) - 1 - a, i) == 1 - Bit(a, i)
    decreases k
  {
    if i > 0 {
      BitFlips(a / 2, k - 1, i - 1);
      assert (Pow2(k) - 1 - a) / 2 == Pow2(k - 1) - 1 - a / 2;
    }
  }

  lemma UnaryComputes(op: Byte, x: Word)
    requires IsUnary(op)
    ensures ComputesOne(op, x, Unary(op, x))
  {
    Pow2Values();
    if op == NOT {
      assert Unsigned(Unary(NOT, x)) == TWO32 - 1 - Unsigned(x);
      forall i: nat | i < 32
        ensures Bit(Unsigned(Unary(NOT, x)), i) == 1 - Bit(Unsigned(x), i)
      {
        BitFlips(Unsigned(x), 32, i);
      }
    }
  }
}
