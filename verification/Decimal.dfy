/** Source text and decimal numbers in it: what printf prints for %d and %u, and what
    strtoul reads back. */
module Decimal {
  import opened Bits

  const NUL := '\0'

  /** The character at a position; the text is followed by a NUL. */
  function At(code: string, p: nat): char {
    if p < |code| then code[p] else NUL
  }

  /** The text w stands at position p. */
  predicate Holds(code: string, p: nat, w: string) {
    p + |w| <= |code| && forall i :: 0 <= i < |w| ==> code[p + i] == w[i]
  }

  lemma HoldsSlice(code: string, p: nat, w: string)
    requires Holds(code, p, w)
    ensures code[p..p + |w|] == w
  {
  }

  lemma HoldsSplit(code: string, p: nat, a: string, b: string)
    ensures Holds(code, p, a + b) <==> Holds(code, p, a) && Holds(code, p + |a|, b)
  {
    if Holds(code, p, a + b) {
      forall i | 0 <= i < |a|
        ensures code[p + i] == a[i]
      {
        assert (a + b)[i] == a[i];
      }
      forall i | 0 <= i < |b|
        ensures code[p + |a| + i] == b[i]
      {
        assert (a + b)[|a| + i] == b[i];
      }
    }
  }

  lemma HoldsAt(code: string, p: nat, w: string, i: nat)
    requires Holds(code, p, w) && i < |w|
    ensures At(code, p + i) == w[i] == code[p + i]
  {
  }

  // ---------- digits ----------

  predicate IsDigit(c: char) {
    '0' <= c <= '9'
  }

  predicate AllDigits(s: string) {
    forall i :: 0 <= i < |s| ==> IsDigit(s[i])
  }

  function Digit(d: nat): (c: char)
    requires d < 10
    ensures IsDigit(c) && c as int - '0' as int == d
  {
    ('0' as int + d) as char
  }

  function PrintNat(n: nat): (s: string)
    ensures |s| > 0 && AllDigits(s)
  {
    if n < 10 then [Digit(n)] else PrintNat(n / 10) + [Digit(n % 10)]
  }

  function PrintInt(x: int): (s: string)
    ensures |s| > 0
  {
    if x < 0 then "-" + PrintNat(-x) else PrintNat(x)
  }

  /** The loop acc = 10 * acc + digit over a run of digits. */
  function ValueOf(s: string): nat
    requires AllDigits(s)
  {
    if s == [] then 0 else 10 * ValueOf(s[..|s| - 1]) + (s[|s| - 1] as int - '0' as int)
  }

  lemma {:induction false} ValueOfPrint(n: nat)
    ensures ValueOf(PrintNat(n)) == n
  {
    if n >= 10 {
      ValueOfPrint(n / 10);
      assert PrintNat(n)[..|PrintNat(n)| - 1] == PrintNat(n / 10);
    }
  }

  function DigitsEnd(code: string, p: nat): (q: nat)
    requires p <= |code|
    ensures p <= q <= |code| && AllDigits(code[p..q])
    decreases |code| - p
  {
    if p < |code| && IsDigit(code[p]) then
      var q := DigitsEnd(code, p + 1);
      assert code[p..q] == [code[p]] + code[p + 1..q];
      q
    else p
  }

  lemma {:induction false} DigitsEndAt(code: string, p: nat, w: string)
    requires Holds(code, p, w) && AllDigits(w) && !IsDigit(At(code, p + |w|))
    ensures DigitsEnd(code, p) == p + |w|
    decreases |w|
  {
    if w != [] {
      HoldsAt(code, p, w, 0);
      assert w == w[..1] + w[1..];
      HoldsSplit(code, p, w[..1], w[1..]);
      DigitsEndAt(code, p + 1, w[1..]);
    }
  }

  // ---------- strtoul, base 10 ----------

  predicate IsSpace(c: char) {
    c == ' ' || c == '\t' || c == '\n' || c == '\U{0B}' || c == '\U{0C}' || c == '\r'
  }

  function SkipWhite(code: string, p: nat): (q: nat)
    requires p <= |code|
    ensures p <= q <= |code|
    decreases |code| - p
  {
    if p < |code| && IsSpace(code[p]) then SkipWhite(code, p + 1) else p
  }

  /** The value of the run of digits at p, 0 for none. */
  function NumberAt(code: string, p: nat): nat {
    if p <= |code| then ValueOf(code[p..DigitsEnd(code, p)]) else 0
  }

  /** strtoul on the text from p: a sign negates modulo 2^64, a value beyond 64 bits
      saturates, and no digits at all give 0. */
  function StrToUl(code: string, p: nat): (v: nat)
    requires p <= |code|
    ensures v < TWO64
  {
    var s := SkipWhite(code, p);
    var neg := At(code, s) == '-';
    var v := NumberAt(code, if neg || At(code, s) == '+' then s + 1 else s);
    if v >= TWO64 then TWO64 - 1 else if neg && v > 0 then TWO64 - v else v
  }

  lemma NumberRead(code: string, p: nat, w: string)
    requires Holds(code, p, w) && AllDigits(w) && !IsDigit(At(code, p + |w|))
    ensures NumberAt(code, p) == ValueOf(w)
  {
    DigitsEndAt(code, p, w);
    HoldsSlice(code, p, w);
  }

  /** The value of a number without its sign, the biggest of 64 bits where it is too big. */
  function Saturated(v: nat): nat {
    if v >= 0x1_0000_0000_0000_0000 then 0xFFFF_FFFF_FFFF_FFFF else v
  }

  /** Any number of digits where no digit follows, with a plus before them or without. */
  lemma DigitsRead(code: string, p: nat, w: string)
    requires p <= |code| && w != [] && AllDigits(w) && Holds(code, p, w) && !IsDigit(At(code, p + |w|))
    ensures StrToUl(code, p) == Saturated(ValueOf(w))
    ensures p > 0 && code[p - 1] == '+' ==> StrToUl(code, p - 1) == Saturated(ValueOf(w))
  {
    HoldsAt(code, p, w, 0);
    NumberRead(code, p, w);
    assert SkipWhite(code, p) == p;
    if p > 0 && code[p - 1] == '+' {
      assert SkipWhite(code, p - 1) == p - 1;
    }
  }

  /** A minus negates the numbers of 64 bits modulo 2^64. */
  lemma NegativeRead(code: string, p: nat, w: string)
    requires 0 < p <= |code| && code[p - 1] == '-' && AllDigits(w) && Holds(code, p, w) && !IsDigit(At(code, p + |w|))
    ensures var v := ValueOf(w);
      StrToUl(code, p - 1) == if v >= 0x1_0000_0000_0000_0000 then 0xFFFF_FFFF_FFFF_FFFF
                              else if v == 0 then 0 else 0x1_0000_0000_0000_0000 - v
  {
    NumberRead(code, p, w);
    assert SkipWhite(code, p - 1) == p - 1;
  }

  /** The value as the assembler stores it, cut to a 32-bit word. */
  function ParseWord(code: string, p: nat): Word
    requires p <= |code|
  {
    Wrap(StrToUl(code, p))
  }

  lemma WrapNegative(v: nat)
    requires 0 < v <= TWO31
    ensures Wrap(TWO64 - v) == 0 - v
  {
  }

  lemma NumberPrinted(code: string, p: nat, n: nat)
    requires Holds(code, p, PrintNat(n)) && !IsDigit(At(code, p + |PrintNat(n)|))
    ensures NumberAt(code, p) == n
  {
    DigitsEndAt(code, p, PrintNat(n));
    HoldsSlice(code, p, PrintNat(n));
    ValueOfPrint(n);
  }

  lemma ParseNegative(code: string, p: nat, n: nat)
    requires Holds(code, p, "-" + PrintNat(n)) && !IsDigit(At(code, p + 1 + |PrintNat(n)|))
    requires 0 < n <= TWO31
    ensures StrToUl(code, p) == TWO64 - n
  {
    HoldsSplit(code, p, "-", PrintNat(n));
    HoldsAt(code, p, "-", 0);
    NumberPrinted(code, p + 1, n);
    assert SkipWhite(code, p) == p;
  }

  lemma ParsePositive(code: string, p: nat, n: nat)
    requires Holds(code, p, PrintNat(n)) && !IsDigit(At(code, p + |PrintNat(n)|)) && n < TWO64
    ensures StrToUl(code, p) == n
  {
    HoldsAt(code, p, PrintNat(n), 0);
    NumberPrinted(code, p, n);
    assert SkipWhite(code, p) == p;
  }

  /** Every 32-bit word printed with %d is read back unchanged, wherever a non-digit follows. */
  lemma ParsePrinted(code: string, p: nat, x: Word)
    requires Holds(code, p, PrintInt(x)) && !IsDigit(At(code, p + |PrintInt(x)|))
    ensures ParseWord(code, p) == x
  {
    if x < 0 {
      ParseNegative(code, p, 0 - x as int);
      WrapNegative(0 - x as int);
    } else {
      ParsePositive(code, p, x);
    }
  }
}
