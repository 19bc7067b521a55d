/** What the parser reads of a token: two lines whose tokens read alike are parsed alike,
    whatever sources they stand in. */
module AlikeTokens {
  import opened Bits
  import opened Decimal
  import opened Machine
  import opened Lexer
  import opened Parser

  /** The text up to the next quote. */
  function Quoted(code: string, p: nat): Option<string> {
    FindCharAhead(code, p, '"');
    match FindChar(code, p, '"')
    case None => None
    case Some(e) => Some(code[p..e])
  }

  /** Same kind and text, and as far as its kind is read so the same number or string. */
  predicate Alike(c1: string, t: Token, c2: string, u: Token)
    requires InSource(c1, t) && InSource(c2, u)
  {
    && t.kind == u.kind && Text(c1, t) == Text(c2, u)
    && (t.kind == Name || t.kind == LiteralNum ==> StrToUl(c1, t.start) == StrToUl(c2, u.start))
    && (t.kind == LiteralStr ==> Quoted(c1, t.start + 1) == Quoted(c2, u.start + 1))
  }

  predicate AllAlike(c1: string, s: seq<Token>, c2: string, t: seq<Token>) {
    && |s| == |t| && AllIn(c1, s) && AllIn(c2, t)
    && forall i {:trigger s[i]} {:trigger t[i]} :: 0 <= i < |s| ==> Alike(c1, s[i], c2, t[i])
  }

  predicate SameToken(c1: string, s: seq<Token>, c2: string, t: seq<Token>, asm: Asm, i: nat)
    requires AllIn(c1, s) && AllIn(c2, t) && |s| == |t|
  {
    i < |s| ==> s[i].kind == t[i].kind && WordAt(c1, asm, s, i) == WordAt(c2, asm, t, i)
  }

  lemma AlikeWord(c1: string, s: seq<Token>, c2: string, t: seq<Token>, asm: Asm, i: nat)
    requires AllAlike(c1, s, c2, t)
    ensures SameToken(c1, s, c2, t, asm, i)
  {
    if i < |s| {
      assert Alike(c1, s[i], c2, t[i]);
    }
  }

  /** Operands depend on two tokens. */
  lemma OperandsFrom(c1: string, s: seq<Token>, c2: string, t: seq<Token>, asm: Asm, i: nat)
    requires AllIn(c1, s) && AllIn(c2, t) && |s| == |t|
    requires SameToken(c1, s, c2, t, asm, i) && SameToken(c1, s, c2, t, asm, i + 1)
    ensures ParseRvalue(c1, asm, s, i) == ParseRvalue(c2, asm, t, i)
    ensures ParseLvalue(c1, asm, s, i) == ParseLvalue(c2, asm, t, i)
  {
  }

  lemma AlikeOperands(c1: string, s: seq<Token>, c2: string, t: seq<Token>, asm: Asm, i: nat)
    requires AllAlike(c1, s, c2, t)
    ensures ParseRvalue(c1, asm, s, i) == ParseRvalue(c2, asm, t, i)
    ensures ParseLvalue(c1, asm, s, i) == ParseLvalue(c2, asm, t, i)
  {
    AlikeWord(c1, s, c2, t, asm, i);
    AlikeWord(c1, s, c2, t, asm, i + 1);
    OperandsFrom(c1, s, c2, t, asm, i);
  }

  /** Equal operands make equal commands. */
  lemma TwoFrom(c1: string, s: seq<Token>, c2: string, t: seq<Token>, asm: Asm, op: Byte, branch: bool, l: Operand)
    requires AllIn(c1, s) && AllIn(c2, t) && ParseLvalue(c1, asm, s, 1) == l == ParseLvalue(c2, asm, t, 1)
    requires l.Operand? ==> ParseRvalue(c1, asm, s, l.last + 1) == ParseRvalue(c2, asm, t, l.last + 1)
    ensures TwoOperands(c1, asm, s, 1, op, branch) == TwoOperands(c2, asm, t, 1, op, branch)
  {
    TwoOperandsUnfold(c1, asm, s, 1, op, branch);
    TwoOperandsUnfold(c2, asm, t, 1, op, branch);
  }

  lemma AlikeTwo(c1: string, s: seq<Token>, c2: string, t: seq<Token>, asm: Asm, op: Byte, branch: bool)
    requires AllAlike(c1, s, c2, t)
    ensures TwoOperands(c1, asm, s, 1, op, branch) == TwoOperands(c2, asm, t, 1, op, branch)
  {
    AlikeOperands(c1, s, c2, t, asm, 1);
    var l := ParseLvalue(c1, asm, s, 1);
    if l.Operand? {
      AlikeOperands(c1, s, c2, t, asm, l.last + 1);
    }
    TwoFrom(c1, s, c2, t, asm, op, branch, l);
  }

  lemma AlikeDeclare(c1: string, s: seq<Token>, c2: string, t: seq<Token>, asm: Asm)
    requires AllAlike(c1, s, c2, t) && s != []
    ensures ParseDeclare(c1, asm, s) == ParseDeclare(c2, asm, t)
  {
    assert forall i :: 1 <= i < |s| && i < 5 ==> Alike(c1, s[i], c2, t[i]);
  }

  lemma AlikeAct(c1: string, s: seq<Token>, c2: string, t: seq<Token>, asm: Asm, m: nat, n: nat, a: Action)
    requires AllAlike(c1, s, c2, t) && s != [] && s[0].kind != Label
    ensures Act(c1, asm, s, m, a) == Act(c2, asm, t, n, a)
  {
    assert Alike(c1, s[0], c2, t[0]);
    match a
    case DoDeclare => AlikeDeclare(c1, s, c2, t, asm);
    case DoInitr => assert |s| > 1 ==> Alike(c1, s[1], c2, t[1]);
    case NoArg(_) =>
    case OneArg(_) => AlikeOperands(c1, s, c2, t, asm, 1);
    case DoJmpi => AlikeOperands(c1, s, c2, t, asm, 1);
    case TwoArg(op) => AlikeTwo(c1, s, c2, t, asm, op, false);
    case DoBranch(op) => AlikeTwo(c1, s, c2, t, asm, op, true);
  }

  /** An unlabelled line is parsed the same from both sources. */
  lemma AlikeLine(c1: string, s: seq<Token>, c2: string, t: seq<Token>, asm: Asm, m: nat, n: nat)
    requires AllAlike(c1, s, c2, t) && s != [] && s[0].kind != Label
    ensures ParseLine(c1, asm, s, m) == ParseLine(c2, asm, t, n)
  {
    assert Alike(c1, s[0], c2, t[0]);
    var a := ActionOf(Text(c1, s[0]));
    if a.Some? {
      AlikeAct(c1, s, c2, t, asm, m, n, a.value);
    }
  }

  predicate AlikeLines(c1: string, s: Lines, c2: string, t: Lines) {
    |s| == |t| && forall i :: 0 <= i < |s| ==> AllAlike(c1, s[i], c2, t[i])
  }

  predicate AllUnlabelled(lines: Lines) {
    forall i :: 0 <= i < |lines| ==> lines[i] != [] && lines[i][0].kind != Label
  }

  /** Unlabelled lines that read alike do the same to the assembler. */
  lemma {:induction false} AlikeParses(c1: string, s: Lines, c2: string, t: Lines, asm: Asm, m: nat, n: nat)
    requires Parseable(c1, s) && Parseable(c2, t) && AlikeLines(c1, s, c2, t) && AllUnlabelled(s)
    ensures ParseLines(c1, asm, s, m) == ParseLines(c2, asm, t, n)
    decreases |s|
  {
    if s != [] {
      AlikeLine(c1, s[0], c2, t[0], asm, m, n);
      var r := ParseLine(c1, asm, s[0], m);
      if r.Parsed? {
        AlikeParses(c1, s[1..], c2, t[1..], r.asm, m, n);
      }
    }
  }
}
