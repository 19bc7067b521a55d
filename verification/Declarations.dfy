/** The cells that declared names own, over every source the assembler accepts. */
module Declarations {
  import opened Bits
  import opened Decimal
  import opened Machine
  import opened Lexer
  import opened Parser

  /** declare name, ? with nothing behind it, or with ?, "text". */
  predicate Owns(code: string, tokens: seq<Token>)
    requires tokens != [] && AllIn(code, tokens)
  {
    && tokens[0].kind != Label && ActionOf(Text(code, tokens[0])) == Some(DoDeclare)
    && |tokens| >= 3 && tokens[1].kind == Name && tokens[2].kind == Auto
  }

  /** The text between the quotes of a declaration. */
  function Initial(code: string, tokens: seq<Token>): string
    requires |tokens| > 4
  {
    var s := tokens[4].start + 1;
    FindCharAhead(code, s, '"');
    match FindChar(code, s, '"')
    case None => ""
    case Some(e) => code[s..e]
  }

  /** One cell for a plain variable, one for each character and one for the zero of a string. */
  function Cells(code: string, tokens: seq<Token>): nat {
    if |tokens| <= 4 then 1 else |Initial(code, tokens)| + 1
  }

  /** What a name owns in the end: its cells start where it stands. */
  predicate Range(asm: Asm, name: string, first: nat) {
    name in asm.declare && asm.declare[name] == Declared(false, first)
  }

  /** Free cells and names are only added to. */
  predicate Keeps(a: Asm, b: Asm) {
    && a.avaddr <= b.avaddr && a.mc <= b.mc
    && forall name :: name in a.declare ==> name in b.declare && b.declare[name] == a.declare[name]
  }

  lemma DeclareKeeps(code: string, asm: Asm, tokens: seq<Token>)
    requires tokens != [] && AllIn(code, tokens) && ParseDeclare(code, asm, tokens).Parsed?
    ensures Keeps(asm, ParseDeclare(code, asm, tokens).asm)
  {
  }

  lemma ActKeeps(code: string, asm: Asm, tokens: seq<Token>, total: nat, a: Action)
    requires tokens != [] && AllIn(code, tokens) && Act(code, asm, tokens, total, a).Parsed?
    ensures Keeps(asm, Act(code, asm, tokens, total, a).asm)
  {
    if a.DoDeclare? {
      DeclareKeeps(code, asm, tokens);
    }
  }

  lemma LineKeeps(code: string, asm: Asm, tokens: seq<Token>, total: nat)
    requires tokens != [] && AllIn(code, tokens) && ParseLine(code, asm, tokens, total).Parsed?
    ensures Keeps(asm, ParseLine(code, asm, tokens, total).asm)
  {
    var i := if tokens[0].kind == Label then 1 else 0;
    ActKeeps(code, asm, tokens, total, ActionOf(Text(code, tokens[i])).value);
  }

  lemma {:induction false} LinesKeep(code: string, asm: Asm, lines: Lines, total: nat)
    requires Parseable(code, lines) && ParseLines(code, asm, lines, total).Parsed?
    ensures Keeps(asm, ParseLines(code, asm, lines, total).asm)
    decreases |lines|
  {
    if lines != [] {
      LineKeeps(code, asm, lines[0], total);
      LinesKeep(code, ParseLine(code, asm, lines[0], total).asm, lines[1..], total);
    }
  }

  /** An accepted declaration takes the next free cells, and its string is stored there. */
  lemma LineOwns(code: string, asm: Asm, tokens: seq<Token>, total: nat)
    requires tokens != [] && AllIn(code, tokens) && Owns(code, tokens)
    requires ParseLine(code, asm, tokens, total).Parsed?
    ensures var b := ParseLine(code, asm, tokens, total).asm;
      && Range(b, Text(code, tokens[1]), asm.avaddr) && b.avaddr == asm.avaddr + Cells(code, tokens)
      && b.mc == asm.mc + (if |tokens| <= 4 then [] else StringMoves(asm.avaddr, Initial(code, tokens)))
  {
  }

  lemma {:induction false} MovesAt(addr: nat, s: string, i: nat)
    requires i <= |s|
    ensures |StringMoves(addr, s)| == |s| + 1
    ensures StringMoves(addr, s)[i] == Command(1, MOVE, Wrap(addr + i), if i < |s| then SignedByte(s[i]) else 0)
    decreases |s|
  {
    if i > 0 {
      MovesAt(addr + 1, s[1..], i - 1);
    } else if s != [] {
      MovesAt(addr + 1, s[1..], 0);
    }
  }

  /** A character as the signed byte it is read as. */
  function SignedByte(c: char): Word {
    if c as int % 256 < 128 then c as int % 256 else c as int % 256 - 256
  }

  /** The state before line i, of those that lead from asm to an accepted program. */
  lemma {:induction false} Before(code: string, asm: Asm, lines: Lines, total: nat, i: nat) returns (a: Asm)
    requires i < |lines| && Parseable(code, lines) && ParseLines(code, asm, lines, total).Parsed?
    ensures Keeps(asm, a) && ParseLine(code, a, lines[i], total).Parsed?
    ensures Parseable(code, lines[i + 1..])
    ensures ParseLines(code, ParseLine(code, a, lines[i], total).asm, lines[i + 1..], total)
         == ParseLines(code, asm, lines, total)
    decreases |lines|
  {
    if i == 0 {
      a := asm;
    } else {
      LineKeeps(code, asm, lines[0], total);
      a := Before(code, ParseLine(code, asm, lines[0], total).asm, lines[1..], total, i - 1);
      assert lines[1..][i..] == lines[i + 1..];
    }
  }

  /** Where the i-th line's name stands, and that its cells lie between the first free cell
      before and the last one after. */
  lemma OwnsItsCells(code: string, asm: Asm, lines: Lines, total: nat, i: nat) returns (x: nat, b: Asm)
    requires i < |lines| && Parseable(code, lines) && ParseLines(code, asm, lines, total).Parsed?
    requires Owns(code, lines[i])
    ensures Parseable(code, lines[i + 1..])
    ensures ParseLines(code, b, lines[i + 1..], total) == ParseLines(code, asm, lines, total)
    ensures var r := ParseLines(code, asm, lines, total).asm;
      Range(r, Text(code, lines[i][1]), x) && asm.avaddr <= x && b.avaddr == x + Cells(code, lines[i]) <= r.avaddr
  {
    var a := Before(code, asm, lines, total, i);
    x, b := a.avaddr, ParseLine(code, a, lines[i], total).asm;
    LineOwns(code, a, lines[i], total);
    LinesKeep(code, b, lines[i + 1..], total);
  }

  /** Over every accepted source: names declared with ?, plain or with a text, own disjoint
      ranges of cells from 35 on up to the first one still free, a plain name one cell and a
      string its characters and the zero, and each name stands for the start of its range. */
  lemma OwnedDisjoint(code: string, lines: Lines, total: nat, i: nat, j: nat) returns (x: nat, y: nat)
    requires Parseable(code, lines) && ParseLines(code, EMPTY, lines, total).Parsed?
    requires i < j < |lines| && Owns(code, lines[i]) && Owns(code, lines[j])
    ensures var r := ParseLines(code, EMPTY, lines, total).asm;
      && Range(r, Text(code, lines[i][1]), x) && Range(r, Text(code, lines[j][1]), y)
      && 35 <= x && x + Cells(code, lines[i]) <= y && y + Cells(code, lines[j]) <= r.avaddr
  {
    var b: Asm;
    x, b := OwnsItsCells(code, EMPTY, lines, total, i);
    assert lines[i + 1..][j - i - 1] == lines[j];
    y, b := OwnsItsCells(code, b, lines[i + 1..], total, j - i - 1);
  }

  /** And a string's characters and its zero are moved to its cells, from the first one on. */
  lemma OwnedStored(code: string, lines: Lines, total: nat, i: nat, k: nat) returns (x: nat, m: nat)
    requires Parseable(code, lines) && ParseLines(code, EMPTY, lines, total).Parsed?
    requires i < |lines| && Owns(code, lines[i]) && |lines[i]| > 4 && k <= |Initial(code, lines[i])|
    ensures var text, r := Initial(code, lines[i]), ParseLines(code, EMPTY, lines, total).asm;
      && Range(r, Text(code, lines[i][1]), x) && m < |r.mc|
      && r.mc[m] == Command(1, MOVE, Wrap(x + k), if k < |text| then SignedByte(text[k]) else 0)
  {
    var a := Before(code, EMPTY, lines, total, i);
    var b := ParseLine(code, a, lines[i], total).asm;
    LineOwns(code, a, lines[i], total);
    LinesKeep(code, b, lines[i + 1..], total);
    MovesAt(a.avaddr, Initial(code, lines[i]), k);
    x, m := a.avaddr, |a.mc| + k;
    assert b.mc[m] == StringMoves(a.avaddr, Initial(code, lines[i]))[k];
  }

  /** So it is for every source that builds. */
  lemma BuiltDisjoint(code: string, i: nat, j: nat) returns (x: nat, y: nat)
    requires Build(code).Parsed? && Lex(code, 0, 1).Some?
    requires var lines := Lex(code, 0, 1).value;
      Parseable(code, lines) && i < j < |lines| && Owns(code, lines[i]) && Owns(code, lines[j])
    ensures var lines, r := Lex(code, 0, 1).value, Build(code).asm;
      && Range(r, Text(code, lines[i][1]), x) && Range(r, Text(code, lines[j][1]), y)
      && 35 <= x && x + Cells(code, lines[i]) <= y && y + Cells(code, lines[j]) <= r.avaddr
  {
    var lines := Lex(code, 0, 1).value;
    x, y := OwnedDisjoint(code, lines, |lines|, i, j);
  }

  // ---------- the other forms ----------

  /** An address that is given is not used: the name stands for 0, and no cell is taken. */
  lemma ExplicitStandsAtZero(code: string, asm: Asm, tokens: seq<Token>, total: nat)
    requires |tokens| == 3 && AllIn(code, tokens) && tokens[0].kind != Label
    requires ActionOf(Text(code, tokens[0])) == Some(DoDeclare)
    requires tokens[1].kind == Name && tokens[2].kind == LiteralNum
    requires At(code, tokens[1].start) == '_' || 'A' <= At(code, tokens[1].start) <= 'z'
    ensures var name, r := Text(code, tokens[1]), ParseLine(code, asm, tokens, total);
      if name in asm.declare || |name| > 64 then r == Rejected
      else r == Parsed(Asm(asm.mc, asm.avaddr, asm.declare[name := Declared(false, 0)]))
  {
    var p := tokens[1].start;
    assert SkipWhite(code, p) == p;
    assert DigitsEnd(code, p) == p;
    assert code[p..p] == "";
  }

  /** The quoted text that a declaration takes: up to the first quote, so it is the whole one
      unless that has a quote inside, which the lexer lets a backslash bring in. */
  lemma TextIsWholeIff(code: string, tokens: seq<Token>)
    requires |tokens| > 4 && InSource(code, tokens[4]) && tokens[4].start + 1 < tokens[4].end
    requires code[tokens[4].end - 1] == '"' && forall i :: tokens[4].start <= i < tokens[4].end ==> code[i] != NUL
    ensures var a, b := tokens[4].start + 1, tokens[4].end - 1;
      Initial(code, tokens) == code[a..b] <==> forall i :: a <= i < b ==> code[i] != '"'
  {
    var a, b := tokens[4].start + 1, tokens[4].end - 1;
    var e := FirstQuote(code, a, b);
    if e < b {
      assert |code[a..e]| < |code[a..b]|;
    }
  }

  lemma {:induction false} FirstQuote(code: string, a: nat, b: nat) returns (e: nat)
    requires a <= b < |code| && code[b] == '"' && forall i :: a <= i < b ==> code[i] != NUL
    ensures FindChar(code, a, '"') == Some(e) && a <= e <= b && code[e] == '"'
    ensures forall i :: a <= i < e ==> code[i] != '"'
    decreases b - a
  {
    if code[a] == '"' {
      e := a;
    } else {
      e := FirstQuote(code, a + 1, b);
    }
  }

  /** A label stands for the number of lexed lines, wherever it is. */
  lemma LabelStands(code: string, asm: Asm, tokens: seq<Token>, total: nat)
    requires |tokens| >= 2 && AllIn(code, tokens) && tokens[0].kind == Label
    requires match ActionOf(Text(code, tokens[1]))
      case Some(DoDeclare) => false
      case _ => true
    requires ParseLine(code, asm, tokens, total).Parsed?
    requires Text(code, tokens[0]) !in asm.declare && |Text(code, tokens[0])| <= 64
    ensures var b := ParseLine(code, asm, tokens, total).asm;
      b.declare == asm.declare[Text(code, tokens[0]) := Declared(true, total)] && b.avaddr == asm.avaddr
  {
  }

  /** A label that cannot be declared, because its name is taken or longer than 64 characters,
      is passed over where the command has no operand; elsewhere the line is rejected. */
  lemma LabelRefused(code: string, asm: Asm, tokens: seq<Token>, total: nat)
    requires |tokens| >= 2 && AllIn(code, tokens) && tokens[0].kind == Label
    requires Text(code, tokens[0]) in asm.declare || |Text(code, tokens[0])| > 64
    ensures var r := ParseLine(code, asm, tokens, total);
      match ActionOf(Text(code, tokens[1]))
      case Some(NoArg(op)) => r == Parsed(Asm(asm.mc + [Command(0, op, 0, 0)], asm.avaddr, asm.declare))
      case Some(DoDeclare) => true
      case _ => r == Rejected
  {
  }

  /** What is not accepted: a declare with nothing behind it reads a token that was never set, and
      one without a name, without an address, or with something else in the place of the address,
      of the ? behind it or of the text, is rejected. A size is outside the model. */
  lemma DeclareRefused(code: string, asm: Asm, tokens: seq<Token>, total: nat)
    requires tokens != [] && AllIn(code, tokens) && tokens[0].kind != Label
    requires ActionOf(Text(code, tokens[0])) == Some(DoDeclare)
    ensures var r, n := ParseLine(code, asm, tokens, total), |tokens|;
      && (n == 1 ==> r == Crashed)
      && (n > 1 && tokens[1].kind != Name ==> r == Rejected)
      && (n == 2 ==> r == Rejected)
      && (n > 2 && tokens[2].kind != LiteralNum && tokens[2].kind != Auto ==> r == Rejected)
      && (n > 3 && tokens[3].kind != LiteralNum && tokens[3].kind != Auto ==> r == Rejected)
      && (n == 4 && tokens[3].kind == Auto ==> r == Rejected)
      && (n > 4 && tokens[3].kind == Auto && tokens[4].kind != LiteralStr ==> r == Rejected)
      && (n > 3 && tokens[1].kind == Name && tokens[2].kind == Auto && tokens[3].kind == LiteralNum ==> r == Unmodelled)
  {
  }

  /** A left operand that names nothing declared is followed through a null pointer; a right
      one is rejected. */
  lemma UnknownNames(code: string, asm: Asm, tokens: seq<Token>, total: nat, op: Byte)
    requires |tokens| > 2 && AllIn(code, tokens) && tokens[0].kind == Name
    requires (tokens[1].kind == AsRam || tokens[1].kind == AsPtr) && tokens[2].kind == Name
    requires Text(code, tokens[2]) !in asm.declare
    ensures ActionOf(Text(code, tokens[0])) == Some(TwoArg(op)) ==> ParseLine(code, asm, tokens, total) == Crashed
    ensures ActionOf(Text(code, tokens[0])) == Some(OneArg(op)) ==> ParseLine(code, asm, tokens, total) == Rejected
  {
  }
}
