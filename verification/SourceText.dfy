/** Assembler lines written out from their arguments, and the tokens the lexer finds in
    them. */
module SourceText {
  import opened Decimal
  import opened Machine
  import opened Lexer

  /** An argument as source text: a number or a name behind a type prefix, a question mark,
      or a quoted string. */
  datatype Arg = Num(ty: nat, digits: string) | Var(ty: nat, name: string) | Question | Quoted(text: string)

  predicate NameChars(w: string) {
    forall i :: 0 <= i < |w| ==> IsNameChar(w[i])
  }

  predicate IntChars(w: string) {
    forall i :: 0 <= i < |w| ==> IsIntChar(w[i])
  }

  predicate IsIdentifier(w: string) {
    w != [] && IsNameStart(w[0]) && NameChars(w)
  }

  /** Text that a pair of double quotes can hold as it stands. */
  predicate Quotable(w: string) {
    forall i :: 0 <= i < |w| ==> w[i] != NUL && w[i] != '"' && w[i] != '\\'
  }

  predicate Proper(a: Arg) {
    match a
    case Num(ty, digits) => ty < 4 && digits != [] && IntChars(digits)
    case Var(ty, name) => ty < 4 && IsIdentifier(name)
    case Question => true
    case Quoted(text) => Quotable(text)
  }

  function Prefix(ty: nat): string {
    if ty == LITERAL then "" else if ty == RAM then "$" else if ty == PTR then "*" else "@"
  }

  function ArgText(a: Arg): string {
    match a
    case Num(ty, digits) => Prefix(ty) + digits
    case Var(ty, name) => Prefix(ty) + name
    case Question => "?"
    case Quoted(text) => "\"" + text + "\""
  }

  function Typed(ty: nat, t: Token): seq<Token> {
    if ty == LITERAL then [t]
    else [Token(if ty == RAM then AsRam else if ty == PTR then AsPtr else AsData, t.start - (if t.start > 0 then 1 else 0), t.start, t.line), t]
  }

  function ArgTokens(a: Arg, p: nat, line: nat): seq<Token> {
    var e := p + |ArgText(a)|;
    match a
    case Num(ty, _) => Typed(ty, Token(LiteralNum, p + |Prefix(ty)|, e, line))
    case Var(ty, _) => Typed(ty, Token(Name, p + |Prefix(ty)|, e, line))
    case Question => [Token(Auto, p, e, line)]
    case Quoted(_) => [Token(LiteralStr, p, e, line)]
  }

  // ---------- single tokens ----------

  lemma {:induction false} NameEndAt(code: string, p: nat, w: string)
    requires Holds(code, p, w) && NameChars(w) && !IsNameChar(At(code, p + |w|))
    ensures NameEnd(code, p) == p + |w|
    decreases |w|
  {
    if w != [] {
      HoldsAt(code, p, w, 0);
      assert w == w[..1] + w[1..];
      HoldsSplit(code, p, w[..1], w[1..]);
      NameEndAt(code, p + 1, w[1..]);
    }
  }

  lemma {:induction false} IntEndAt(code: string, p: nat, w: string)
    requires Holds(code, p, w) && IntChars(w) && !IsIntChar(At(code, p + |w|))
    ensures IntEnd(code, p) == p + |w|
    decreases |w|
  {
    if w != [] {
      HoldsAt(code, p, w, 0);
      assert w == w[..1] + w[1..];
      HoldsSplit(code, p, w[..1], w[1..]);
      IntEndAt(code, p + 1, w[1..]);
    }
  }

  lemma {:induction false} QuoteEndAt(code: string, p: nat, w: string)
    requires Holds(code, p, w) && Quotable(w) && At(code, p + |w|) == '"'
    ensures QuoteEnd(code, p, '"') == p + |w|
    decreases |w|
  {
    if w != [] {
      HoldsAt(code, p, w, 0);
      assert w == w[..1] + w[1..];
      HoldsSplit(code, p, w[..1], w[1..]);
      QuoteEndAt(code, p + 1, w[1..]);
    }
  }

  lemma PrintedIsInt(x: int)
    ensures IntChars(PrintInt(x))
  {
    var w := if x < 0 then PrintNat(-x) else PrintNat(x);
    assert AllDigits(w);
  }

  predicate Yields(r: Scan, tokens: seq<Token>, e: nat) {
    r.Some? && r.value.0 == tokens && r.value.1 == e
  }

  /** The argument text w at p is lexed to these tokens, and to no more. */
  predicate ArgIs(code: string, p: nat, line: nat, w: string, tokens: seq<Token>) {
    Yields(ArgNext(code, p, line), tokens, p + |w|) && !IsBlank(At(code, p))
  }

  lemma NumIs(code: string, p: nat, line: nat, w: string)
    requires w != [] && IntChars(w) && Holds(code, p, w) && !IsIntChar(At(code, p + |w|))
    ensures ArgIs(code, p, line, w, [Token(LiteralNum, p, p + |w|, line)])
  {
    HoldsAt(code, p, w, 0);
    IntEndAt(code, p, w);
    assert IsIntChar(At(code, p));
  }

  lemma NameIs(code: string, p: nat, line: nat, w: string)
    requires IsIdentifier(w) && Holds(code, p, w) && !IsNameChar(At(code, p + |w|))
    ensures ArgIs(code, p, line, w, [Token(Name, p, p + |w|, line)])
  {
    HoldsAt(code, p, w, 0);
    NameEndAt(code, p, w);
  }

  lemma QuotedIs(code: string, p: nat, line: nat, w: string)
    requires Quotable(w) && Holds(code, p, "\"" + w + "\"")
    ensures ArgIs(code, p, line, "\"" + w + "\"", [Token(LiteralStr, p, p + |w| + 2, line)])
  {
    HoldsSplit(code, p, "\"" + w, "\"");
    HoldsSplit(code, p, "\"", w);
    HoldsAt(code, p, "\"", 0);
    HoldsAt(code, p + 1 + |w|, "\"", 0);
    QuoteEndAt(code, p + 1, w);
  }

  lemma PrefixedIs(code: string, p: nat, line: nat, ty: nat, w: string, t: Token)
    requires ty < 4 && Holds(code, p, Prefix(ty) + w)
    requires t.start == p + |Prefix(ty)| && t.line == line && ArgIs(code, t.start, line, w, [t])
    ensures ArgIs(code, p, line, Prefix(ty) + w, Typed(ty, t))
  {
    HoldsSplit(code, p, Prefix(ty), w);
    if ty == LITERAL {
      assert Prefix(ty) + w == w;
    } else {
      HoldsAt(code, p, Prefix(ty), 0);
      assert Typed(ty, t) == [Typed(ty, t)[0]] + [t];
    }
  }

  lemma TypedNumIs(code: string, p: nat, line: nat, ty: nat, w: string, q: nat)
    requires ty < 4 && w != [] && IntChars(w) && q == p + |Prefix(ty) + w|
    requires Holds(code, p, Prefix(ty) + w) && !IsIntChar(At(code, q))
    ensures ArgIs(code, p, line, Prefix(ty) + w, Typed(ty, Token(LiteralNum, p + |Prefix(ty)|, q, line)))
  {
    var s := p + |Prefix(ty)|;
    HoldsSplit(code, p, Prefix(ty), w);
    NumIs(code, s, line, w);
    PrefixedIs(code, p, line, ty, w, Token(LiteralNum, s, q, line));
  }

  lemma TypedNameIs(code: string, p: nat, line: nat, ty: nat, w: string, q: nat)
    requires ty < 4 && IsIdentifier(w) && q == p + |Prefix(ty) + w|
    requires Holds(code, p, Prefix(ty) + w) && !IsNameChar(At(code, q))
    ensures ArgIs(code, p, line, Prefix(ty) + w, Typed(ty, Token(Name, p + |Prefix(ty)|, q, line)))
  {
    var s := p + |Prefix(ty)|;
    HoldsSplit(code, p, Prefix(ty), w);
    NameIs(code, s, line, w);
    PrefixedIs(code, p, line, ty, w, Token(Name, s, q, line));
  }

  /** Every proper argument is lexed to its tokens when a comma or a newline follows. */
  lemma ArgAt(code: string, p: nat, q: nat, line: nat, a: Arg)
    requires Proper(a) && Holds(code, p, ArgText(a)) && q == p + |ArgText(a)|
    requires At(code, q) == ',' || At(code, q) == '\n'
    ensures ArgIs(code, p, line, ArgText(a), ArgTokens(a, p, line))
  {
    match a
    case Num(ty, w) => TypedNumIs(code, p, line, ty, w, q);
    case Var(ty, name) => TypedNameIs(code, p, line, ty, name, q);
    case Question => HoldsAt(code, p, "?", 0);
    case Quoted(text) => QuotedIs(code, p, line, text);
  }

  // ---------- argument lists ----------

  function ArgsText(args: seq<Arg>): string {
    if args == [] then "\n"
    else " " + ArgText(args[0]) + (if |args| == 1 then "\n" else "," + ArgsText(args[1..]))
  }

  function ArgsTokens(args: seq<Arg>, p: nat, line: nat): seq<Token>
    decreases |args|
  {
    if args == [] then []
    else ArgTokens(args[0], p + 1, line) + ArgsTokens(args[1..], p + 2 + |ArgText(args[0])|, line)
  }

  predicate AllProper(args: seq<Arg>) {
    forall i :: 0 <= i < |args| ==> Proper(args[i])
  }

  /** One blank, one argument, the end of the line. */
  lemma ArgsLast(code: string, p: nat, line: nat, w: string, tokens: seq<Token>)
    requires Holds(code, p, " " + w + "\n") && ArgIs(code, p + 1, line, w, tokens)
    ensures At(code, p) == ' ' && Yields(Args(code, p, line), tokens, p + |w| + 2)
  {
    SplitLast(code, p, w);
    assert SkipSpace(code, p + 1) == p + 1;
    assert SkipSpace(code, p) == p + 1;
  }

  lemma SplitLast(code: string, p: nat, w: string)
    requires Holds(code, p, " " + w + "\n")
    ensures At(code, p) == ' ' && Holds(code, p + 1, w) && At(code, p + 1 + |w|) == '\n'
  {
    HoldsSplit(code, p, " " + w, "\n");
    HoldsSplit(code, p, " ", w);
    HoldsAt(code, p, " ", 0);
    HoldsAt(code, p + 1 + |w|, "\n", 0);
  }

  lemma SplitMore(code: string, p: nat, q: nat, w: string, tail: string)
    requires Holds(code, p, " " + w + ("," + tail)) && q == p + 2 + |w|
    ensures At(code, p) == ' ' && Holds(code, p + 1, w) && At(code, q - 1) == ',' && Holds(code, q, tail)
  {
    HoldsSplit(code, p, " " + w, "," + tail);
    HoldsSplit(code, p, " ", w);
    HoldsAt(code, p, " ", 0);
    HoldsSplit(code, q - 1, ",", tail);
    HoldsAt(code, q - 1, ",", 0);
  }

  /** One blank, one argument, a comma, and what follows. */
  lemma ArgsMore(code: string, p: nat, q: nat, line: nat, w: string, tokens: seq<Token>, rest: seq<Token>, e: nat)
    requires q == p + 2 + |w| <= |code| && At(code, p) == ' ' && At(code, q - 1) == ','
    requires ArgIs(code, p + 1, line, w, tokens) && Yields(Args(code, q, line), rest, e)
    ensures Yields(Args(code, p, line), tokens + rest, e)
  {
    assert SkipSpace(code, p + 1) == p + 1;
    assert SkipSpace(code, p) == p + 1;
  }

  lemma ArgsUnfold(args: seq<Arg>, p: nat, line: nat)
    requires args != []
    ensures var w := ArgText(args[0]);
      && ArgsText(args) == " " + w + (if |args| == 1 then "\n" else "," + ArgsText(args[1..]))
      && ArgsTokens(args, p, line) == ArgTokens(args[0], p + 1, line) + ArgsTokens(args[1..], p + 2 + |w|, line)
      && |ArgsText(args)| == 2 + |w| + (if |args| == 1 then 0 else |ArgsText(args[1..])|)
  {
  }

  lemma OneArgAt(code: string, p: nat, line: nat, args: seq<Arg>)
    requires |args| == 1 && Proper(args[0]) && Holds(code, p, ArgsText(args))
    ensures Yields(Args(code, p, line), ArgsTokens(args, p, line), p + |ArgsText(args)|) && At(code, p) == ' '
  {
    var w, tokens := ArgText(args[0]), ArgTokens(args[0], p + 1, line);
    ArgsUnfold(args, p, line);
    SplitLast(code, p, w);
    ArgAt(code, p + 1, p + 1 + |w|, line, args[0]);
    ArgsLast(code, p, line, w, tokens);
    assert tokens + [] == tokens;
  }

  lemma SplitFirst(code: string, p: nat, q: nat, args: seq<Arg>, w: string)
    requires |args| > 1 && Holds(code, p, ArgsText(args))
    requires w == ArgText(args[0]) && q == p + 2 + |w|
    ensures At(code, p) == ' ' && Holds(code, p + 1, w) && At(code, q - 1) == ',' && Holds(code, q, ArgsText(args[1..]))
  {
    SplitMore(code, p, q, w, ArgsText(args[1..]));
  }

  predicate ArgsAre(code: string, p: nat, line: nat, args: seq<Arg>) {
    p <= |code| && Yields(Args(code, p, line), ArgsTokens(args, p, line), p + |ArgsText(args)|)
  }

  lemma ArgsJoin(args: seq<Arg>, p: nat, q: nat, line: nat, r: Scan)
    requires |args| > 1 && q == p + 2 + |ArgText(args[0])|
    requires Yields(r, ArgTokens(args[0], p + 1, line) + ArgsTokens(args[1..], q, line), q + |ArgsText(args[1..])|)
    ensures Yields(r, ArgsTokens(args, p, line), p + |ArgsText(args)|)
  {
    ArgsUnfold(args, p, line);
  }

  lemma MoreArgsAt(code: string, p: nat, q: nat, line: nat, args: seq<Arg>, w: string)
    requires |args| > 1 && w == ArgText(args[0]) && q == p + 2 + |w|
    requires At(code, p) == ' ' && At(code, q - 1) == ','
    requires ArgIs(code, p + 1, line, w, ArgTokens(args[0], p + 1, line)) && ArgsAre(code, q, line, args[1..])
    ensures ArgsAre(code, p, line, args)
  {
    var first, rest, e := ArgTokens(args[0], p + 1, line), ArgsTokens(args[1..], q, line), q + |ArgsText(args[1..])|;
    assert p <= |code| && Yields(Args(code, p, line), first + rest, e) by {
      ArgsMore(code, p, q, line, w, first, rest, e);
    }
    ArgsJoin(args, p, q, line, Args(code, p, line));
  }

  lemma NoArgsAt(code: string, p: nat, line: nat)
    requires Holds(code, p, "\n")
    ensures ArgsAre(code, p, line, []) && At(code, p) == '\n'
  {
    HoldsAt(code, p, "\n", 0);
    assert SkipSpace(code, p) == p;
  }

  /** A written-out argument list is lexed to its tokens, up to the next line. */
  lemma {:induction false} ArgsAt(code: string, p: nat, line: nat, args: seq<Arg>)
    requires AllProper(args) && Holds(code, p, ArgsText(args))
    ensures ArgsAre(code, p, line, args) && (At(code, p) == ' ' || At(code, p) == '\n')
    decreases |args|
  {
    if args == [] {
      NoArgsAt(code, p, line);
    } else if |args| == 1 {
      OneArgAt(code, p, line, args);
    } else {
      var w := ArgText(args[0]);
      var q := p + 2 + |w|;
      SplitFirst(code, p, q, args, w);
      ArgAt(code, p + 1, q - 1, line, args[0]);
      ArgsAt(code, q, line, args[1..]);
      MoreArgsAt(code, p, q, line, args, w);
    }
  }

  // ---------- lines ----------

  datatype Line = Line(name: string, args: seq<Arg>)

  function LineText(l: Line): string {
    l.name + ArgsText(l.args)
  }

  function LineTokens(l: Line, p: nat, line: nat): seq<Token> {
    [Token(Name, p, p + |l.name|, line)] + ArgsTokens(l.args, p + |l.name|, line)
  }

  predicate ProperLine(l: Line) {
    IsIdentifier(l.name) && AllProper(l.args)
  }

  lemma HeadAt(code: string, p: nat, line: nat, w: string)
    requires Holds(code, p, w) && IsIdentifier(w) && (At(code, p + |w|) == ' ' || At(code, p + |w|) == '\n')
    ensures Yields(Head(code, p, line), [Token(Name, p, p + |w|, line)], p + |w|)
    ensures SkipSpace(code, p) == p && EndLine(code, p) == None
  {
    HoldsAt(code, p, w, 0);
    NameEndAt(code, p, w);
  }

  /** A written-out line is lexed to the tokens of its name and arguments, wherever it stands,
      and the lexer goes on right behind it. */
  lemma LexLineAt(code: string, p: nat, line: nat, l: Line)
    requires ProperLine(l) && Holds(code, p, LineText(l))
    ensures Yields(LexLine(code, p, line), LineTokens(l, p, line), p + |LineText(l)|)
    ensures Holds(code, p, l.name) && At(code, p) != NUL
  {
    HoldsSplit(code, p, l.name, ArgsText(l.args));
    ArgsAt(code, p + |l.name|, line, l.args);
    HeadAt(code, p, line, l.name);
    HoldsAt(code, p, l.name, 0);
  }

  predicate IsLine(code: string, tokens: seq<Token>, name: string) {
    tokens != [] && AllIn(code, tokens) && tokens[0].kind == Name && Text(code, tokens[0]) == name
  }

  lemma LineTokensAreIn(code: string, p: nat, line: nat, l: Line)
    requires ProperLine(l) && Holds(code, p, LineText(l))
    ensures AllIn(code, LineTokens(l, p, line))
  {
    LexLineAt(code, p, line, l);
    LineSpaced(code, p, line);
    SpacedAreIn(code, LexLine(code, p, line).value.0, p, LexLine(code, p, line).value.1);
  }

  lemma LineIsNamed(code: string, p: nat, line: nat, l: Line)
    requires ProperLine(l) && Holds(code, p, LineText(l))
    ensures IsLine(code, LineTokens(l, p, line), l.name)
  {
    LineTokensAreIn(code, p, line, l);
    HoldsSplit(code, p, l.name, ArgsText(l.args));
    HoldsSlice(code, p, l.name);
  }

  // ---------- whole sources ----------

  function Document(ls: seq<Line>): string {
    if ls == [] then "" else LineText(ls[0]) + Document(ls[1..])
  }

  function DocumentTokens(ls: seq<Line>, p: nat, line: nat): Lines
    decreases |ls|
  {
    if ls == [] then [] else [LineTokens(ls[0], p, line)] + DocumentTokens(ls[1..], p + |LineText(ls[0])|, line + 1)
  }

  lemma DocumentCons(l: Line, ls: seq<Line>, p: nat, q: nat, line: nat)
    requires q == p + |LineText(l)|
    ensures DocumentTokens([l] + ls, p, line) == [LineTokens(l, p, line)] + DocumentTokens(ls, q, line + 1)
  {
    assert ([l] + ls)[1..] == ls;
  }

  predicate AllProperLines(ls: seq<Line>) {
    forall i :: 0 <= i < |ls| ==> ProperLine(ls[i])
  }

  /** The source ends with these lines, from p on. */
  predicate EndsWith(code: string, p: nat, ls: seq<Line>)
    decreases |ls|
  {
    if ls == [] then p == |code|
    else Holds(code, p, LineText(ls[0])) && EndsWith(code, p + |LineText(ls[0])|, ls[1..])
  }

  lemma {:induction false} DocumentEnds(code: string, p: nat, ls: seq<Line>)
    requires Holds(code, p, Document(ls)) && p + |Document(ls)| == |code|
    ensures EndsWith(code, p, ls)
    decreases |ls|
  {
    if ls != [] {
      HoldsSplit(code, p, LineText(ls[0]), Document(ls[1..]));
      DocumentEnds(code, p + |LineText(ls[0])|, ls[1..]);
    }
  }

  lemma LexNext(code: string, p: nat, q: nat, line: nat, tokens: seq<Token>, rest: Lines)
    requires p < |code| && At(code, p) != NUL && tokens != []
    requires Yields(LexLine(code, p, line), tokens, q) && Lex(code, q, line + 1) == Some(rest)
    ensures Lex(code, p, line) == Some([tokens] + rest)
  {
  }

  /** A source of written-out lines is lexed to the tokens of each of them in order. */
  lemma {:induction false} LexDocument(code: string, p: nat, line: nat, ls: seq<Line>)
    requires AllProperLines(ls) && EndsWith(code, p, ls)
    ensures Lex(code, p, line) == Some(DocumentTokens(ls, p, line))
    decreases |ls|
  {
    if ls != [] {
      var q := p + |LineText(ls[0])|;
      LexDocument(code, q, line + 1, ls[1..]);
      LexLineAt(code, p, line, ls[0]);
      LexNext(code, p, q, line, LineTokens(ls[0], p, line), DocumentTokens(ls[1..], q, line + 1));
    }
  }
}
