/** The assembler object of core/c32asm.c in its own form: the lexer advances the read
    position and fills the tokens of the last line, the parser appends commands and moves the
    next free address. Each method is proved against the functions of Lexer and Parser. */
module Assembler {
  import opened Bits
  import opened Decimal
  import opened Machine
  import opened Lexer
  import opened Parser
  import CommandFile

  /** The value an action returns, with the two ways it can leave the model told apart. */
  datatype Ret = Fine | Error | NullRead | Outside

  /** The return value and the state behind it are what the functions say. */
  predicate Agrees(ret: Ret, asm: Asm, r: Parsed) {
    match r
    case Parsed(a) => ret == Fine && asm == a
    case Rejected => ret == Error
    case Crashed => ret == NullRead
    case Unmodelled => ret == Outside
  }

  /** The tokens of the last line, with more behind them. */
  function Filled(lines: Lines, tokens: seq<Token>): Lines
    requires lines != []
  {
    lines[|lines| - 1 := lines[|lines| - 1] + tokens]
  }

  lemma FilledTwice(lines: Lines, a: seq<Token>, b: seq<Token>)
    requires lines != []
    ensures Filled(Filled(lines, a), b) == Filled(lines, a + b)
  {
    var n := |lines| - 1;
    assert lines[n] + a + b == lines[n] + (a + b);
  }

  /** The last line filled up by a scan, and where the scan stops. */
  function FilledWith(lines: Lines, r: Scan): Option<(Lines, nat)>
    requires lines != []
  {
    if r.None? then None else Some((Filled(lines, r.value.0), r.value.1))
  }

  /** One argument, and those behind its comma. */
  lemma ArgsNext(code: string, p: nat, line: nat, lines: Lines)
    requires p <= |code| && lines != []
    ensures var s, whole := SkipSpace(code, p), FilledWith(lines, Args(code, p, line));
      var a := ArgNext(code, s, line);
      if EndLine(code, s).Some? then whole == FilledWith(lines, Some(([], EndLine(code, s).value)))
      else if a.None? then whole == None
      else if EndLine(code, a.value.1).Some? then
        whole == Some((Filled(lines, a.value.0), EndLine(code, a.value.1).value))
      else if At(code, a.value.1) != ',' then whole == None
      else whole == FilledWith(Filled(lines, a.value.0), Args(code, a.value.1 + 1, line))
  {
    var a := ArgNext(code, SkipSpace(code, p), line);
    if a.Some? && At(code, a.value.1) == ',' {
      var rest := Args(code, a.value.1 + 1, line);
      if rest.Some? {
        FilledTwice(lines, a.value.0, rest.value.0);
      }
    }
  }

  lemma FilledLast(lines: Lines, a: seq<Token>, b: seq<Token>)
    ensures Filled(lines + [a], b) == lines + [a + b] && (lines + [a])[..|lines + [a]| - 1] == lines
  {
  }

  lemma BuildUnfolds(code: string)
    ensures var lexed := Lex(code, 0, 1);
      if lexed.None? then Build(code) == Rejected
      else Parseable(code, lexed.value) && Build(code) == ParseLines(code, EMPTY, lexed.value, |lexed.value|)
  {
    if Lex(code, 0, 1).Some? {
      LexedParse(code, 0, 1);
    }
  }

  /** Tokens already found, in front of those still to come. */
  function Before(tokens: seq<Token>, rest: Scan): Scan {
    if rest.None? then None else Some((tokens + rest.value.0, rest.value.1))
  }

  lemma BeforeTwice(a: seq<Token>, b: seq<Token>, r: Scan)
    ensures Before(a, Before(b, r)) == Before(a + b, r)
  {
    if r.Some? {
      assert a + (b + r.value.0) == (a + b) + r.value.0;
    }
  }

  lemma BeforeNothing(r: Scan)
    ensures Before([], r) == r
  {
    if r.Some? {
      assert [] + r.value.0 == r.value.0;
    }
  }

  lemma FilledNothing(lines: Lines)
    requires lines != []
    ensures Filled(lines, []) == lines
  {
    assert lines[|lines| - 1] + [] == lines[|lines| - 1];
  }

  class Compiler {
    const code: string
    var parse: nat
    var line: nat
    var vcmd: Lines
    var mc: seq<Command>
    var avaddr: nat
    var declare: map<string, Declared>

    ghost function State(): Asm
      reads this
    {
      Asm(mc, avaddr, declare)
    }

    function Peek(): char
      reads this
    {
      At(code, parse)
    }

    constructor (code: string)
      ensures this.code == code && parse == 0 && line == 1 && vcmd == [] && State() == EMPTY
    {
      this.code := code;
      parse, line, vcmd, mc, avaddr, declare := 0, 1, [], [], START_ADDR, map[];
    }

    // ---------- lexer ----------

    method SkipSpaces()
      modifies this`parse
      ensures parse == SkipSpace(code, old(parse))
    {
      while IsBlank(Peek())
        invariant SkipSpace(code, parse) == SkipSpace(code, old(parse))
        decreases |code| - parse
      {
        parse := parse + 1;
      }
    }

    method SkipRemark()
      modifies this`parse
      ensures parse == SkipComment(code, old(parse))
    {
      while Peek() != NUL && Peek() != '\n'
        invariant SkipComment(code, parse) == SkipComment(code, old(parse))
        decreases |code| - parse
      {
        parse := parse + 1;
      }
    }

    method AtEndLine() returns (ended: bool)
      modifies this`parse
      ensures ended == EndLine(code, old(parse)).Some?
      ensures parse == if ended then EndLine(code, old(parse)).value else old(parse)
    {
      if Peek() == NUL {
        return true;
      } else if Peek() == '\n' {
        parse := parse + 1;
        return true;
      } else if Peek() == ';' {
        // the semicolon itself is not a line end, so the comment may be skipped from it
        SkipRemark();
        if Peek() != NUL {
          parse := parse + 1;
        }
        return true;
      }
      return false;
    }

    /** A token of the last line. */
    method Push(t: Token)
      requires vcmd != []
      modifies this`vcmd
      ensures vcmd == Filled(old(vcmd), [t])
    {
      vcmd := vcmd[|vcmd| - 1 := vcmd[|vcmd| - 1] + [t]];
    }

    method TokenQuote() returns (ok: bool, start: nat)
      requires Peek() == '\'' || Peek() == '"'
      modifies this`parse
      ensures start == old(parse)
      ensures var q := QuoteEnd(code, old(parse) + 1, old(Peek()));
        ok == (At(code, q) == old(Peek())) && (ok ==> parse == q + 1)
    {
      var quote := Peek();
      start := parse;
      parse := parse + 1;
      while Peek() != NUL && Peek() != quote
        invariant QuoteEnd(code, parse, quote) == QuoteEnd(code, start + 1, quote)
        decreases |code| - parse
      {
        if Peek() == '\\' && At(code, parse + 1) != NUL {
          parse := parse + 1;
        }
        parse := parse + 1;
      }
      ok := Peek() == quote;
      parse := if ok then parse + 1 else start;
    }

    method TokenName() returns (ok: bool, start: nat)
      modifies this`parse
      ensures start == old(parse) && ok == IsNameStart(old(Peek()))
      ensures parse == if ok then NameEnd(code, start) else start
    {
      start := parse;
      ok := IsNameStart(Peek());
      if ok {
        while IsNameChar(Peek())
          invariant NameEnd(code, parse) == NameEnd(code, start)
          decreases |code| - parse
        {
          parse := parse + 1;
        }
      }
    }

    method TokenInteger() returns (start: nat)
      modifies this`parse
      ensures start == old(parse) && parse == IntEnd(code, start)
    {
      start := parse;
      while IsIntChar(Peek())
        invariant IntEnd(code, parse) == IntEnd(code, start)
        decreases |code| - parse
      {
        parse := parse + 1;
      }
    }

    /** a32_arg_next */
    method NextArg() returns (ok: bool)
      requires vcmd != []
      modifies this`parse, this`vcmd
      ensures var r := ArgNext(code, old(parse), line);
        ok == r.Some? && (ok ==> parse == r.value.1 && vcmd == Filled(old(vcmd), r.value.0))
      ensures |vcmd| == |old(vcmd)| && vcmd[..|vcmd| - 1] == old(vcmd[..|vcmd| - 1])
      decreases |code| - parse
    {
      var c := Peek();
      ok := true;
      if c == '?' {
        Push(Token(Auto, parse, parse + 1, line));
        parse := parse + 1;
      } else if PrefixKind(c).Some? {
        var t := Token(PrefixKind(c).value, parse, parse + 1, line);
        ghost var rest := ArgNext(code, parse + 1, line);
        Push(t);
        parse := parse + 1;
        ok := NextArg();
        if rest.Some? {
          FilledTwice(old(vcmd), [t], rest.value.0);
        }
      } else if IsIntChar(c) {
        var start := TokenInteger();
        Push(Token(LiteralNum, start, parse, line));
      } else if c == '\'' || c == '"' {
        var start;
        ok, start := TokenQuote();
        if ok {
          Push(Token(if c == '"' then LiteralStr else LiteralChar, start, parse, line));
        }
      } else if IsNameStart(c) {
        var _, start := TokenName();
        Push(Token(Name, start, parse, line));
      } else {
        ok := false;
      }
    }

    /** The labels and the name at the start of a line. */
    method Names() returns (ok: bool)
      requires vcmd != []
      modifies this`parse, this`vcmd
      ensures var r := Head(code, old(parse), line);
        ok == r.Some? && (ok ==> parse == r.value.1 && vcmd == Filled(old(vcmd), r.value.0))
      ensures |vcmd| == |old(vcmd)| && vcmd[..|vcmd| - 1] == old(vcmd[..|vcmd| - 1])
    {
      ghost var found, whole := [], Head(code, parse, line);
      FilledNothing(vcmd);
      BeforeNothing(whole);
      while true
        invariant vcmd == Filled(old(vcmd), found) && |vcmd| == |old(vcmd)|
        invariant whole == Before(found, Head(code, parse, line))
        decreases |code| - parse
      {
        var start;
        ok, start := TokenName();
        if !ok {
          return;
        }
        if Peek() == ':' {
          var t := Token(Label, start, parse, line);
          Push(t);
          FilledTwice(old(vcmd), found, [t]);
          parse := parse + 1;
          SkipSpaces();
          BeforeTwice(found, [t], Head(code, parse, line));
          found := found + [t];
        } else {
          ok := IsBlank(Peek()) || Peek() == '\n' || Peek() == ';';
          if ok {
            var t := Token(Name, start, parse, line);
            Push(t);
            FilledTwice(old(vcmd), found, [t]);
          }
          return;
        }
      }
    }

    /** One argument: the line filled so far with the arguments still to come stays the same,
        or the end of the line is reached. */
    method ArgPass() returns (ok: bool, more: bool)
      requires vcmd != [] && parse <= |code|
      modifies this`parse, this`vcmd
      ensures var whole := FilledWith(old(vcmd), Args(code, old(parse), line));
        && |vcmd| == |old(vcmd)|
        && if more then old(parse) < parse <= |code| && FilledWith(vcmd, Args(code, parse, line)) == whole
           else whole == if ok then Some((vcmd, parse)) else None
      ensures |vcmd| == |old(vcmd)| && vcmd[..|vcmd| - 1] == old(vcmd[..|vcmd| - 1])
    {
      FilledNothing(vcmd);
      ArgsNext(code, parse, line, vcmd);
      more := false;
      SkipSpaces();
      ok := AtEndLine();
      if ok {
        return;
      }
      ok := NextArg();
      if !ok {
        return;
      }
      ok := AtEndLine();
      if !ok && Peek() == ',' {
        parse := parse + 1;
        more := true;
      }
    }

    /** The arguments to the end of the line. */
    method Arguments() returns (ok: bool)
      requires vcmd != [] && parse <= |code|
      modifies this`parse, this`vcmd
      ensures var r := Args(code, old(parse), line);
        ok == r.Some? && (ok ==> parse == r.value.1 && vcmd == Filled(old(vcmd), r.value.0))
      ensures |vcmd| == |old(vcmd)| && vcmd[..|vcmd| - 1] == old(vcmd[..|vcmd| - 1])
    {
      ghost var whole := FilledWith(vcmd, Args(code, parse, line));
      var more := true;
      ok := false;
      while more
        invariant |vcmd| == |old(vcmd)| && vcmd[..|vcmd| - 1] == old(vcmd[..|vcmd| - 1])
        invariant if more then parse <= |code| && FilledWith(vcmd, Args(code, parse, line)) == whole
                  else whole == if ok then Some((vcmd, parse)) else None
        decreases more, |code| - parse
      {
        ok, more := ArgPass();
      }
    }

    /** The command of a line: its names and its arguments. */
    method Tokens() returns (ok: bool)
      requires vcmd != []
      modifies this`parse, this`vcmd
      ensures var h := Head(code, old(parse), line);
        && ok == (h.Some? && Args(code, h.value.1, line).Some?)
        && (ok ==> parse == Args(code, h.value.1, line).value.1
                   && vcmd == Filled(old(vcmd), h.value.0 + Args(code, h.value.1, line).value.0))
      ensures |vcmd| == |old(vcmd)| && vcmd[..|vcmd| - 1] == old(vcmd[..|vcmd| - 1])
    {
      ghost var h := Head(code, parse, line);
      ok := Names();
      if ok {
        ghost var a := Args(code, parse, line);
        ok := Arguments();
        if ok {
          FilledTwice(old(vcmd), h.value.0, a.value.0);
        }
      }
    }

    /** a32_lexer_line: a line that fails leaves no command behind. */
    method LexerLine() returns (ok: bool)
      requires parse <= |code|
      modifies this`parse, this`vcmd
      ensures var r := LexLine(code, old(parse), line);
        && ok == r.Some?
        && (ok ==> parse == r.value.1 && vcmd == old(vcmd) + AsLines(r.value.0))
        && (!ok ==> vcmd == old(vcmd))
    {
      SkipSpaces();
      ok := AtEndLine();
      if ok {
        return;
      }
      ghost var r := LexLine(code, old(parse), line);
      FilledLast(old(vcmd), [], if r.Some? then r.value.0 else []);
      vcmd := vcmd + [[]];
      ok := Tokens();
      if ok {
        assert [] + r.value.0 == r.value.0;
      } else {
        vcmd := vcmd[..|vcmd| - 1];
      }
    }

    /** One pass of a32_lexer's loop: the lines so far with those still to come stay the same. */
    method LexerPass() returns (ok: bool)
      requires parse <= |code| && Peek() != NUL
      modifies this`parse, this`vcmd, this`line
      ensures ok ==> old(parse) < parse <= |code|
      ensures var whole := LinesBefore(old(vcmd), Lex(code, old(parse), old(line)));
        if ok then LinesBefore(vcmd, Lex(code, parse, line)) == whole else whole == None
    {
      LexStep(code, parse, line, vcmd);
      ok := LexerLine();
      if ok {
        line := line + 1;
      }
    }

    /** a32_lexer */
    method RunLexer() returns (ok: bool)
      requires parse <= |code|
      modifies this`parse, this`vcmd, this`line
      ensures var r := Lex(code, old(parse), old(line));
        ok == r.Some? && (ok ==> vcmd == old(vcmd) + r.value)
    {
      ghost var whole := LinesBefore(vcmd, Lex(code, parse, line));
      ok := true;
      while ok && Peek() != NUL
        invariant if ok then parse <= |code| && LinesBefore(vcmd, Lex(code, parse, line)) == whole else whole == None
        decreases ok, |code| - parse
      {
        ok := LexerPass();
      }
      assert ok ==> vcmd + [] == vcmd;
    }

    // ---------- operands ----------

    method LabelOf(cmd: seq<Token>) returns (ic: int)
      requires cmd != [] && AllIn(code, cmd)
      modifies this`declare
      ensures (ic, State()) == ParseLabel(code, old(State()), cmd, |vcmd|)
    {
      if cmd[0].kind != Label {
        return 0;
      }
      var name := Text(code, cmd[0]);
      if name in declare || |name| > MAX_KEY {
        return -1;
      }
      declare := declare[name := Declared(true, |vcmd|)];
      return 1;
    }

    /** parse_rvalue */
    method Rvalue(cmd: seq<Token>, at: nat) returns (o: Operand)
      requires AllIn(code, cmd)
      ensures o == ParseRvalue(code, State(), cmd, at)
    {
      var ic, ty := at, LITERAL;
      if ic >= |cmd| {
        return Bad;
      }
      match cmd[ic].kind {
        case AsRam => ty := RAM; ic := ic + 1;
        case AsPtr => ty := PTR; ic := ic + 1;
        case AsAddr => ty := LITERAL; ic := ic + 1;
        case AsData => ty := DATA; ic := ic + 1;
        case LiteralNum =>
        case Name =>
        case _ => return Bad;
      }
      if ic >= |cmd| {
        return Bad;
      }
      match cmd[ic].kind {
        case LiteralNum => return Operand(ty, ParseWord(code, cmd[ic].start), ic);
        case Name =>
          var name := Text(code, cmd[ic]);
          return if name in declare then Operand(ty, Wrap(declare[name].addr), ic) else Bad;
        case _ => return Bad;
      }
    }

    /** parse_lvalue */
    method Lvalue(cmd: seq<Token>, at: nat) returns (o: Operand)
      requires AllIn(code, cmd)
      ensures o == ParseLvalue(code, State(), cmd, at)
    {
      var ic, ty := at, LITERAL;
      if ic >= |cmd| {
        return Bad;
      }
      match cmd[ic].kind {
        case AsRam => ty := RAM;
        case AsPtr => ty := PTR;
        case _ => return Bad;
      }
      ic := ic + 1;
      if ic >= |cmd| {
        return Bad;
      }
      match cmd[ic].kind {
        case LiteralNum => return Operand(ty, ParseWord(code, cmd[ic].start), ic);
        case Name =>
          var name := Text(code, cmd[ic]);
          return if name in declare then Operand(ty, Wrap(declare[name].addr), ic) else Null;
        case _ => return Bad;
      }
    }

    // ---------- actions ----------

    method NewCommand(c: Command)
      modifies this`mc
      ensures State() == Emit(old(State()), c)
    {
      mc := mc + [c];
    }

    method DoNoArg(cmd: seq<Token>, op: Byte) returns (ret: Ret)
      requires cmd != [] && AllIn(code, cmd)
      modifies this`mc, this`declare
      ensures Agrees(ret, State(), ParseNoArg(code, old(State()), cmd, |vcmd|, op))
    {
      var _ := LabelOf(cmd);
      NewCommand(Command(0, op, 0, 0));
      ret := Fine;
    }

    /** parse_onearg, and action_jmpi with `relative` set. */
    method DoOneArg(cmd: seq<Token>, op: Byte, relative: bool) returns (ret: Ret)
      requires cmd != [] && AllIn(code, cmd) && (relative ==> op == JMP)
      modifies this`mc, this`declare
      ensures Agrees(ret, State(), if relative then ParseJmpi(code, old(State()), cmd, |vcmd|)
                                   else ParseOneArg(code, old(State()), cmd, |vcmd|, op))
    {
      var ic := LabelOf(cmd);
      ic := if ic < 0 then 0 else ic + 1;
      var o := Rvalue(cmd, ic);
      if !o.Operand? {
        return Error;
      }
      NewCommand(Command(Flags(o.ty, 0), op, if relative then Wrap(|mc| + 1 + o.word) else o.word, 0));
      ret := Fine;
    }

    /** parse_twoarg, and action_ift and action_iff with `relative` set. */
    method DoTwoArg(cmd: seq<Token>, op: Byte, relative: bool) returns (ret: Ret)
      requires cmd != [] && AllIn(code, cmd)
      modifies this`mc, this`declare
      ensures Agrees(ret, State(), ParseTwoArg(code, old(State()), cmd, |vcmd|, op, relative))
    {
      var ic := LabelOf(cmd);
      ret := BothOperands(cmd, if ic < 0 then 0 else ic + 1, op, relative);
    }

    method BothOperands(cmd: seq<Token>, ic: nat, op: Byte, relative: bool) returns (ret: Ret)
      requires AllIn(code, cmd)
      modifies this`mc
      ensures Agrees(ret, State(), TwoOperands(code, old(State()), cmd, ic, op, relative))
    {
      TwoOperandsUnfold(code, State(), cmd, ic, op, relative);
      var l := Lvalue(cmd, ic);
      if !l.Operand? {
        return if l.Bad? then Error else NullRead;
      }
      var o := Rvalue(cmd, l.last + 1);
      if !o.Operand? {
        return Error;
      }
      NewCommand(Command(Flags(l.ty, o.ty), op, l.word, if relative then Wrap(|mc| + 1 + o.word) else o.word));
      ret := Fine;
    }

    method Initr(cmd: seq<Token>) returns (ret: Ret)
      requires cmd != [] && AllIn(code, cmd)
      modifies this`mc, this`declare
      ensures Agrees(ret, State(), ParseInitr(code, old(State()), cmd, |vcmd|))
    {
      var ic := LabelOf(cmd);
      ic := if ic < 0 then 0 else ic + 1;
      if ic >= |cmd| || cmd[ic].kind != LiteralNum {
        return Error;
      }
      NewCommand(Command(0, INITR, ParseWord(code, cmd[ic].start), 0));
      ret := Fine;
    }

    // ---------- declare ----------

    /** The loop that pushes one move for every character, and the terminator's. */
    method PushString(addr: nat, text: string)
      modifies this`mc
      ensures mc == old(mc) + StringMoves(addr, text)
    {
      for j := 0 to |text|
        invariant mc + StringMoves(addr + j, text[j..]) == old(mc) + StringMoves(addr, text)
      {
        ghost var rest := StringMoves(addr + j + 1, text[j + 1..]);
        assert text[j..][0] == text[j] && text[j..][1..] == text[j + 1..];
        assert mc + ([InitMove(addr + j, CharWord(text[j]))] + rest) == (mc + [InitMove(addr + j, CharWord(text[j]))]) + rest;
        mc := mc + [InitMove(addr + j, CharWord(text[j]))];
      }
      mc := mc + [InitMove(addr + |text|, 0)];
    }

    /** strchr over the source. */
    method Find(from: nat, c: char) returns (e: nat)
      ensures FindChar(code, from, c) == if At(code, e) == NUL then None else Some(e)
      ensures c != NUL ==> from <= e && (from <= |code| ==> e <= |code|)
    {
      e := from;
      while At(code, e) != NUL && At(code, e) != c
        invariant from <= e && (from <= |code| ==> e <= |code|)
        invariant FindChar(code, e, c) == FindChar(code, from, c)
        decreases |code| - e
      {
        e := e + 1;
      }
    }

    method AddDeclared(name: string, addr: nat) returns (ret: Ret)
      modifies this`declare
      ensures Agrees(ret, State(), Finish(old(State()), name, addr, avaddr))
    {
      if name in declare || |name| > MAX_KEY {
        return Error;
      }
      declare := declare[name := Declared(false, addr)];
      ret := Fine;
    }

    method DeclareString(name: string, addr: nat, auto: bool, from: nat) returns (ret: Ret)
      requires from <= |code| && (auto ==> addr == avaddr)
      modifies this`mc, this`declare, this`avaddr
      ensures Agrees(ret, State(),
        match FindChar(code, from, '"')
        case None => Rejected
        case Some(e) =>
          FindCharAhead(code, from, '"');
          Finish(old(State()).(mc := old(mc) + StringMoves(addr, code[from..e])), name, addr,
                 if auto then old(avaddr) + (e - from) + 1 else old(avaddr)))
    {
      FindCharAhead(code, from, '"');
      var e := Find(from, '"');
      if At(code, e) == NUL {
        return Error;
      }
      PushString(addr, code[from..e]);
      if auto {
        avaddr := avaddr + (e - from) + 1;
      }
      ret := AddDeclared(name, addr);
    }

    /** action_declare */
    method Declare(cmd: seq<Token>) returns (ret: Ret)
      requires cmd != [] && AllIn(code, cmd)
      modifies this`mc, this`declare, this`avaddr
      ensures Agrees(ret, State(), ParseDeclare(code, old(State()), cmd))
    {
      if |cmd| < 2 {
        return NullRead;
      }
      if cmd[1].kind != Name || |cmd| < 3 {
        return Error;
      }
      if cmd[2].kind != LiteralNum && cmd[2].kind != Auto {
        return Error;
      }
      var name := Text(code, cmd[1]);
      var auto := cmd[2].kind == Auto;
      var addr := if auto then avaddr else StrToUl(code, cmd[1].start);
      if |cmd| == 3 {
        if auto {
          avaddr := avaddr + 1;
        }
        ret := AddDeclared(name, addr);
      } else if cmd[3].kind == LiteralNum {
        ret := Outside;
      } else if cmd[3].kind != Auto || |cmd| == 4 || cmd[4].kind != LiteralStr {
        ret := Error;
      } else {
        var s := cmd[4].start + 1;
        ret := DeclareString(name, addr, auto, s);
        FindCharAhead(code, s, '"');
        assert FindChar(code, s, '"').Some? ==> |code[s..FindChar(code, s, '"').value]| == FindChar(code, s, '"').value - s;
      }
    }

    // ---------- all lines ----------

    method Action(cmd: seq<Token>, a: Action) returns (ret: Ret)
      requires cmd != [] && AllIn(code, cmd)
      modifies this`mc, this`declare, this`avaddr
      ensures Agrees(ret, State(), Act(code, old(State()), cmd, |vcmd|, a))
    {
      match a {
        case DoDeclare => ret := Declare(cmd);
        case DoInitr => ret := Initr(cmd);
        case NoArg(op) => ret := DoNoArg(cmd, op);
        case OneArg(op) => ret := DoOneArg(cmd, op, false);
        case TwoArg(op) => ret := DoTwoArg(cmd, op, false);
        case DoJmpi => ret := DoOneArg(cmd, JMP, true);
        case DoBranch(op) => ret := DoTwoArg(cmd, op, true);
      }
    }

    method ParseOne(cmd: seq<Token>) returns (ret: Ret)
      requires cmd != [] && AllIn(code, cmd)
      modifies this`mc, this`declare, this`avaddr
      ensures Agrees(ret, State(), ParseLine(code, old(State()), cmd, |vcmd|))
    {
      var iname := if cmd[0].kind == Label then 1 else 0;
      if iname >= |cmd| {
        return NullRead;
      }
      var fn := ActionOf(Text(code, cmd[iname]));
      if fn.None? {
        return Error;
      }
      ret := Action(cmd, fn.value);
    }

    /** a32_parse */
    method RunParser() returns (ret: Ret)
      requires Parseable(code, vcmd)
      modifies this`mc, this`declare, this`avaddr
      ensures Agrees(ret, State(), ParseLines(code, old(State()), vcmd, |vcmd|))
    {
      var i := 0;
      while i < |vcmd|
        invariant i <= |vcmd|
        invariant ParseLines(code, State(), vcmd[i..], |vcmd|) == ParseLines(code, old(State()), vcmd, |vcmd|)
      {
        assert vcmd[i..][0] == vcmd[i] && vcmd[i..][1..] == vcmd[i + 1..];
        ret := ParseOne(vcmd[i]);
        if ret != Fine {
          return;
        }
        i := i + 1;
      }
      ret := Fine;
    }

    /** chip32_compiler_build on a new compiler object. */
    method Build() returns (ret: Ret)
      requires parse == 0 && line == 1 && vcmd == [] && State() == EMPTY
      modifies this`parse, this`line, this`vcmd, this`mc, this`declare, this`avaddr
      ensures Agrees(ret, State(), Parser.Build(code))
    {
      ghost var lexed := Lex(code, parse, line);
      LinesBeforeNothing(lexed);
      BuildUnfolds(code);
      var ok := RunLexer();
      if !ok {
        return Error;
      }
      assert lexed == Some(vcmd);
      ret := RunParser();
    }

    /** chip32_commands_save */
    method Save() returns (f: seq<Byte>)
      ensures f == CommandFile.Save(mc)
    {
      f := CommandFile.SaveCommands(mc);
    }
  }
}
