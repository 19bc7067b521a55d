/** The text of chip32_command_dump, and what the assembler makes of it. */
module Disassembler {
  import opened Bits
  import opened Decimal
  import opened Machine
  import opened Lexer
  import opened Parser
  import opened SourceText
  import Opcodes

  // ---------- the dump ----------

  /** The name and number of arguments the dump table gives an opcode. */
  function Mnemonic(op: Byte): string {
    if op == MOVE then "move" else if op == INC then "inc" else if op == DEC then "dec"
    else if op == SUM then "sum" else if op == DIF then "dif" else if op == MUL then "mul"
    else if op == DIV then "div" else if op == MOD then "mod" else if op == OR then "or"
    else if op == XOR then "xor" else if op == AND then "and" else if op == NOT then "not"
    else if op == SHL then "shl" else if op == SHR then "shr" else if op == ROL then "rol"
    else if op == ROR then "ror" else if op == BOR then "bor" else if op == BAND then "band"
    else if op == BNOT then "bnot" else if op == JMP then "jmp" else if op == IFT then "ift"
    else if op == IFF then "iff" else if op == CALL then "call" else if op == RET then "ret"
    else if op == PUSH then "push" else if op == POP then "pop" else if op == INITR then "initr"
    else if op == LOGI then "logi" else if op == LOGU then "logu" else if op == LOGC then "logc"
    else if op == LOGS then "logs" else if op == LOGLN then "logln" else if op == STRCPY then "strcpy"
    else "nop"
  }

  function ArgCount(op: Byte): nat {
    if op == INC || op == DEC || op == NOT || op == JMP || CALL <= op <= POP || op == INITR || LOGI <= op <= LOGS then 1
    else if MOVE <= op <= BNOT || op == IFT || op == IFF || op == STRCPY then 2
    else 0
  }

  function Printed(ty: nat, x: Word): Arg {
    Num(ty, PrintInt(x))
  }

  /** As many operands as the dump table says, typed by two flag bits each. */
  function DumpedArgs(c: Command): seq<Arg> {
    var a, b := Printed(Arg0Type(c.flags), c.arg0), Printed(Arg1Type(c.flags), c.arg1);
    var n := ArgCount(c.cmd);
    if n == 0 then [] else if n == 1 then [a] else [a, b]
  }

  /** The line of one command, behind its index. */
  function Dumped(c: Command): Line {
    Line(Mnemonic(c.cmd), DumpedArgs(c))
  }

  /** The action the assembler takes for the dumped name of an opcode. */
  function ActionFor(op: Byte): Action {
    if op == INITR then DoInitr
    else if op == RET || op == LOGLN then NoArg(op)
    else if op == IFT || op == IFF then DoBranch(op)
    else if op == INC || op == DEC || op == BNOT || op == JMP || op == CALL || op == POP || LOGI <= op <= LOGS then OneArg(op)
    else if op == MOVE || SUM <= op <= BAND || op == PUSH || op == STRCPY then TwoArg(op)
    else NoArg(NOP)
  }

  lemma MnemonicAction(op: Byte)
    ensures ActionOf(Mnemonic(op)) == Some(ActionFor(op))
  {
  }

  /** Exactly the commands whose dump the assembler reads back unchanged. */
  predicate Reassembles(c: Command) {
    match ActionFor(c.cmd)
    case NoArg(op) => c == Command(0, op, 0, 0)
    case OneArg(_) => c.flags < 4 && c.arg1 == 0
    case DoInitr => c.flags == 0 && c.arg1 == 0
    case TwoArg(op) => c.flags < 16 && (Arg0Type(c.flags) == RAM || Arg0Type(c.flags) == PTR) && op != NOT && op != PUSH
    case _ => false
  }

  lemma MnemonicIsName(op: Byte)
    ensures IsIdentifier(Mnemonic(op))
  {
  }

  lemma DumpedIsProper(c: Command)
    ensures ProperLine(Dumped(c))
  {
    MnemonicIsName(c.cmd);
    PrintedIsInt(c.arg0);
    PrintedIsInt(c.arg1);
  }

  // ---------- reading operands back ----------

  /** The token t holds the printed word x. */
  predicate IsWord(code: string, t: Token, x: Word) {
    t.kind == LiteralNum && t.start <= |code| && ParseWord(code, t.start) == x
  }

  lemma RvalueAt(code: string, asm: Asm, tokens: seq<Token>, i: nat, ty: nat, t: Token, x: Word)
    requires AllIn(code, tokens) && ty < 4 && IsWord(code, t, x)
    requires i + |Typed(ty, t)| <= |tokens| && tokens[i..i + |Typed(ty, t)|] == Typed(ty, t)
    ensures ParseRvalue(code, asm, tokens, i) == Operand(ty, x, i + |Typed(ty, t)| - 1)
  {
    assert tokens[i] == Typed(ty, t)[0];
    assert ty != LITERAL ==> tokens[i + 1] == Typed(ty, t)[1];
  }

  lemma LvalueAt(code: string, asm: Asm, tokens: seq<Token>, i: nat, ty: nat, t: Token, x: Word)
    requires AllIn(code, tokens) && ty < 4 && IsWord(code, t, x)
    requires i + |Typed(ty, t)| <= |tokens| && tokens[i..i + |Typed(ty, t)|] == Typed(ty, t)
    ensures ParseLvalue(code, asm, tokens, i) ==
      if ty == RAM || ty == PTR then Operand(ty, x, i + 1) else Bad
  {
    assert tokens[i] == Typed(ty, t)[0];
    assert ty != LITERAL ==> tokens[i + 1] == Typed(ty, t)[1];
  }

  /** The number token of a printed operand at p. */
  function WordToken(ty: nat, x: Word, p: nat, line: nat): Token {
    Token(LiteralNum, p + |Prefix(ty)|, p + |ArgText(Printed(ty, x))|, line)
  }

  lemma WordTokenIs(code: string, p: nat, e: nat, line: nat, ty: nat, x: Word)
    requires Holds(code, p, ArgText(Printed(ty, x))) && e == p + |ArgText(Printed(ty, x))| && !IsDigit(At(code, e))
    ensures IsWord(code, WordToken(ty, x, p, line), x)
    ensures ArgTokens(Printed(ty, x), p, line) == Typed(ty, WordToken(ty, x, p, line))
  {
    HoldsSplit(code, p, Prefix(ty), PrintInt(x));
    ParsePrinted(code, p + |Prefix(ty)|, x);
  }

  function WordTokens(ty: nat, x: Word, p: nat, line: nat): seq<Token> {
    Typed(ty, WordToken(ty, x, p, line))
  }

  /** Where a second operand starts, behind its comma. */
  function Behind(ty: nat, x: Word, m: nat): nat {
    m + 2 + |ArgText(Printed(ty, x))|
  }

  lemma OneWord(code: string, m: nat, line: nat, ty: nat, x: Word)
    requires ty < 4 && Holds(code, m, ArgsText([Printed(ty, x)]))
    ensures IsWord(code, WordToken(ty, x, m + 1, line), x)
    ensures ArgsTokens([Printed(ty, x)], m, line) == WordTokens(ty, x, m + 1, line)
  {
    SplitLast(code, m, ArgText(Printed(ty, x)));
    WordTokenIs(code, m + 1, m + 1 + |ArgText(Printed(ty, x))|, line, ty, x);
  }

  lemma TwoWords(code: string, m: nat, q: nat, line: nat, ty: nat, x: Word, b: Arg)
    requires ty < 4 && Holds(code, m, ArgsText([Printed(ty, x), b])) && q == Behind(ty, x, m)
    ensures IsWord(code, WordToken(ty, x, m + 1, line), x) && Holds(code, q, ArgsText([b]))
  {
    var args, w := [Printed(ty, x), b], ArgText(Printed(ty, x));
    assert args[1..] == [b];
    SplitFirst(code, m, q, args, w);
    WordTokenIs(code, m + 1, q - 1, line, ty, x);
  }

  lemma TwoTokens(m: nat, q: nat, line: nat, ty: nat, x: Word, b: Arg)
    requires ty < 4 && q == Behind(ty, x, m)
    ensures ArgsTokens([Printed(ty, x), b], m, line) == WordTokens(ty, x, m + 1, line) + ArgsTokens([b], q, line)
  {
    var args := [Printed(ty, x), b];
    assert args[1..] == [b];
    ArgsUnfold(args, m, line);
  }

  // ---------- parsing the dump back ----------

  predicate Unlabelled(code: string, tokens: seq<Token>) {
    tokens != [] && AllIn(code, tokens) && tokens[0].kind == Name
  }

  /** The tokens behind a line's name, group by group. */
  lemma Groups(tokens: seq<Token>, a: seq<Token>, b: seq<Token>)
    requires tokens != [] && tokens == [tokens[0]] + (a + b)
    ensures |tokens| == 1 + |a| + |b| && tokens[1..1 + |a|] == a && tokens[1 + |a|..1 + |a| + |b|] == b
  {
    assert tokens[1..] == a + b;
    assert tokens[1..1 + |a|] == tokens[1..][..|a|] && tokens[1 + |a|..1 + |a| + |b|] == tokens[1..][|a|..];
  }

  /** parse_onearg, action_jmpi and action_initr on one printed operand; anything behind it is
      ignored. */
  lemma OneArgBack(code: string, asm: Asm, tokens: seq<Token>, rest: seq<Token>, lines: nat, op: Byte, ty: nat,
                   t: Token, x: Word)
    requires Unlabelled(code, tokens) && tokens == [tokens[0]] + (Typed(ty, t) + rest)
    requires ty < 4 && IsWord(code, t, x)
    ensures ParseOneArg(code, asm, tokens, lines, op) == Parsed(Emit(asm, Command(ty, op, x, 0)))
    ensures ParseInitr(code, asm, tokens, lines) ==
      if ty == LITERAL then Parsed(Emit(asm, Command(0, INITR, x, 0))) else Rejected
  {
    Groups(tokens, Typed(ty, t), rest);
    RvalueAt(code, asm, tokens, 1, ty, t, x);
    assert tokens[1] == Typed(ty, t)[0];
  }

  lemma TwoArgBack(code: string, asm: Asm, tokens: seq<Token>, lines: nat, op: Byte, branch: bool, t0: nat,
                   a: Token, x: Word, t1: nat, b: Token, y: Word)
    requires Unlabelled(code, tokens) && tokens == [tokens[0]] + (Typed(t0, a) + Typed(t1, b))
    requires t0 < 4 && t1 < 4 && IsWord(code, a, x) && IsWord(code, b, y)
    ensures ParseTwoArg(code, asm, tokens, lines, op, branch) ==
      if t0 == RAM || t0 == PTR then
        Parsed(Emit(asm, Command(Flags(t0, t1), op, x, if branch then Relative(asm, y) else y)))
      else Rejected
  {
    Groups(tokens, Typed(t0, a), Typed(t1, b));
    LvalueAt(code, asm, tokens, 1, t0, a, x);
    if t0 == RAM || t0 == PTR {
      RvalueAt(code, asm, tokens, 1 + |Typed(t0, a)|, t1, b, y);
    }
  }

  lemma MissingSecond(code: string, asm: Asm, tokens: seq<Token>, lines: nat, op: Byte, branch: bool, ty: nat,
                      t: Token, x: Word)
    requires Unlabelled(code, tokens) && tokens == [tokens[0]] + Typed(ty, t)
    requires ty < 4 && IsWord(code, t, x)
    ensures ParseTwoArg(code, asm, tokens, lines, op, branch) == Rejected
  {
    assert Typed(ty, t) == Typed(ty, t) + [];
    Groups(tokens, Typed(ty, t), []);
    LvalueAt(code, asm, tokens, 1, ty, t, x);
  }

  predicate Back(r: Parsed, asm: Asm, c: Command) {
    r == Parsed(Emit(asm, c))
  }

  lemma FlagsBack(f: Byte)
    ensures Flags(Arg0Type(f), Arg1Type(f)) == f <==> f < 16
    ensures Arg0Type(f) == f <==> f < 4
  {
  }

  lemma EmitOnce(asm: Asm, c: Command, d: Command)
    ensures Emit(asm, c) == Emit(asm, d) <==> c == d
  {
    assert Emit(asm, c).mc[|asm.mc|] == c && Emit(asm, d).mc[|asm.mc|] == d;
  }

  lemma NoneBack(code: string, tokens: seq<Token>, asm: Asm, lines: nat, c: Command)
    requires ArgCount(c.cmd) == 0 && Unlabelled(code, tokens)
    ensures Back(Act(code, asm, tokens, lines, ActionFor(c.cmd)), asm, c) <==> Reassembles(c)
  {
    EmitOnce(asm, c, Command(0, if c.cmd == LOGLN then LOGLN else NOP, 0, 0));
  }

  /** When the one command that was emitted is the dumped one. */
  lemma EmittedIff(r: Parsed, asm: Asm, c: Command, d: Command)
    requires Back(r, asm, d)
    ensures Back(r, asm, c) <==> c == d
  {
    EmitOnce(asm, c, d);
  }

  lemma OneArgBackIff(code: string, tokens: seq<Token>, rest: seq<Token>, t: Token, asm: Asm, lines: nat, c: Command)
    requires ActionFor(c.cmd) == OneArg(c.cmd) && IsWord(code, t, c.arg0)
    requires Unlabelled(code, tokens) && tokens == [tokens[0]] + (Typed(Arg0Type(c.flags), t) + rest)
    ensures Back(ParseOneArg(code, asm, tokens, lines, c.cmd), asm, c) <==> c.flags < 4 && c.arg1 == 0
  {
    var d := Command(Arg0Type(c.flags), c.cmd, c.arg0, 0);
    FlagsBack(c.flags);
    OneArgBack(code, asm, tokens, rest, lines, c.cmd, Arg0Type(c.flags), t, c.arg0);
    EmittedIff(ParseOneArg(code, asm, tokens, lines, c.cmd), asm, c, d);
  }

  lemma InitrBackIff(code: string, tokens: seq<Token>, t: Token, asm: Asm, lines: nat, c: Command)
    requires c.cmd == INITR && IsWord(code, t, c.arg0)
    requires Unlabelled(code, tokens) && tokens == [tokens[0]] + (Typed(Arg0Type(c.flags), t) + [])
    ensures Back(ParseInitr(code, asm, tokens, lines), asm, c) <==> c.flags == 0 && c.arg1 == 0
  {
    OneArgBack(code, asm, tokens, [], lines, c.cmd, Arg0Type(c.flags), t, c.arg0);
    if Arg0Type(c.flags) == LITERAL {
      EmittedIff(ParseInitr(code, asm, tokens, lines), asm, c, Command(0, INITR, c.arg0, 0));
    }
  }

  lemma OneBack(code: string, tokens: seq<Token>, t: Token, asm: Asm, lines: nat, c: Command)
    requires ArgCount(c.cmd) == 1 && IsWord(code, t, c.arg0)
    requires Unlabelled(code, tokens) && tokens == [tokens[0]] + Typed(Arg0Type(c.flags), t)
    ensures Back(Act(code, asm, tokens, lines, ActionFor(c.cmd)), asm, c) <==> Reassembles(c)
  {
    var ty := Arg0Type(c.flags);
    assert Typed(ty, t) == Typed(ty, t) + [];
    match ActionFor(c.cmd)
    case NoArg(_) => EmitOnce(asm, c, Command(0, RET, 0, 0));
    case TwoArg(_) => MissingSecond(code, asm, tokens, lines, c.cmd, false, ty, t, c.arg0);
    case OneArg(_) => OneArgBackIff(code, tokens, [], t, asm, lines, c);
    case _ => InitrBackIff(code, tokens, t, asm, lines, c);
  }

  /** The target of a branch is moved by where it is assembled. */
  lemma RelativeMoves(asm: Asm, w: Word)
    requires |asm.mc| + 1 < TWO32
    ensures Relative(asm, w) != w
  {
  }

  /** What parse_twoarg makes of two printed operands, and when that is the command itself. */
  predicate TwoArgResult(r: Parsed, asm: Asm, c: Command, branch: bool) {
    var t0, t1 := Arg0Type(c.flags), Arg1Type(c.flags);
    if t0 == RAM || t0 == PTR then
      Back(r, asm, Command(Flags(t0, t1), c.cmd, c.arg0, if branch then Relative(asm, c.arg1) else c.arg1))
    else r == Rejected
  }

  lemma TwoArgIff(r: Parsed, asm: Asm, c: Command, branch: bool)
    requires TwoArgResult(r, asm, c, branch) && |asm.mc| + 1 < TWO32
    ensures Back(r, asm, c) <==>
      !branch && c.flags < 16 && (Arg0Type(c.flags) == RAM || Arg0Type(c.flags) == PTR)
  {
    var t0, t1 := Arg0Type(c.flags), Arg1Type(c.flags);
    FlagsBack(c.flags);
    RelativeMoves(asm, c.arg1);
    EmitOnce(asm, c, Command(Flags(t0, t1), c.cmd, c.arg0, if branch then Relative(asm, c.arg1) else c.arg1));
  }

  lemma TwoBack(code: string, tokens: seq<Token>, s: Token, t: Token, asm: Asm, lines: nat, c: Command)
    requires ArgCount(c.cmd) == 2 && IsWord(code, s, c.arg0) && IsWord(code, t, c.arg1) && |asm.mc| + 1 < TWO32
    requires Unlabelled(code, tokens)
    requires tokens == [tokens[0]] + (Typed(Arg0Type(c.flags), s) + Typed(Arg1Type(c.flags), t))
    ensures Back(Act(code, asm, tokens, lines, ActionFor(c.cmd)), asm, c) <==> Reassembles(c)
  {
    var t0, t1 := Arg0Type(c.flags), Arg1Type(c.flags);
    if c.cmd == BNOT {
      OneArgBackIff(code, tokens, Typed(t1, t), s, asm, lines, c);
    } else {
      var branch := c.cmd == IFT || c.cmd == IFF;
      TwoArgBack(code, asm, tokens, lines, c.cmd, branch, t0, s, c.arg0, t1, t, c.arg1);
      var r := ParseTwoArg(code, asm, tokens, lines, c.cmd, branch);
      assert TwoArgResult(r, asm, c, branch);
      TwoArgIff(r, asm, c, branch);
    }
  }

  /** The tokens of two printed operands are those of two words. */
  lemma TwoWordTokens(code: string, m: nat, q: nat, line: nat, t0: nat, x: Word, t1: nat, y: Word)
    requires t0 < 4 && t1 < 4 && Holds(code, m, ArgsText([Printed(t0, x), Printed(t1, y)])) && q == Behind(t0, x, m)
    ensures IsWord(code, WordToken(t0, x, m + 1, line), x) && IsWord(code, WordToken(t1, y, q + 1, line), y)
    ensures ArgsTokens([Printed(t0, x), Printed(t1, y)], m, line)
         == Typed(t0, WordToken(t0, x, m + 1, line)) + Typed(t1, WordToken(t1, y, q + 1, line))
  {
    TwoWords(code, m, q, line, t0, x, Printed(t1, y));
    TwoTokens(m, q, line, t0, x, Printed(t1, y));
    OneWord(code, q, line, t1, y);
  }

  /** A name token, and behind it the tokens of a command's operands, which stand from m on. */
  predicate TokensOf(code: string, m: nat, line: nat, tokens: seq<Token>, c: Command) {
    && Unlabelled(code, tokens) && Holds(code, m, ArgsText(DumpedArgs(c)))
    && tokens == [tokens[0]] + ArgsTokens(DumpedArgs(c), m, line)
  }

  lemma DumpBackIff(code: string, m: nat, line: nat, tokens: seq<Token>, asm: Asm, lines: nat, c: Command)
    requires TokensOf(code, m, line, tokens, c) && |asm.mc| + 1 < TWO32
    ensures Back(Act(code, asm, tokens, lines, ActionFor(c.cmd)), asm, c) <==> Reassembles(c)
  {
    var t0, t1 := Arg0Type(c.flags), Arg1Type(c.flags);
    if ArgCount(c.cmd) == 0 {
      NoneBack(code, tokens, asm, lines, c);
    } else if ArgCount(c.cmd) == 1 {
      OneWord(code, m, line, t0, c.arg0);
      OneBack(code, tokens, WordToken(t0, c.arg0, m + 1, line), asm, lines, c);
    } else {
      var q := Behind(t0, c.arg0, m);
      TwoWordTokens(code, m, q, line, t0, c.arg0, t1, c.arg1);
      TwoBack(code, tokens, WordToken(t0, c.arg0, m + 1, line), WordToken(t1, c.arg1, q + 1, line), asm, lines, c);
    }
  }

  lemma LineParts(code: string, p: nat, line: nat, c: Command)
    requires Holds(code, p, LineText(Dumped(c))) && IsLine(code, LineTokens(Dumped(c), p, line), Dumped(c).name)
    ensures TokensOf(code, p + |Dumped(c).name|, line, LineTokens(Dumped(c), p, line), c)
  {
    HoldsSplit(code, p, Dumped(c).name, ArgsText(Dumped(c).args));
  }

  lemma LineBackIff(code: string, p: nat, line: nat, asm: Asm, lines: nat, c: Command)
    requires Holds(code, p, LineText(Dumped(c))) && |asm.mc| + 1 < TWO32
    requires IsLine(code, LineTokens(Dumped(c), p, line), Dumped(c).name)
    ensures Back(Act(code, asm, LineTokens(Dumped(c), p, line), lines, ActionFor(c.cmd)), asm, c) <==> Reassembles(c)
  {
    LineParts(code, p, line, c);
    DumpBackIff(code, p + |Dumped(c).name|, line, LineTokens(Dumped(c), p, line), asm, lines, c);
  }

  /** The round trip: the dump of a command, standing anywhere in a source, is lexed as one
      line, and the parser appends the same command if and only if it Reassembles. */
  lemma RoundTripIff(code: string, p: nat, line: nat, asm: Asm, lines: nat, c: Command)
    requires Holds(code, p, LineText(Dumped(c))) && |asm.mc| + 1 < TWO32
    ensures var l := LexLine(code, p, line);
      && l.Some? && l.value.1 == p + |LineText(Dumped(c))|
      && l.value.0 != [] && AllIn(code, l.value.0)
      && (ParseLine(code, asm, l.value.0, lines) == Parsed(Emit(asm, c)) <==> Reassembles(c))
  {
    var l := Dumped(c);
    DumpedIsProper(c);
    LexLineAt(code, p, line, l);
    LineIsNamed(code, p, line, l);
    LineBackIff(code, p, line, asm, lines, c);
    MnemonicAction(c.cmd);
    ParseByAction(code, asm, LineTokens(l, p, line), lines, l.name, ActionFor(c.cmd));
  }

  // ---------- what the assembler emits ----------

  predicate Emitted(c: Command) {
    Reassembles(c) || c.cmd == NOT || c.cmd == PUSH || c.cmd == IFT || c.cmd == IFF
  }

  predicate AllEmitted(cs: seq<Command>) {
    forall i :: 0 <= i < |cs| ==> Emitted(cs[i])
  }

  lemma {:induction false} MovesEmitted(addr: nat, s: string)
    ensures AllEmitted(StringMoves(addr, s))
    decreases |s|
  {
    if s != [] {
      MovesEmitted(addr + 1, s[1..]);
    }
  }

  /** The operations of the action table, each with its own shape. */
  lemma ActionsHaveShape(name: string)
    requires ActionOf(name).Some?
    ensures match ActionOf(name).value
      case NoArg(op) => ActionFor(op) == NoArg(op)
      case OneArg(op) => ActionFor(op) == OneArg(op)
      case TwoArg(op) => ActionFor(op) == TwoArg(op)
      case DoBranch(op) => op == IFT || op == IFF
      case _ => true
  {
  }

  lemma EmitKeeps(asm: Asm, c: Command)
    requires AllEmitted(asm.mc) && Emitted(c)
    ensures AllEmitted(Emit(asm, c).mc)
  {
  }

  lemma OneArgEmitted(ty: nat, op: Byte, w: Word)
    requires ty < 4 && ActionFor(op) == OneArg(op)
    ensures Emitted(Command(Flags(ty, 0), op, w, 0))
  {
  }

  /** Whatever two operands a command of this operation gets. */
  ghost predicate EmitsTwo(op: Byte) {
    forall c: Command {:trigger Emitted(c)} ::
      c.cmd == op && c.flags < 16 && (Arg0Type(c.flags) == RAM || Arg0Type(c.flags) == PTR) ==> Emitted(c)
  }

  lemma TwoArgsEmitted(op: Byte)
    requires ActionFor(op) == TwoArg(op) || op == IFT || op == IFF
    ensures EmitsTwo(op)
  {
  }

  /** Every command of every accepted line reassembles, or is one of the four exceptions. */
  lemma LineEmits(code: string, asm: Asm, tokens: seq<Token>, lines: nat)
    requires tokens != [] && AllIn(code, tokens) && AllEmitted(asm.mc)
    ensures var r := ParseLine(code, asm, tokens, lines);
      r.Parsed? ==> AllEmitted(r.asm.mc)
  {
    var i := if tokens[0].kind == Label then 1 else 0;
    if i < |tokens| && ActionOf(Text(code, tokens[i])).Some? {
      var a := ActionOf(Text(code, tokens[i])).value;
      ActionsHaveShape(Text(code, tokens[i]));
      ActEmits(code, asm, tokens, lines, a);
    }
  }

  lemma ActEmits(code: string, asm: Asm, tokens: seq<Token>, lines: nat, a: Action)
    requires tokens != [] && AllIn(code, tokens) && AllEmitted(asm.mc)
    requires a.NoArg? ==> ActionFor(a.op) == a
    requires a.OneArg? ==> ActionFor(a.op) == a
    requires a.TwoArg? ==> ActionFor(a.op) == a
    requires a.DoBranch? ==> a.op == IFT || a.op == IFF
    ensures var r := Act(code, asm, tokens, lines, a);
      r.Parsed? ==> AllEmitted(r.asm.mc)
  {
    var (named, asm1) := ParseLabel(code, asm, tokens, lines);
    var i := FirstOperand(named);
    var o := ParseRvalue(code, asm1, tokens, i);
    match a
    case DoDeclare => DeclareEmits(code, asm, tokens);
    case DoInitr =>
    case NoArg(op) =>
    case OneArg(op) =>
      if o.Operand? {
        OneArgEmitted(o.ty, op, o.word);
      }
    case DoJmpi =>
      if o.Operand? {
        OneArgEmitted(o.ty, JMP, Relative(asm1, o.word));
      }
    case TwoArg(op) =>
      TwoArgsEmitted(op);
      TwoOperandsEmit(code, asm1, tokens, i, op, false);
    case DoBranch(op) =>
      TwoArgsEmitted(op);
      TwoOperandsEmit(code, asm1, tokens, i, op, true);
  }

  lemma TwoCommandEmitted(asm: Asm, op: Byte, l: Operand, ty: nat, w: Word)
    requires AllEmitted(asm.mc) && EmitsTwo(op) && l.Operand? && (l.ty == RAM || l.ty == PTR) && ty < 4
    ensures AllEmitted(Emit(asm, TwoCommand(op, l, ty, w)).mc)
  {
    var c := TwoCommand(op, l, ty, w);
    assert Arg0Type(c.flags) == l.ty && Emitted(c);
    EmitKeeps(asm, c);
  }

  /** Two operands that are accepted give one command, whatever its second word. */
  lemma TwoOperandsGive(code: string, asm: Asm, tokens: seq<Token>, i: nat, op: Byte,
                        branch: bool) returns (l: Operand, ty: nat, w: Word)
    requires AllIn(code, tokens) && TwoOperands(code, asm, tokens, i, op, branch).Parsed?
    ensures l.Operand? && (l.ty == RAM || l.ty == PTR) && ty < 4
    ensures TwoOperands(code, asm, tokens, i, op, branch) == Parsed(Emit(asm, TwoCommand(op, l, ty, w)))
  {
    TwoOperandsUnfold(code, asm, tokens, i, op, branch);
    l := ParseLvalue(code, asm, tokens, i);
    var o := ParseRvalue(code, asm, tokens, l.last + 1);
    ty, w := o.ty, SecondWord(asm, o.word, branch);
  }

  lemma TwoOperandsEmit(code: string, asm: Asm, tokens: seq<Token>, i: nat, op: Byte, branch: bool)
    requires AllIn(code, tokens) && AllEmitted(asm.mc) && EmitsTwo(op)
    ensures var r := TwoOperands(code, asm, tokens, i, op, branch);
      r.Parsed? ==> AllEmitted(r.asm.mc)
  {
    if TwoOperands(code, asm, tokens, i, op, branch).Parsed? {
      var l, ty, w := TwoOperandsGive(code, asm, tokens, i, op, branch);
      TwoCommandEmitted(asm, op, l, ty, w);
    }
  }

  lemma DeclareEmits(code: string, asm: Asm, tokens: seq<Token>)
    requires tokens != [] && AllIn(code, tokens) && AllEmitted(asm.mc)
    ensures var r := ParseDeclare(code, asm, tokens);
      r.Parsed? ==> AllEmitted(r.asm.mc)
  {
    if |tokens| > 4 && tokens[1].kind == Name && tokens[4].kind == LiteralStr {
      var addr := if tokens[2].kind == Auto then asm.avaddr else StrToUl(code, tokens[1].start);
      var s := tokens[4].start + 1;
      FindCharAhead(code, s, '"');
      if FindChar(code, s, '"').Some? {
        MovesEmitted(addr, code[s..FindChar(code, s, '"').value]);
      }
    }
  }

  lemma {:induction false} LinesEmit(code: string, asm: Asm, lines: Lines, total: nat)
    requires Parseable(code, lines) && AllEmitted(asm.mc)
    ensures var r := ParseLines(code, asm, lines, total);
      r.Parsed? ==> AllEmitted(r.asm.mc)
    decreases |lines|
  {
    if lines != [] {
      LineEmits(code, asm, lines[0], total);
      var r := ParseLine(code, asm, lines[0], total);
      if r.Parsed? {
        LinesEmit(code, r.asm, lines[1..], total);
      }
    }
  }

  // ---------- whole programs ----------

  function DumpAll(cs: seq<Command>): seq<Line> {
    if cs == [] then [] else [Dumped(cs[0])] + DumpAll(cs[1..])
  }

  predicate AllReassemble(cs: seq<Command>) {
    forall i :: 0 <= i < |cs| ==> Reassembles(cs[i])
  }

  lemma {:induction false} DumpAllProper(cs: seq<Command>)
    ensures AllProperLines(DumpAll(cs))
  {
    if cs != [] {
      DumpedIsProper(cs[0]);
      DumpAllProper(cs[1..]);
    }
  }

  lemma DumpGives(asm: Asm, c: Command)
    requires |asm.mc| + 1 < TWO32 && Reassembles(c)
    ensures Gives(Dumped(c), asm, Emit(asm, c))
  {
    var l := Dumped(c);
    forall code: string, p: nat, line: nat, total: nat | Holds(code, p, LineText(l))
      ensures LineTo(code, p, line, asm, l, total, Emit(asm, c))
    {
      DumpedIsProper(c);
      LexLineAt(code, p, line, l);
      RoundTripIff(code, p, line, asm, total, c);
    }
  }

  lemma {:induction false} DumpAllGives(asm: Asm, cs: seq<Command>)
    requires AllReassemble(cs) && |asm.mc| + |cs| < TWO32
    ensures AllGive(DumpAll(cs), asm, Appended(asm, cs))
    decreases |cs|
  {
    AppendedMore(asm, Command(0, 0, 0, 0), []);
    if cs != [] {
      var c, rest := cs[0], cs[1..];
      assert cs == [c] + rest;
      AppendedMore(asm, c, rest);
      DumpGives(asm, c);
      DumpAllGives(Emit(asm, c), rest);
      GiveMore(Dumped(c), DumpAll(rest), asm, Emit(asm, c), Appended(asm, cs));
    }
  }

  /** The dump of a whole program, without the indices, builds the same program. */
  lemma DumpBuilds(cs: seq<Command>)
    requires AllReassemble(cs) && |cs| < TWO32
    ensures Build(Document(DumpAll(cs))) == Parsed(EMPTY.(mc := cs))
  {
    DumpAllProper(cs);
    DumpAllGives(EMPTY, cs);
    BuildDocument(DumpAll(cs), Appended(EMPTY, cs));
    assert [] + cs == cs;
  }

  /** Any program the assembler builds, as long as it has none of the four exceptions, is
      rebuilt from its own dump. */
  lemma BuildDumpBuild(source: string)
    ensures var r := Build(source);
      r.Parsed? && |r.asm.mc| < TWO32
      && (forall i :: 0 <= i < |r.asm.mc| ==> r.asm.mc[i].cmd !in {NOT, PUSH, IFT, IFF})
      ==> Build(Document(DumpAll(r.asm.mc))) == Parsed(EMPTY.(mc := r.asm.mc))
  {
    var r := Build(source);
    if r.Parsed? && |r.asm.mc| < TWO32 && forall i :: 0 <= i < |r.asm.mc| ==> r.asm.mc[i].cmd !in {NOT, PUSH, IFT, IFF} {
      LexedParse(source, 0, 1);
      var lines := Lex(source, 0, 1).value;
      LinesEmit(source, EMPTY, lines, |lines|);
      assert AllReassemble(r.asm.mc);
      DumpBuilds(r.asm.mc);
    }
  }

  // ---------- the text of the dump ----------

  /** How many operands are printed behind a mnemonic. */
  function PrintedOperands(name: string): nat {
    match name
    case "nop" => 0
    case "inc" => 1
    case "dec" => 1
    case "not" => 1
    case "jmp" => 1
    case "call" => 1
    case "ret" => 1
    case "push" => 1
    case "pop" => 1
    case "initr" => 1
    case "logi" => 1
    case "logu" => 1
    case "logc" => 1
    case "logs" => 1
    case "logln" => 0
    case _ => 2
  }

  /** The prefix of an operand type. */
  function TypePrefix(ty: nat): string {
    if ty == 0 then "" else if ty == 1 then "$" else if ty == 2 then "*" else "@"
  }

  /** The first n operands of a command, each with the prefix of its two flag bits. */
  function OperandsDump(c: Command, n: nat): string {
    var a, b := TypePrefix(c.flags % 4) + PrintInt(c.arg0), TypePrefix(c.flags / 4 % 4) + PrintInt(c.arg1);
    if n == 0 then "" else if n == 1 then " " + a else " " + a + (", " + b)
  }

  /** The dump of a command: the mnemonic of its opcode, nop where there is none, and as many
      operands as the table has. */
  lemma DumpText(c: Command)
    ensures var name := Mnemonic(c.cmd);
      && (if Opcodes.Known(c.cmd) then Opcodes.Opcode(name) == c.cmd && name != "jmpi" else name == "nop")
      && LineText(Dumped(c)) == name + OperandsDump(c, PrintedOperands(name)) + "\n"
  {
    TableOf(c.cmd);
    ArgsLayout(c);
  }

  lemma ArgsLayout(c: Command)
    ensures ArgsText(DumpedArgs(c)) == OperandsDump(c, ArgCount(c.cmd)) + "\n"
  {
    OperandsText(Printed(Arg0Type(c.flags), c.arg0), Printed(Arg1Type(c.flags), c.arg1));
  }

  lemma OperandsText(a: Arg, b: Arg)
    ensures ArgsText([a]) == " " + ArgText(a) + "\n"
    ensures ArgsText([a, b]) == " " + ArgText(a) + (", " + ArgText(b)) + "\n"
  {
    assert [a, b][1..] == [b];
    Joined(ArgText(a), ArgText(b));
  }

  lemma Joined(a: string, b: string)
    ensures " " + a + ("," + (" " + b + "\n")) == " " + a + (", " + b) + "\n"
  {
  }

  lemma TableOf(op: Byte)
    ensures PrintedOperands(Mnemonic(op)) == ArgCount(op)
    ensures if Opcodes.Known(op) then Opcodes.Opcode(Mnemonic(op)) == op && Mnemonic(op) != "jmpi"
            else Mnemonic(op) == "nop"
  {
  }
}
