/** From lexed lines to commands: the actions of core/c32asmpars.c. The hash table of names it
    uses is read as a map, which NameTable justifies. */
module Parser {
  import opened Bits
  import opened Decimal
  import opened Machine
  import opened Lexer
  import opened SourceText

  const START_ADDR := 35
  const MAX_KEY := 64

  /** A declared name: a variable's address, or a label's line count. */
  datatype Declared = Declared(isLabel: bool, addr: nat)

  datatype Asm = Asm(mc: seq<Command>, avaddr: nat, declare: map<string, Declared>)

  const EMPTY := Asm([], START_ADDR, map[])

  /** Rejected: the assembler reports an error. Crashed: it follows a null pointer or reads a
      token that was never set. Unmodelled: a declare with an explicit size. */
  datatype Parsed = Parsed(asm: Asm) | Rejected | Crashed | Unmodelled

  datatype Action = DoDeclare | DoInitr | NoArg(op: Byte) | OneArg(op: Byte) | TwoArg(op: Byte) | DoJmpi | DoBranch(op: Byte)

  function ActionOf(name: string): Option<Action> {
    match name
    case "declare" => Some(DoDeclare)
    case "initr" => Some(DoInitr)
    case "nop" => Some(NoArg(NOP))
    case "move" => Some(TwoArg(MOVE))
    case "inc" => Some(OneArg(INC))
    case "dec" => Some(OneArg(DEC))
    case "sum" => Some(TwoArg(SUM))
    case "dif" => Some(TwoArg(DIF))
    case "mul" => Some(TwoArg(MUL))
    case "div" => Some(TwoArg(DIV))
    case "mod" => Some(TwoArg(MOD))
    case "or" => Some(TwoArg(OR))
    case "xor" => Some(TwoArg(XOR))
    case "and" => Some(TwoArg(AND))
    case "not" => Some(TwoArg(NOT))
    case "shl" => Some(TwoArg(SHL))
    case "shr" => Some(TwoArg(SHR))
    case "rol" => Some(TwoArg(ROL))
    case "ror" => Some(TwoArg(ROR))
    case "bor" => Some(TwoArg(BOR))
    case "band" => Some(TwoArg(BAND))
    case "bnot" => Some(OneArg(BNOT))
    case "jmp" => Some(OneArg(JMP))
    case "jmpi" => Some(DoJmpi)
    case "ift" => Some(DoBranch(IFT))
    case "iff" => Some(DoBranch(IFF))
    case "call" => Some(OneArg(CALL))
    case "ret" => Some(NoArg(RET))
    case "push" => Some(TwoArg(PUSH))
    case "pop" => Some(OneArg(POP))
    case "logi" => Some(OneArg(LOGI))
    case "logu" => Some(OneArg(LOGU))
    case "logc" => Some(OneArg(LOGC))
    case "logs" => Some(OneArg(LOGS))
    case "logln" => Some(NoArg(LOGLN))
    case "strcpy" => Some(TwoArg(STRCPY))
    case _ => None
  }

  function Emit(asm: Asm, c: Command): Asm {
    asm.(mc := asm.mc + [c])
  }

  /** rbhash_add_unique on the declare table. */
  function AddName(asm: Asm, name: string, d: Declared): Option<Asm> {
    if name in asm.declare || |name| > MAX_KEY then None else Some(asm.(declare := asm.declare[name := d]))
  }

  // ---------- labels ----------

  /** parse_label: the index of the command's name, 1 behind a label it could declare, 0
      without one, and -1 after a failed declaration, which its callers do not test. */
  function ParseLabel(code: string, asm: Asm, tokens: seq<Token>, lines: nat): (int, Asm)
    requires tokens != [] && AllIn(code, tokens)
  {
    if tokens[0].kind != Label then (0, asm)
    else
      match AddName(asm, Text(code, tokens[0]), Declared(true, lines))
      case None => (-1, asm)
      case Some(asm') => (1, asm')
  }

  // ---------- operands ----------

  /** An operand's type and word, and the index of its last token. */
  datatype Operand = Operand(ty: nat, word: Word, last: nat) | Bad | Null

  function TypeOf(k: Kind): Option<nat> {
    match k
    case AsRam => Some(RAM)
    case AsPtr => Some(PTR)
    case AsAddr => Some(LITERAL)
    case AsData => Some(DATA)
    case _ => None
  }

  /** The number or declared name at token i. */
  function WordAt(code: string, asm: Asm, tokens: seq<Token>, i: nat): Option<Word>
    requires i < |tokens| && AllIn(code, tokens)
  {
    var t := tokens[i];
    if t.kind == LiteralNum then Some(ParseWord(code, t.start))
    else if t.kind == Name && Text(code, t) in asm.declare then Some(Wrap(asm.declare[Text(code, t)].addr))
    else None
  }

  /** A number or declared name at token i, a plain value, or behind a prefix there, which
      gives its type. */
  predicate OperandAt(code: string, asm: Asm, tokens: seq<Token>, i: nat, o: Operand)
    requires o.Operand? && AllIn(code, tokens)
  {
    && i <= o.last < |tokens| && WordAt(code, asm, tokens, o.last) == Some(o.word)
    && if o.last == i then o.ty == LITERAL else o.last == i + 1 && TypeOf(tokens[i].kind) == Some(o.ty)
  }

  /** parse_rvalue */
  function ParseRvalue(code: string, asm: Asm, tokens: seq<Token>, i: int): (o: Operand)
    requires 0 <= i && AllIn(code, tokens)
    ensures !o.Null? && (o.Operand? ==> OperandAt(code, asm, tokens, i, o) && o.ty < 4)
  {
    if i >= |tokens| then Bad
    else
      var ty := TypeOf(tokens[i].kind);
      var j := if ty.Some? then i + 1 else i;
      if ty.None? && tokens[i].kind != LiteralNum && tokens[i].kind != Name then Bad
      else if j >= |tokens| then Bad
      else
        var w := WordAt(code, asm, tokens, j);
        if w.None? then Bad else Operand(if ty.Some? then ty.value else LITERAL, w.value, j)
  }

  /** parse_lvalue: $ or * is required, and an unknown name is followed through NULL. */
  function ParseLvalue(code: string, asm: Asm, tokens: seq<Token>, i: int): (o: Operand)
    requires 0 <= i && AllIn(code, tokens)
    ensures o.Operand? ==> OperandAt(code, asm, tokens, i, o) && o.last == i + 1 && (o.ty == RAM || o.ty == PTR)
    ensures o.Null? ==> i + 1 < |tokens| && tokens[i + 1].kind == Name && Text(code, tokens[i + 1]) !in asm.declare
  {
    if i >= |tokens| || (tokens[i].kind != AsRam && tokens[i].kind != AsPtr) || i + 1 >= |tokens| then Bad
    else
      var ty := if tokens[i].kind == AsRam then RAM else PTR;
      var w := WordAt(code, asm, tokens, i + 1);
      if w.Some? then Operand(ty, w.value, i + 1)
      else if tokens[i + 1].kind == Name then Null else Bad
  }

  /** What can be read as a value is read so, and as a target too when $ or * stands before
      it. */
  lemma OperandIff(code: string, asm: Asm, tokens: seq<Token>, i: nat, o: Operand)
    requires AllIn(code, tokens) && o.Operand?
    ensures ParseRvalue(code, asm, tokens, i) == o <==> OperandAt(code, asm, tokens, i, o)
    ensures ParseLvalue(code, asm, tokens, i) == o <==>
            OperandAt(code, asm, tokens, i, o) && (o.ty == RAM || o.ty == PTR) && o.last == i + 1
  {
  }

  function Flags(t0: nat, t1: nat): Byte
    requires t0 < 4 && t1 < 4
  {
    t0 + 4 * t1
  }

  // ---------- actions ----------

  /** Where the operands start. */
  function FirstOperand(named: int): nat {
    if named < 0 then 0 else named + 1
  }

  function ParseNoArg(code: string, asm: Asm, tokens: seq<Token>, lines: nat, op: Byte): Parsed
    requires tokens != [] && AllIn(code, tokens)
  {
    Parsed(Emit(ParseLabel(code, asm, tokens, lines).1, Command(0, op, 0, 0)))
  }

  function ParseOneArg(code: string, asm: Asm, tokens: seq<Token>, lines: nat, op: Byte): Parsed
    requires tokens != [] && AllIn(code, tokens)
  {
    var (named, asm1) := ParseLabel(code, asm, tokens, lines);
    var o := ParseRvalue(code, asm1, tokens, FirstOperand(named));
    if o.Operand? then Parsed(Emit(asm1, Command(Flags(o.ty, 0), op, o.word, 0))) else Rejected
  }

  /** The target of a relative jump: the index of the next command and the offset. */
  function Relative(asm: Asm, w: Word): Word {
    Wrap(|asm.mc| + 1 + w)
  }

  function ParseTwoArg(code: string, asm: Asm, tokens: seq<Token>, lines: nat, op: Byte, branch: bool): Parsed
    requires tokens != [] && AllIn(code, tokens)
  {
    var (named, asm1) := ParseLabel(code, asm, tokens, lines);
    TwoOperands(code, asm1, tokens, FirstOperand(named), op, branch)
  }

  function TwoOperands(code: string, asm: Asm, tokens: seq<Token>, i: nat, op: Byte, branch: bool): Parsed
    requires AllIn(code, tokens)
  {
    match ParseLvalue(code, asm, tokens, i)
    case Bad => Rejected
    case Null => Crashed
    case Operand(t0, w0, last) =>
      var o := ParseRvalue(code, asm, tokens, last + 1);
      if !o.Operand? then Rejected
      else Parsed(Emit(asm, Command(Flags(t0, o.ty), op, w0, if branch then Relative(asm, o.word) else o.word)))
  }

  /** The command of two operands, the second one's word replaced by w. */
  function TwoCommand(op: Byte, l: Operand, ty: nat, w: Word): Command
    requires l.Operand? && l.ty < 4 && ty < 4
  {
    Command(Flags(l.ty, ty), op, l.word, w)
  }

  function SecondWord(asm: Asm, w: Word, branch: bool): Word {
    if branch then Relative(asm, w) else w
  }

  lemma TwoOperandsUnfold(code: string, asm: Asm, tokens: seq<Token>, i: nat, op: Byte, branch: bool)
    requires AllIn(code, tokens)
    ensures var r, l := TwoOperands(code, asm, tokens, i, op, branch), ParseLvalue(code, asm, tokens, i);
      match l
      case Bad => r == Rejected
      case Null => r == Crashed
      case Operand(_, _, _) =>
        var o := ParseRvalue(code, asm, tokens, l.last + 1);
        r == if o.Operand? then Parsed(Emit(asm, TwoCommand(op, l, o.ty, SecondWord(asm, o.word, branch)))) else Rejected
  {
  }

  function ParseJmpi(code: string, asm: Asm, tokens: seq<Token>, lines: nat): Parsed
    requires tokens != [] && AllIn(code, tokens)
  {
    var (named, asm1) := ParseLabel(code, asm, tokens, lines);
    var o := ParseRvalue(code, asm1, tokens, FirstOperand(named));
    if o.Operand? then Parsed(Emit(asm1, Command(Flags(o.ty, 0), JMP, Relative(asm1, o.word), 0))) else Rejected
  }

  function ParseInitr(code: string, asm: Asm, tokens: seq<Token>, lines: nat): Parsed
    requires tokens != [] && AllIn(code, tokens)
  {
    var (named, asm1) := ParseLabel(code, asm, tokens, lines);
    var i := FirstOperand(named);
    if i >= |tokens| || tokens[i].kind != LiteralNum then Rejected
    else Parsed(Emit(asm1, Command(0, INITR, ParseWord(code, tokens[i].start), 0)))
  }

  // ---------- declare ----------

  /** A char read as a signed byte and widened. */
  function CharWord(c: char): Word {
    var b := c as int % 256;
    if b < 128 then b else b - 256
  }

  function InitMove(addr: nat, w: Word): Command {
    Command(Flags(RAM, LITERAL), MOVE, Wrap(addr), w)
  }

  /** The moves that initialise a string and its terminator. */
  function StringMoves(addr: nat, s: string): seq<Command>
    decreases |s|
  {
    if s == [] then [InitMove(addr, 0)] else [InitMove(addr, CharWord(s[0]))] + StringMoves(addr + 1, s[1..])
  }

  /** strchr */
  function FindChar(code: string, p: nat, c: char): Option<nat>
    decreases |code| - p
  {
    if p >= |code| || code[p] == NUL then None
    else if code[p] == c then Some(p)
    else FindChar(code, p + 1, c)
  }

  lemma {:induction false} FindCharAhead(code: string, p: nat, c: char)
    ensures FindChar(code, p, c).Some? ==> p <= FindChar(code, p, c).value < |code|
    decreases |code| - p
  {
    if p < |code| && code[p] != NUL && code[p] != c {
      FindCharAhead(code, p + 1, c);
    }
  }

  function Finish(asm: Asm, name: string, addr: nat, avaddr: nat): Parsed {
    match AddName(asm, name, Declared(false, addr))
    case None => Rejected
    case Some(asm') => Parsed(asm'.(avaddr := avaddr))
  }

  /** declare <name>, <address or ?>[, ?, "text"]. The address is read from the name's own
      token, so an explicit one is always 0. A list of numbers or characters with automatic
      size always runs out of tokens and is rejected. */
  function ParseDeclare(code: string, asm: Asm, tokens: seq<Token>): Parsed
    requires tokens != [] && AllIn(code, tokens)
  {
    if |tokens| < 2 then Crashed
    else if tokens[1].kind != Name || |tokens| < 3 then Rejected
    else if tokens[2].kind != LiteralNum && tokens[2].kind != Auto then Rejected
    else
      var name := Text(code, tokens[1]);
      var auto := tokens[2].kind == Auto;
      var addr := if auto then asm.avaddr else StrToUl(code, tokens[1].start);
      if |tokens| == 3 then Finish(asm, name, addr, if auto then asm.avaddr + 1 else asm.avaddr)
      else if tokens[3].kind == LiteralNum then Unmodelled
      else if tokens[3].kind != Auto || |tokens| == 4 || tokens[4].kind != LiteralStr then Rejected
      else
        var s := tokens[4].start + 1;
        FindCharAhead(code, s, '"');
        match FindChar(code, s, '"')
        case None => Rejected
        case Some(e) =>
          var text := code[s..e];
          Finish(asm.(mc := asm.mc + StringMoves(addr, text)), name, addr,
                 if auto then asm.avaddr + |text| + 1 else asm.avaddr)
  }

  // ---------- one line, all lines ----------

  function ParseLine(code: string, asm: Asm, tokens: seq<Token>, lines: nat): Parsed
    requires tokens != [] && AllIn(code, tokens)
  {
    var i := if tokens[0].kind == Label then 1 else 0;
    if i >= |tokens| then Crashed
    else
      match ActionOf(Text(code, tokens[i]))
      case None => Rejected
      case Some(a) => Act(code, asm, tokens, lines, a)
  }

  lemma ParseByAction(code: string, asm: Asm, tokens: seq<Token>, lines: nat, name: string, a: Action)
    requires IsLine(code, tokens, name) && ActionOf(name) == Some(a)
    ensures ParseLine(code, asm, tokens, lines) == Act(code, asm, tokens, lines, a)
  {
  }

  function Act(code: string, asm: Asm, tokens: seq<Token>, lines: nat, a: Action): Parsed
    requires tokens != [] && AllIn(code, tokens)
  {
    match a
    case DoDeclare => ParseDeclare(code, asm, tokens)
    case DoInitr => ParseInitr(code, asm, tokens, lines)
    case NoArg(op) => ParseNoArg(code, asm, tokens, lines, op)
    case OneArg(op) => ParseOneArg(code, asm, tokens, lines, op)
    case TwoArg(op) => ParseTwoArg(code, asm, tokens, lines, op, false)
    case DoJmpi => ParseJmpi(code, asm, tokens, lines)
    case DoBranch(op) => ParseTwoArg(code, asm, tokens, lines, op, true)
  }

  predicate Parseable(code: string, lines: Lines) {
    forall i :: 0 <= i < |lines| ==> lines[i] != [] && AllIn(code, lines[i])
  }

  /** a32_parse on the lines from index k on; `total` is the number of lexed lines. */
  function ParseLines(code: string, asm: Asm, lines: Lines, total: nat): Parsed
    requires Parseable(code, lines)
    decreases |lines|
  {
    if lines == [] then Parsed(asm)
    else
      match ParseLine(code, asm, lines[0], total)
      case Parsed(asm') => ParseLines(code, asm', lines[1..], total)
      case Rejected => Rejected
      case Crashed => Crashed
      case Unmodelled => Unmodelled
  }

  // ---------- lexed lines are parseable ----------

  lemma {:induction false} LexedParse(code: string, p: nat, line: nat)
    requires p <= |code| && Lex(code, p, line).Some?
    ensures Parseable(code, Lex(code, p, line).value)
    decreases |code| - p
  {
    if At(code, p) != NUL {
      var l := LexLine(code, p, line).value;
      LexedParse(code, l.1, line + 1);
      LineSpaced(code, p, line);
      SpacedAreIn(code, l.0, p, l.1);
    }
  }

  /** chip32_compiler_build: lexer, then parser. */
  function Build(code: string): Parsed {
    match Lex(code, 0, 1)
    case None => Rejected
    case Some(lines) =>
      LexedParse(code, 0, 1);
      ParseLines(code, EMPTY, lines, |lines|)
  }

  // ---------- written-out sources ----------

  /** Line i is accepted and leads from one state to the next. */
  predicate Leads(code: string, states: seq<Asm>, lines: Lines, total: nat, i: int)
    requires 0 <= i < |lines| && |states| == |lines| + 1
  {
    && lines[i] != [] && AllIn(code, lines[i])
    && ParseLine(code, states[i], lines[i], total) == Parsed(states[i + 1])
  }

  predicate AllLead(code: string, states: seq<Asm>, lines: Lines, total: nat) {
    && |states| == |lines| + 1
    && forall i {:trigger Leads(code, states, lines, total, i)} ::
               0 <= i < |lines| ==> Leads(code, states, lines, total, i)
  }

  /** The lines are accepted one after the other and lead from asm to r. */
  ghost predicate ParseTo(code: string, asm: Asm, lines: Lines, total: nat, r: Asm) {
    exists states: seq<Asm> :: AllLead(code, states, lines, total) && states[0] == asm && states[|lines|] == r
  }

  lemma ParseNone(code: string, asm: Asm, total: nat)
    ensures ParseTo(code, asm, [], total, asm)
  {
    assert AllLead(code, [asm], [], total);
  }

  lemma {:induction false} LeadToParse(code: string, states: seq<Asm>, lines: Lines, total: nat, k: nat)
    requires AllLead(code, states, lines, total) && k <= |lines|
    ensures Parseable(code, lines[k..]) && ParseLines(code, states[k], lines[k..], total) == Parsed(states[|lines|])
    decreases |lines| - k
  {
    if k < |lines| {
      assert Leads(code, states, lines, total, k);
      LeadToParse(code, states, lines, total, k + 1);
      assert lines[k..][0] == lines[k] && lines[k..][1..] == lines[k + 1..];
    }
  }

  lemma ParsedTo(code: string, asm: Asm, lines: Lines, total: nat, r: Asm)
    requires ParseTo(code, asm, lines, total, r)
    ensures Parseable(code, lines) && ParseLines(code, asm, lines, total) == Parsed(r)
  {
    var states :| AllLead(code, states, lines, total) && states[0] == asm && states[|lines|] == r;
    LeadToParse(code, states, lines, total, 0);
    assert lines[0..] == lines;
  }

  /** The line l at p is parsed and leaves asm1. */
  predicate LineTo(code: string, p: nat, line: nat, asm: Asm, l: Line, total: nat, asm1: Asm) {
    var tokens := LineTokens(l, p, line);
    AllIn(code, tokens) && ParseLine(code, asm, tokens, total) == Parsed(asm1)
  }

  lemma LeadsBehind(code: string, asm: Asm, first: seq<Token>, states: seq<Asm>, lines: Lines, total: nat, i: nat)
    requires i < |lines| && |states| == |lines| + 1 && Leads(code, states, lines, total, i)
    ensures Leads(code, [asm] + states, [first] + lines, total, i + 1)
  {
    assert ([first] + lines)[i + 1] == lines[i] && ([asm] + states)[i + 1] == states[i]
        && ([asm] + states)[i + 2] == states[i + 1];
  }

  lemma ParseFirst(code: string, asm: Asm, first: seq<Token>, asm1: Asm, rest: Lines, total: nat, r: Asm)
    requires first != [] && AllIn(code, first) && ParseLine(code, asm, first, total) == Parsed(asm1)
    requires ParseTo(code, asm1, rest, total, r)
    ensures ParseTo(code, asm, [first] + rest, total, r)
  {
    var tail :| AllLead(code, tail, rest, total) && tail[0] == asm1 && tail[|rest|] == r;
    var states, lines := [asm] + tail, [first] + rest;
    forall i | 0 <= i < |lines|
      ensures Leads(code, states, lines, total, i)
    {
      if i > 0 {
        assert Leads(code, tail, rest, total, i - 1);
        LeadsBehind(code, asm, first, tail, rest, total, i - 1);
      }
    }
    assert AllLead(code, states, lines, total);
  }

  /** One line in front of lines that are already parsed. */
  lemma ParseCons(code: string, p: nat, q: nat, line: nat, asm: Asm, l: Line, asm1: Asm, ls: seq<Line>, total: nat,
                  r: Asm)
    requires LineTo(code, p, line, asm, l, total, asm1) && q == p + |LineText(l)|
    requires ParseTo(code, asm1, DocumentTokens(ls, q, line + 1), total, r)
    ensures ParseTo(code, asm, DocumentTokens([l] + ls, p, line), total, r)
  {
    DocumentCons(l, ls, p, q, line);
    ParseFirst(code, asm, LineTokens(l, p, line), asm1, DocumentTokens(ls, q, line + 1), total, r);
  }

  // ---------- what lines do, wherever they stand ----------

  /** Wherever the line stands, parsing it leads from a to b. */
  ghost predicate Gives(l: Line, a: Asm, b: Asm) {
    forall code: string, p: nat, line: nat, total: nat {:trigger LineTo(code, p, line, a, l, total, b)} ::
      Holds(code, p, LineText(l)) ==> LineTo(code, p, line, a, l, total, b)
  }

  ghost predicate AllGive(ls: seq<Line>, a: Asm, b: Asm)
    decreases |ls|
  {
    if ls == [] then a == b else exists m :: Gives(ls[0], a, m) && AllGive(ls[1..], m, b)
  }

  lemma GiveMore(l: Line, ls: seq<Line>, a: Asm, m: Asm, b: Asm)
    requires Gives(l, a, m) && AllGive(ls, m, b)
    ensures AllGive([l] + ls, a, b)
  {
    assert ([l] + ls)[1..] == ls;
  }

  lemma {:induction false} GiveJoin(s: seq<Line>, t: seq<Line>, a: Asm, b: Asm, c: Asm)
    requires AllGive(s, a, b) && AllGive(t, b, c)
    ensures AllGive(s + t, a, c)
    decreases |s|
  {
    if s == [] {
      assert s + t == t;
    } else {
      var m :| Gives(s[0], a, m) && AllGive(s[1..], m, b);
      GiveJoin(s[1..], t, m, b, c);
      GiveMore(s[0], s[1..] + t, a, m, c);
      assert [s[0]] + (s[1..] + t) == s + t;
    }
  }

  lemma {:induction false} GiveParse(code: string, p: nat, line: nat, ls: seq<Line>, a: Asm, b: Asm, total: nat)
    requires AllGive(ls, a, b) && EndsWith(code, p, ls)
    ensures ParseTo(code, a, DocumentTokens(ls, p, line), total, b)
    decreases |ls|
  {
    if ls == [] {
      ParseNone(code, a, total);
    } else {
      var m :| Gives(ls[0], a, m) && AllGive(ls[1..], m, b);
      var q := p + |LineText(ls[0])|;
      GiveParse(code, q, line + 1, ls[1..], m, b, total);
      assert LineTo(code, p, line, a, ls[0], total, m);
      ParseCons(code, p, q, line, a, ls[0], m, ls[1..], total, b);
      assert [ls[0]] + ls[1..] == ls;
    }
  }

  /** Building a source of such lines. */
  lemma BuildDocument(ls: seq<Line>, r: Asm)
    requires AllProperLines(ls) && AllGive(ls, EMPTY, r)
    ensures Build(Document(ls)) == Parsed(r)
  {
    var code, lines := Document(ls), DocumentTokens(ls, 0, 1);
    DocumentEnds(code, 0, ls);
    LexDocument(code, 0, 1, ls);
    GiveParse(code, 0, 1, ls, EMPTY, r, |lines|);
    ParsedTo(code, EMPTY, lines, |lines|, r);
  }

  function Appended(asm: Asm, cs: seq<Command>): Asm {
    asm.(mc := asm.mc + cs)
  }

  lemma AppendedMore(asm: Asm, c: Command, cs: seq<Command>)
    ensures Appended(Emit(asm, c), cs) == Appended(asm, [c] + cs) && Appended(asm, []) == asm
  {
    assert (asm.mc + [c]) + cs == asm.mc + ([c] + cs);
    assert asm.mc + [] == asm.mc;
  }
}
