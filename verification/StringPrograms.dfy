/** Programs like examples/helloworld.asm: initr, automatically placed strings, and logs and
    logln on them. Their text, the commands they assemble to, and where the strings lie. */
module StringPrograms {
  import opened Bits
  import opened Decimal
  import opened Machine
  import opened Lexer
  import opened SourceText
  import opened Parser

  datatype StringVar = StringVar(name: string, text: string)

  /** logs on variable k, or logln. */
  datatype Output = Show(k: nat) | NewLine

  // ---------- the source ----------

  function DeclareLine(v: StringVar): Line {
    Line("declare", [Var(LITERAL, v.name), Question, Question, Quoted(v.text)])
  }

  function OutputLine(vars: seq<StringVar>, o: Output): Line
    requires o.Show? ==> o.k < |vars|
  {
    if o.Show? then ShowLine(vars[o.k].name) else Line("logln", [])
  }

  function InitrLine(size: nat): Line {
    Line("initr", [Num(LITERAL, PrintNat(size))])
  }

  predicate Shown(vars: seq<StringVar>, outs: seq<Output>) {
    forall i :: 0 <= i < |outs| && outs[i].Show? ==> outs[i].k < |vars|
  }

  function DeclareLines(vars: seq<StringVar>): seq<Line> {
    if vars == [] then [] else [DeclareLine(vars[0])] + DeclareLines(vars[1..])
  }

  function OutputLines(vars: seq<StringVar>, outs: seq<Output>): seq<Line>
    requires Shown(vars, outs)
  {
    if outs == [] then [] else [OutputLine(vars, outs[0])] + OutputLines(vars, outs[1..])
  }

  function SourceLines(size: nat, vars: seq<StringVar>, outs: seq<Output>): seq<Line>
    requires Shown(vars, outs)
  {
    [InitrLine(size)] + (DeclareLines(vars) + OutputLines(vars, outs))
  }

  function Source(size: nat, vars: seq<StringVar>, outs: seq<Output>): string
    requires Shown(vars, outs)
  {
    Document(SourceLines(size, vars, outs))
  }

  /** Names the declare table accepts, and strings a pair of quotes can hold. */
  predicate ProperVar(v: StringVar) {
    IsIdentifier(v.name) && |v.name| <= MAX_KEY && Quotable(v.text)
  }

  predicate ProperVars(vars: seq<StringVar>) {
    forall i :: 0 <= i < |vars| ==> ProperVar(vars[i])
  }

  predicate Distinct(vars: seq<StringVar>) {
    forall i, j :: 0 <= i < j < |vars| ==> vars[i].name != vars[j].name
  }

  // ---------- the commands ----------

  /** The first cell behind the strings. */
  function EndOf(base: nat, vars: seq<StringVar>): (e: nat)
    ensures base <= e
    decreases |vars|
  {
    if vars == [] then base else EndOf(base + |vars[0].text| + 1, vars[1..])
  }

  function AddrOf(base: nat, vars: seq<StringVar>, k: nat): nat
    requires k < |vars|
    decreases k
  {
    if k == 0 then base else AddrOf(base + |vars[0].text| + 1, vars[1..], k - 1)
  }

  /** The strings lie one behind the other with their terminators, from base up to EndOf, so no
      two ranges share a cell. */
  lemma {:induction false} RangesDisjoint(base: nat, vars: seq<StringVar>, i: nat, j: nat)
    requires i < j < |vars|
    ensures base <= AddrOf(base, vars, i)
    ensures AddrOf(base, vars, i) + |vars[i].text| + 1 <= AddrOf(base, vars, j)
    ensures AddrOf(base, vars, j) + |vars[j].text| + 1 <= EndOf(base, vars)
    decreases j
  {
    var next := base + |vars[0].text| + 1;
    if i > 0 {
      RangesDisjoint(next, vars[1..], i - 1, j - 1);
    } else {
      InRange(next, vars[1..], j - 1);
    }
  }

  lemma {:induction false} InRange(base: nat, vars: seq<StringVar>, k: nat)
    requires k < |vars|
    ensures base <= AddrOf(base, vars, k) && AddrOf(base, vars, k) + |vars[k].text| + 1 <= EndOf(base, vars)
    decreases k
  {
    if k > 0 {
      InRange(base + |vars[0].text| + 1, vars[1..], k - 1);
    }
  }

  function Moves(base: nat, vars: seq<StringVar>): seq<Command>
    decreases |vars|
  {
    if vars == [] then [] else StringMoves(base, vars[0].text) + Moves(base + |vars[0].text| + 1, vars[1..])
  }

  function ShowCommand(addr: nat): Command {
    Command(Flags(RAM, LITERAL), LOGS, Wrap(addr), 0)
  }

  function OutputCommand(vars: seq<StringVar>, o: Output): Command
    requires o.Show? ==> o.k < |vars|
  {
    if o.Show? then ShowCommand(AddrOf(START_ADDR, vars, o.k)) else Command(0, LOGLN, 0, 0)
  }

  function OutputCommands(vars: seq<StringVar>, outs: seq<Output>): seq<Command>
    requires Shown(vars, outs)
  {
    if outs == [] then [] else [OutputCommand(vars, outs[0])] + OutputCommands(vars, outs[1..])
  }

  function Program(size: nat, vars: seq<StringVar>, outs: seq<Output>): seq<Command>
    requires Shown(vars, outs)
  {
    [Command(0, INITR, Wrap(size), 0)] + Moves(START_ADDR, vars) + OutputCommands(vars, outs)
  }

  // ---------- declares ----------

  function Declare(asm: Asm, v: StringVar): Asm {
    Asm(asm.mc + StringMoves(asm.avaddr, v.text), asm.avaddr + |v.text| + 1,
        asm.declare[v.name := Declared(false, asm.avaddr)])
  }

  function DeclareAll(asm: Asm, vars: seq<StringVar>): Asm
    decreases |vars|
  {
    if vars == [] then asm else DeclareAll(Declare(asm, vars[0]), vars[1..])
  }

  lemma {:induction false} DeclareAllMoves(asm: Asm, vars: seq<StringVar>)
    ensures DeclareAll(asm, vars).mc == asm.mc + Moves(asm.avaddr, vars)
    ensures DeclareAll(asm, vars).avaddr == EndOf(asm.avaddr, vars)
    decreases |vars|
  {
    if vars != [] {
      DeclareAllMoves(Declare(asm, vars[0]), vars[1..]);
    }
  }

  lemma {:induction false} DeclareAllKeeps(asm: Asm, vars: seq<StringVar>, name: string)
    requires forall i :: 0 <= i < |vars| ==> vars[i].name != name
    requires name in asm.declare
    ensures var d := DeclareAll(asm, vars).declare;
      name in d && d[name] == asm.declare[name]
    decreases |vars|
  {
    if vars != [] {
      DeclareAllKeeps(Declare(asm, vars[0]), vars[1..], name);
    }
  }

  /** Each declared name stands for the start of its own string. */
  lemma {:induction false} Placed(asm: Asm, vars: seq<StringVar>, k: nat)
    requires k < |vars| && Distinct(vars)
    ensures var d := DeclareAll(asm, vars).declare;
      vars[k].name in d && d[vars[k].name] == Declared(false, AddrOf(asm.avaddr, vars, k))
    decreases |vars|
  {
    if k == 0 {
      DeclareAllKeeps(Declare(asm, vars[0]), vars[1..], vars[0].name);
    } else {
      Placed(Declare(asm, vars[0]), vars[1..], k - 1);
    }
  }

  /** A line whose action is known. */
  lemma ByAction(code: string, p: nat, line: nat, asm: Asm, l: Line, total: nat, a: Action, asm1: Asm)
    requires IsLine(code, LineTokens(l, p, line), l.name) && ActionOf(l.name) == Some(a)
    requires Act(code, asm, LineTokens(l, p, line), total, a) == Parsed(asm1)
    ensures LineTo(code, p, line, asm, l, total, asm1)
  {
    ParseByAction(code, asm, LineTokens(l, p, line), total, l.name, a);
  }

  lemma {:induction false} FindQuote(code: string, p: nat, w: string)
    requires Holds(code, p, w) && Quotable(w) && At(code, p + |w|) == '"'
    ensures FindChar(code, p, '"') == Some(p + |w|)
    decreases |w|
  {
    if w != [] {
      HoldsAt(code, p, w, 0);
      assert w == w[..1] + w[1..];
      HoldsSplit(code, p, w[..1], w[1..]);
      FindQuote(code, p + 1, w[1..]);
    }
  }

  function DeclareArgs(v: StringVar): seq<Arg> {
    DeclareLine(v).args
  }

  /** The tokens of a declaration's arguments: m is where they start, q where the string's
      comma is. */
  function DeclareTokens(v: StringVar, m: nat, line: nat): seq<Token> {
    var q := m + 8 + |v.name|;
    [Token(Name, m + 1, m + 1 + |v.name|, line), Token(Auto, q - 5, q - 4, line), Token(Auto, q - 2, q - 1, line),
     Token(LiteralStr, q + 1, q + 3 + |v.text|, line)]
  }

  lemma DeclareTokensAre(v: StringVar, m: nat, line: nat)
    ensures ArgsTokens(DeclareArgs(v), m, line) == DeclareTokens(v, m, line)
  {
    var args := DeclareArgs(v);
    var a, b, c := args[1..], args[2..], args[3..];
    var q1 := m + 2 + |v.name|;
    assert ArgText(args[0]) == v.name;
    assert a[1..] == b && b[1..] == c && c[1..] == [];
    ArgsUnfold(args, m, line);
    ArgsUnfold(a, q1, line);
    ArgsUnfold(b, q1 + 3, line);
    ArgsUnfold(c, q1 + 6, line);
  }

  /** The name and the quoted string stand where their tokens say. */
  lemma DeclareHolds(code: string, m: nat, v: StringVar)
    requires Holds(code, m, ArgsText(DeclareArgs(v)))
    ensures Holds(code, m + 1, v.name) && Holds(code, m + 9 + |v.name|, "\"" + v.text + "\"")
  {
    var args := DeclareArgs(v);
    var a, b, c := args[1..], args[2..], args[3..];
    var q1 := m + 2 + |v.name|;
    assert ArgText(args[0]) == v.name;
    assert a[1..] == b && b[1..] == c;
    SplitFirst(code, m, q1, args, v.name);
    SplitFirst(code, q1, q1 + 3, a, "?");
    SplitFirst(code, q1 + 3, q1 + 6, b, "?");
    SplitLast(code, q1 + 6, ArgText(c[0]));
  }

  lemma StringHolds(code: string, p: nat, w: string)
    requires Holds(code, p, "\"" + w + "\"") && Quotable(w)
    ensures FindChar(code, p + 1, '"') == Some(p + 1 + |w|) && code[p + 1..p + 1 + |w|] == w
  {
    HoldsSplit(code, p, "\"" + w, "\"");
    HoldsSplit(code, p, "\"", w);
    HoldsAt(code, p + 1 + |w|, "\"", 0);
    FindQuote(code, p + 1, w);
    HoldsSlice(code, p + 1, w);
  }

  /** action_declare on those tokens. */
  lemma DeclareActs(code: string, asm: Asm, tokens: seq<Token>, head: Token, m: nat, line: nat, total: nat,
                    v: StringVar)
    requires tokens == [head] + DeclareTokens(v, m, line) && AllIn(code, tokens)
    requires ProperVar(v) && v.name !in asm.declare
    requires Holds(code, m + 1, v.name) && Holds(code, m + 9 + |v.name|, "\"" + v.text + "\"")
    ensures Act(code, asm, tokens, total, DoDeclare) == Parsed(Declare(asm, v))
  {
    HoldsSlice(code, m + 1, v.name);
    assert Text(code, tokens[1]) == v.name;
    StringHolds(code, m + 9 + |v.name|, v.text);
  }

  lemma DeclareLineTokens(v: StringVar, p: nat, line: nat)
    ensures LineTokens(DeclareLine(v), p, line) == [Token(Name, p, p + 7, line)] + DeclareTokens(v, p + 7, line)
  {
    assert |DeclareLine(v).name| == 7;
    DeclareTokensAre(v, p + 7, line);
  }

  lemma DeclareLineHolds(code: string, p: nat, v: StringVar)
    requires Holds(code, p, LineText(DeclareLine(v)))
    ensures Holds(code, p + 8, v.name) && Holds(code, p + 16 + |v.name|, "\"" + v.text + "\"")
  {
    assert |DeclareLine(v).name| == 7;
    HoldsSplit(code, p, DeclareLine(v).name, ArgsText(DeclareArgs(v)));
    DeclareHolds(code, p + 7, v);
  }

  lemma DeclareAct(code: string, p: nat, line: nat, asm: Asm, total: nat, v: StringVar, l: Line)
    requires l == DeclareLine(v) && Holds(code, p, LineText(l)) && ProperVar(v) && v.name !in asm.declare
    requires AllIn(code, LineTokens(l, p, line))
    ensures Act(code, asm, LineTokens(l, p, line), total, DoDeclare) == Parsed(Declare(asm, v))
  {
    DeclareLineTokens(v, p, line);
    DeclareLineHolds(code, p, v);
    DeclareActs(code, asm, LineTokens(l, p, line), Token(Name, p, p + 7, line), p + 7, line, total, v);
  }

  lemma DeclareParses(code: string, p: nat, line: nat, asm: Asm, total: nat, v: StringVar, l: Line)
    requires l == DeclareLine(v) && Holds(code, p, LineText(l)) && ProperVar(v) && v.name !in asm.declare
    ensures LineTo(code, p, line, asm, l, total, Declare(asm, v))
  {
    LineIsNamed(code, p, line, l);
    DeclareAct(code, p, line, asm, total, v, l);
    ByAction(code, p, line, asm, l, total, DoDeclare, Declare(asm, v));
  }

  // ---------- logs, logln and initr ----------

  function ShowLine(name: string): Line {
    Line("logs", [Var(RAM, name)])
  }

  function ShowTokens(name: string, m: nat, line: nat): seq<Token> {
    [Token(AsRam, m + 1, m + 2, line), Token(Name, m + 2, m + 2 + |name|, line)]
  }

  lemma ShowTokensAre(name: string, m: nat, line: nat)
    ensures ArgsTokens(ShowLine(name).args, m, line) == ShowTokens(name, m, line)
  {
    ArgsUnfold(ShowLine(name).args, m, line);
    assert |ArgText(Var(RAM, name))| == 1 + |name|;
  }

  lemma ShowHolds(code: string, m: nat, name: string)
    requires Holds(code, m, ArgsText(ShowLine(name).args))
    ensures Holds(code, m + 2, name)
  {
    SplitLast(code, m, "$" + name);
    HoldsSplit(code, m + 1, "$", name);
  }

  lemma ShowActs(code: string, asm: Asm, head: Token, m: nat, line: nat, total: nat, name: string)
    requires head.kind == Name && AllIn(code, [head] + ShowTokens(name, m, line))
    requires Holds(code, m + 2, name) && name in asm.declare
    ensures ParseOneArg(code, asm, [head] + ShowTokens(name, m, line), total, LOGS)
         == Parsed(Emit(asm, ShowCommand(asm.declare[name].addr)))
  {
    var tokens := [head] + ShowTokens(name, m, line);
    HoldsSlice(code, m + 2, name);
    assert Text(code, tokens[2]) == name;
    assert ParseRvalue(code, asm, tokens, 1) == Operand(RAM, Wrap(asm.declare[name].addr), 2);
  }

  lemma ShowAct(code: string, p: nat, line: nat, asm: Asm, total: nat, name: string)
    requires Holds(code, p, LineText(ShowLine(name))) && name in asm.declare
    requires AllIn(code, LineTokens(ShowLine(name), p, line))
    ensures Act(code, asm, LineTokens(ShowLine(name), p, line), total, OneArg(LOGS))
         == Parsed(Emit(asm, ShowCommand(asm.declare[name].addr)))
  {
    var l, m := ShowLine(name), p + 4;
    assert |l.name| == 4;
    ShowTokensAre(name, m, line);
    HoldsSplit(code, p, l.name, ArgsText(l.args));
    ShowHolds(code, m, name);
    ShowActs(code, asm, Token(Name, p, m, line), m, line, total, name);
  }

  lemma ShowParses(code: string, p: nat, line: nat, asm: Asm, total: nat, name: string)
    requires Holds(code, p, LineText(ShowLine(name))) && IsIdentifier(name) && name in asm.declare
    ensures LineTo(code, p, line, asm, ShowLine(name), total, Emit(asm, ShowCommand(asm.declare[name].addr)))
  {
    LineIsNamed(code, p, line, ShowLine(name));
    ShowAct(code, p, line, asm, total, name);
    ByAction(code, p, line, asm, ShowLine(name), total, OneArg(LOGS), Emit(asm, ShowCommand(asm.declare[name].addr)));
  }

  lemma NewLineParses(code: string, p: nat, line: nat, asm: Asm, total: nat)
    requires Holds(code, p, LineText(Line("logln", [])))
    ensures LineTo(code, p, line, asm, Line("logln", []), total, Emit(asm, Command(0, LOGLN, 0, 0)))
  {
    LineIsNamed(code, p, line, Line("logln", []));
  }

  lemma SizeHolds(code: string, m: nat, size: nat)
    requires size < TWO32 && Holds(code, m, " " + PrintNat(size) + "\n")
    ensures m + 1 <= |code| && ParseWord(code, m + 1) == Wrap(size)
  {
    SplitLast(code, m, PrintNat(size));
    ParsePositive(code, m + 1, size);
  }

  lemma SizeTokensAre(m: nat, line: nat, size: nat)
    ensures ArgsTokens(InitrLine(size).args, m, line) == [Token(LiteralNum, m + 1, m + 1 + |PrintNat(size)|, line)]
    ensures ArgsText(InitrLine(size).args) == " " + PrintNat(size) + "\n"
  {
    assert ArgText(Num(LITERAL, PrintNat(size))) == PrintNat(size);
    ArgsUnfold(InitrLine(size).args, m, line);
  }

  lemma InitrAct(code: string, p: nat, line: nat, asm: Asm, total: nat, size: nat, l: Line)
    requires l == InitrLine(size) && Holds(code, p, LineText(l)) && size < TWO32
    requires AllIn(code, LineTokens(l, p, line))
    ensures Act(code, asm, LineTokens(l, p, line), total, DoInitr)
        == Parsed(Emit(asm, Command(0, INITR, Wrap(size), 0)))
  {
    var m := p + 5;
    assert |l.name| == 5;
    HoldsSplit(code, p, l.name, ArgsText(l.args));
    SizeTokensAre(m, line, size);
    SizeHolds(code, m, size);
  }

  lemma InitrParses(code: string, p: nat, line: nat, asm: Asm, total: nat, size: nat)
    requires Holds(code, p, LineText(InitrLine(size))) && size < TWO32
    ensures LineTo(code, p, line, asm, InitrLine(size), total, Emit(asm, Command(0, INITR, Wrap(size), 0)))
  {
    LineIsNamed(code, p, line, InitrLine(size));
    InitrAct(code, p, line, asm, total, size, InitrLine(size));
    ByAction(code, p, line, asm, InitrLine(size), total, DoInitr, Emit(asm, Command(0, INITR, Wrap(size), 0)));
  }

  // ---------- the whole source ----------

  /** Every declared name stands for the start of its string. */
  predicate Known(asm: Asm, vars: seq<StringVar>) {
    forall k :: 0 <= k < |vars| ==>
      vars[k].name in asm.declare && asm.declare[vars[k].name].addr == AddrOf(START_ADDR, vars, k)
  }

  lemma OutputGives(asm: Asm, vars: seq<StringVar>, o: Output)
    requires (o.Show? ==> o.k < |vars|) && ProperVars(vars) && Known(asm, vars)
    ensures Gives(OutputLine(vars, o), asm, Emit(asm, OutputCommand(vars, o)))
  {
    var l := OutputLine(vars, o);
    forall code: string, p: nat, line: nat, total: nat | Holds(code, p, LineText(l))
      ensures LineTo(code, p, line, asm, l, total, Emit(asm, OutputCommand(vars, o)))
    {
      match o
      case Show(k) => ShowParses(code, p, line, asm, total, vars[k].name);
      case NewLine => NewLineParses(code, p, line, asm, total);
    }
  }

  lemma {:induction false} OutputsGive(asm: Asm, vars: seq<StringVar>, outs: seq<Output>)
    requires Shown(vars, outs) && ProperVars(vars) && Known(asm, vars)
    ensures AllGive(OutputLines(vars, outs), asm, Appended(asm, OutputCommands(vars, outs)))
    decreases |outs|
  {
    AppendedMore(asm, Command(0, 0, 0, 0), []);
    if outs != [] {
      var l, c, rest := OutputLine(vars, outs[0]), OutputCommand(vars, outs[0]), outs[1..];
      AppendedMore(asm, c, OutputCommands(vars, rest));
      OutputGives(asm, vars, outs[0]);
      OutputsGive(Emit(asm, c), vars, rest);
      GiveMore(l, OutputLines(vars, rest), asm, Emit(asm, c), Appended(asm, OutputCommands(vars, outs)));
    }
  }

  /** The names of these variables are still free. */
  predicate Free(asm: Asm, vars: seq<StringVar>) {
    forall i :: 0 <= i < |vars| ==> vars[i].name !in asm.declare
  }

  lemma NextFree(asm: Asm, vars: seq<StringVar>)
    requires vars != [] && Distinct(vars) && ProperVars(vars) && Free(asm, vars)
    ensures Distinct(vars[1..]) && ProperVars(vars[1..]) && Free(Declare(asm, vars[0]), vars[1..])
  {
  }

  lemma DeclareGives(asm: Asm, v: StringVar)
    requires ProperVar(v) && v.name !in asm.declare
    ensures Gives(DeclareLine(v), asm, Declare(asm, v))
  {
    var l := DeclareLine(v);
    forall code: string, p: nat, line: nat, total: nat | Holds(code, p, LineText(l))
      ensures LineTo(code, p, line, asm, l, total, Declare(asm, v))
    {
      DeclareParses(code, p, line, asm, total, v, l);
    }
  }

  lemma {:induction false} DeclaresGive(asm: Asm, vars: seq<StringVar>)
    requires Distinct(vars) && ProperVars(vars) && Free(asm, vars)
    ensures AllGive(DeclareLines(vars), asm, DeclareAll(asm, vars))
    decreases |vars|
  {
    if vars != [] {
      var v, rest := vars[0], vars[1..];
      NextFree(asm, vars);
      DeclareGives(asm, v);
      DeclaresGive(Declare(asm, v), rest);
      GiveMore(DeclareLine(v), DeclareLines(rest), asm, Declare(asm, v), DeclareAll(asm, vars));
    }
  }

  lemma {:induction false} DeclareLinesProper(vars: seq<StringVar>)
    requires ProperVars(vars)
    ensures AllProperLines(DeclareLines(vars)) && |DeclareLines(vars)| == |vars|
  {
    if vars != [] {
      DeclareLinesProper(vars[1..]);
    }
  }

  lemma {:induction false} OutputLinesProper(vars: seq<StringVar>, outs: seq<Output>)
    requires ProperVars(vars) && Shown(vars, outs)
    ensures AllProperLines(OutputLines(vars, outs))
    decreases |outs|
  {
    if outs != [] {
      OutputLinesProper(vars, outs[1..]);
    }
  }

  lemma SourceProper(size: nat, vars: seq<StringVar>, outs: seq<Output>)
    requires ProperVars(vars) && Shown(vars, outs)
    ensures AllProperLines(SourceLines(size, vars, outs))
  {
    DeclareLinesProper(vars);
    OutputLinesProper(vars, outs);
    assert ProperLine(InitrLine(size));
  }

  /** The assembler's state behind all the lines. */
  function Assembled(size: nat, vars: seq<StringVar>, outs: seq<Output>): Asm
    requires Shown(vars, outs)
  {
    var asm := DeclareAll(Emit(EMPTY, Command(0, INITR, Wrap(size), 0)), vars);
    asm.(mc := asm.mc + OutputCommands(vars, outs))
  }

  lemma AssembledIs(size: nat, vars: seq<StringVar>, outs: seq<Output>)
    requires Shown(vars, outs)
    ensures var asm := Assembled(size, vars, outs);
      asm.mc == Program(size, vars, outs) && asm.avaddr == EndOf(START_ADDR, vars)
  {
    DeclareAllMoves(Emit(EMPTY, Command(0, INITR, Wrap(size), 0)), vars);
  }

  lemma AllKnown(asm: Asm, vars: seq<StringVar>)
    requires Distinct(vars) && asm.avaddr == START_ADDR
    ensures Known(DeclareAll(asm, vars), vars)
  {
    forall k | 0 <= k < |vars|
      ensures var d := DeclareAll(asm, vars).declare;
        vars[k].name in d && d[vars[k].name].addr == AddrOf(START_ADDR, vars, k)
    {
      Placed(asm, vars, k);
    }
  }

  lemma InitrGives(asm: Asm, size: nat)
    requires size < TWO32
    ensures Gives(InitrLine(size), asm, Emit(asm, Command(0, INITR, Wrap(size), 0)))
  {
    var l := InitrLine(size);
    forall code: string, p: nat, line: nat, total: nat | Holds(code, p, LineText(l))
      ensures LineTo(code, p, line, asm, l, total, Emit(asm, Command(0, INITR, Wrap(size), 0)))
    {
      InitrParses(code, p, line, asm, total, size);
    }
  }

  lemma SourceGives(size: nat, vars: seq<StringVar>, outs: seq<Output>)
    requires Shown(vars, outs) && ProperVars(vars) && Distinct(vars) && size < TWO32
    ensures AllGive(SourceLines(size, vars, outs), EMPTY, Assembled(size, vars, outs))
  {
    var asm1 := Emit(EMPTY, Command(0, INITR, Wrap(size), 0));
    var asm2 := DeclareAll(asm1, vars);
    InitrGives(EMPTY, size);
    DeclaresGive(asm1, vars);
    AllKnown(asm1, vars);
    OutputsGive(asm2, vars, outs);
    GiveJoin(DeclareLines(vars), OutputLines(vars, outs), asm1, asm2, Assembled(size, vars, outs));
    GiveMore(InitrLine(size), DeclareLines(vars) + OutputLines(vars, outs), EMPTY, asm1, Assembled(size, vars, outs));
  }

  /** Every such source is accepted, and gives initr, the initialising moves and the outputs,
      with the strings placed one behind the other from cell 35 on. */
  lemma Builds(size: nat, vars: seq<StringVar>, outs: seq<Output>)
    requires Shown(vars, outs) && ProperVars(vars) && Distinct(vars) && size < TWO32
    ensures var r := Build(Source(size, vars, outs));
      r.Parsed? && r.asm.mc == Program(size, vars, outs) && r.asm.avaddr == EndOf(START_ADDR, vars)
  {
    SourceProper(size, vars, outs);
    SourceGives(size, vars, outs);
    BuildDocument(SourceLines(size, vars, outs), Assembled(size, vars, outs));
    AssembledIs(size, vars, outs);
  }
}
