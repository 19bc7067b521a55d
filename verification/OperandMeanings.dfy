/** From the source to the step: what an operand written with a prefix stands for when its
    command runs, and where a relative jump goes. */
module OperandMeanings {
  import opened Bits
  import opened Decimal
  import opened Machine
  import opened Lexer
  import opened Parser
  import opened CommandMeanings

  /** The prefixes: $ for the word of a cell, * for the word of the cell it names, & for the
      address itself and @ for a word of the program. */
  lemma PrefixTokens(code: string, p: nat, line: nat)
    requires p < |code| && (code[p] == '$' || code[p] == '*' || code[p] == '&' || code[p] == '@')
    ensures var r, rest := ArgNext(code, p, line), ArgNext(code, p + 1, line);
      r.Some? <==> rest.Some?
    ensures var r, rest := ArgNext(code, p, line), ArgNext(code, p + 1, line);
      r.Some? ==>
        && |r.value.0| == 1 + |rest.value.0| && r.value.0[1..] == rest.value.0 && r.value.1 == rest.value.1
        && r.value.0[0].kind == (if code[p] == '$' then AsRam else if code[p] == '*' then AsPtr
                                 else if code[p] == '&' then AsAddr else AsData)
  {
  }

  /** The number or address that a token stands for. */
  predicate Addressed(code: string, asm: Asm, t: Token, n: Word)
    requires InSource(code, t)
  {
    (t.kind == LiteralNum && n == ParseWord(code, t.start))
    || (t.kind == Name && Text(code, t) in asm.declare && n == Wrap(asm.declare[Text(code, t)].addr))
  }

  /** The word an operand written as in tokens i.. stands for when the program runs: n is its
      number or address. */
  predicate Written(prog: seq<Command>, ram: seq<Word>, kind: Kind, n: Word, w: Word) {
    match kind
    case AsRam => 0 <= n < |ram| && w == ram[n]
    case AsPtr => 0 <= n < |ram| && 0 <= ram[n] < |ram| && w == ram[ram[n]]
    case AsData => 0 <= n < |prog| && w == prog[n].arg0
    case _ => w == n
  }

  predicate IsPrefix(k: Kind) {
    k == AsRam || k == AsPtr || k == AsAddr || k == AsData
  }

  /** A prefixed operand is read, and stands for what its prefix says. */
  lemma PrefixedMeans(code: string, asm: Asm, tokens: seq<Token>, i: nat, n: Word)
    requires AllIn(code, tokens) && i + 1 < |tokens| && IsPrefix(tokens[i].kind)
    requires Addressed(code, asm, tokens[i + 1], n)
    ensures var o := ParseRvalue(code, asm, tokens, i);
      && o.Operand? && o.last == i + 1
      && forall prog, ram, w :: Stands(prog, ram, o.ty, o.word, w) <==> Written(prog, ram, tokens[i].kind, n, w)
  {
  }

  /** So does one without a prefix, for the number or address itself. */
  lemma PlainMeans(code: string, asm: Asm, tokens: seq<Token>, i: nat, n: Word)
    requires AllIn(code, tokens) && i < |tokens| && Addressed(code, asm, tokens[i], n)
    ensures var o := ParseRvalue(code, asm, tokens, i);
      && o.Operand? && o.last == i
      && forall prog, ram, w :: Stands(prog, ram, o.ty, o.word, w) <==> w == n
  {
  }

  // ---------- relative jumps ----------

  /** A program that starts with what has been assembled. */
  predicate Continues(asm: Asm, prog: seq<Command>) {
    asm.mc <= prog
  }

  /** jmpi n: the line is accepted, and its command at index i goes to i + 1 + n. */
  lemma JmpiGoes(code: string, asm: Asm, tokens: seq<Token>, lines: nat, n: Word, prog: seq<Command>, vm: Vm)
    requires |tokens| == 2 && AllIn(code, tokens) && tokens[0].kind == Name && Text(code, tokens[0]) == "jmpi"
    requires tokens[1].kind == LiteralNum && n == ParseWord(code, tokens[1].start)
    requires MINWORD < |asm.mc| + 1 + n <= MAXWORD
    ensures var r := ParseLine(code, asm, tokens, lines);
      && r.Parsed? && |r.asm.mc| == |asm.mc| + 1
      && (Continues(r.asm, prog) && vm.status == Running && |vm.ram| > FRM && vm.ram[PC] == |asm.mc| < MAXWORD
          ==> GoesTo(prog, vm, |asm.mc| + 1 + n))
  {
    var r := ParseLine(code, asm, tokens, lines);
    var c := Command(0, JMP, |asm.mc| + 1 + n, 0);
    assert r == Parsed(Emit(asm, c));
    if Continues(r.asm, prog) && vm.status == Running && |vm.ram| > FRM && vm.ram[PC] == |asm.mc| < MAXWORD {
      assert prog[|asm.mc|] == r.asm.mc[|asm.mc|];
      JumpGoes(prog, vm, c, c.arg0);
    }
  }

  /** ift $a, n and iff $a, n: from index i to i + 1 + n when cell a is zero, or is not, and on
      to i + 1 otherwise. */
  lemma BranchLineGoes(code: string, asm: Asm, tokens: seq<Token>, lines: nat, a: Word, n: Word, prog: seq<Command>,
                       vm: Vm)
    requires |tokens| == 4 && AllIn(code, tokens) && tokens[0].kind == Name
    requires Text(code, tokens[0]) == "ift" || Text(code, tokens[0]) == "iff"
    requires tokens[1].kind == AsRam && Addressed(code, asm, tokens[2], a)
    requires tokens[3].kind == LiteralNum && n == ParseWord(code, tokens[3].start)
    requires MINWORD < |asm.mc| + 1 + n <= MAXWORD
    ensures var r := ParseLine(code, asm, tokens, lines);
      && r.Parsed? && |r.asm.mc| == |asm.mc| + 1
      && (Continues(r.asm, prog) && vm.status == Running && |vm.ram| > FRM && vm.ram[PC] == |asm.mc| < MAXWORD
          && 0 <= a < |vm.ram|
          ==> GoesTo(prog, vm, if (vm.ram[a] == 0) == (Text(code, tokens[0]) == "ift") then |asm.mc| + 1 + n
                               else |asm.mc| + 1))
  {
    var r := ParseLine(code, asm, tokens, lines);
    var op := if Text(code, tokens[0]) == "ift" then IFT else IFF;
    var c := Command(1, op, a, |asm.mc| + 1 + n);
    BranchLine(code, asm, tokens, lines, a, n, op);
    if Continues(r.asm, prog) && vm.status == Running && |vm.ram| > FRM && vm.ram[PC] == |asm.mc| < MAXWORD
       && 0 <= a < |vm.ram| {
      assert prog[|asm.mc|] == r.asm.mc[|asm.mc|];
      BranchOnCell(prog, vm, c);
    }
  }

  lemma BranchOnCell(prog: seq<Command>, vm: Vm, c: Command)
    requires AtCommand(prog, vm, c) && (c.cmd == IFT || c.cmd == IFF) && c.flags == 1 && c.arg1 > MINWORD
    requires 0 <= c.arg0 < |vm.ram|
    ensures GoesTo(prog, vm, if (vm.ram[c.arg0] == 0) == (c.cmd == IFT) then c.arg1 as int else vm.ram[PC] as int + 1)
  {
    BranchGoes(prog, vm, c, vm.ram[c.arg0]);
    assert Second(prog, vm.ram, c, c.arg1);
  }

  lemma BranchLine(code: string, asm: Asm, tokens: seq<Token>, lines: nat, a: Word, n: Word, op: Byte)
    requires |tokens| == 4 && AllIn(code, tokens) && tokens[0].kind == Name
    requires ActionOf(Text(code, tokens[0])) == Some(DoBranch(op))
    requires tokens[1].kind == AsRam && Addressed(code, asm, tokens[2], a)
    requires tokens[3].kind == LiteralNum && n == ParseWord(code, tokens[3].start)
    requires MINWORD < |asm.mc| + 1 + n <= MAXWORD
    ensures ParseLine(code, asm, tokens, lines) == Parsed(Emit(asm, Command(1, op, a, |asm.mc| + 1 + n)))
  {
    assert ParseLvalue(code, asm, tokens, 1) == Operand(RAM, a, 2);
    assert ParseRvalue(code, asm, tokens, 3) == Operand(LITERAL, n, 3);
    assert Relative(asm, n) == |asm.mc| + 1 + n;
  }
}
