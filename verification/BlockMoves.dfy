/** Assembling the same lines at two code positions, and running both results. */
module BlockMoves {
  import opened Bits
  import opened Decimal
  import opened Machine
  import opened Lexer
  import opened Parser
  import opened Relocation
  import AlikeTokens

  /** Two assembler states that differ in the commands emitted so far, d of them. */
  predicate Twins(a: Asm, b: Asm, d: int) {
    a.declare == b.declare && a.avaddr == b.avaddr && |b.mc| == |a.mc| + d
  }

  /** A literal offset whose target is a word at both positions, so that nothing wraps. */
  predicate Reaches(o: Operand, n: nat, d: int) {
    o.Operand? ==>
      && o.ty == LITERAL
      && MINWORD < n + 1 + o.word <= MAXWORD && MINWORD < n + d + 1 + o.word <= MAXWORD
  }

  /** A line without a label and without jmp, whose relative jump, if it is one, has a literal
      offset. */
  predicate Relocatable(code: string, asm: Asm, tokens: seq<Token>, d: int)
    requires tokens != [] && AllIn(code, tokens)
  {
    && tokens[0].kind != Label
    && match ActionOf(Text(code, tokens[0]))
       case Some(OneArg(op)) => op != JMP
       case Some(DoJmpi) => Reaches(ParseRvalue(code, asm, tokens, 1), |asm.mc|, d)
       case Some(DoBranch(_)) =>
         var l := ParseLvalue(code, asm, tokens, 1);
         l.Operand? ==> Reaches(ParseRvalue(code, asm, tokens, l.last + 1), |asm.mc|, d)
       case _ => true
  }

  /** Both states have grown by the same commands, moved by d. */
  predicate Grown(a: Asm, a': Asm, b: Asm, b': Asm, d: int) {
    && Twins(a, b, d) && Twins(a', b', d) && a.mc <= a'.mc && b.mc <= b'.mc
    && forall i :: |a.mc| <= i < |a'.mc| ==> Moved(a'.mc[i], b'.mc[i + d], d)
  }

  /** The same verdict on both sides. */
  predicate SameVerdict(a: Asm, r: Parsed, b: Asm, s: Parsed, d: int) {
    match r
    case Parsed(a') => s.Parsed? && Grown(a, a', b, s.asm, d)
    case _ => s == r
  }

  lemma EmitMoves(a: Asm, b: Asm, c1: Command, c2: Command, d: int)
    requires Twins(a, b, d) && Moved(c1, c2, d)
    ensures Grown(a, Emit(a, c1), b, Emit(b, c2), d)
  {
  }

  /** A command without a relative target is its own image. */
  predicate Fixed(c: Command) {
    !(c.cmd == JMP && Arg0Type(c.flags) == LITERAL) && !(IsBranch(c.cmd) && Arg1Type(c.flags) == LITERAL)
  }

  lemma FixedMoves(a: Asm, b: Asm, c: Command, d: int)
    requires Twins(a, b, d) && Fixed(c)
    ensures Grown(a, Emit(a, c), b, Emit(b, c), d)
  {
    EmitMoves(a, b, c, c, d);
  }

  lemma SameOperands(code: string, a: Asm, b: Asm, tokens: seq<Token>, i: nat, d: int)
    requires Twins(a, b, d) && AllIn(code, tokens)
    ensures ParseRvalue(code, a, tokens, i) == ParseRvalue(code, b, tokens, i)
    ensures ParseLvalue(code, a, tokens, i) == ParseLvalue(code, b, tokens, i)
  {
  }

  /** The operations of the action table without a relative target. */
  predicate IsPlain(a: Action) {
    match a
    case NoArg(op) => op != JMP && !IsBranch(op)
    case OneArg(op) => op != JMP && !IsBranch(op)
    case TwoArg(op) => op != JMP && !IsBranch(op)
    case _ => false
  }

  lemma PlainActions(name: string)
    ensures match ActionOf(name)
      case Some(NoArg(op)) => IsPlain(NoArg(op))
      case Some(OneArg(op)) => op == JMP || IsPlain(OneArg(op))
      case Some(TwoArg(op)) => IsPlain(TwoArg(op))
      case Some(DoBranch(op)) => IsBranch(op)
      case _ => true
  {
  }

  lemma PlainMoves(code: string, a: Asm, b: Asm, tokens: seq<Token>, lines: nat, act: Action, d: int)
    requires Twins(a, b, d) && tokens != [] && AllIn(code, tokens) && tokens[0].kind != Label && IsPlain(act)
    ensures SameVerdict(a, Act(code, a, tokens, lines, act), b, Act(code, b, tokens, lines, act), d)
  {
    SameOperands(code, a, b, tokens, 1, d);
    var o := ParseRvalue(code, a, tokens, 1);
    match act
    case NoArg(op) => FixedMoves(a, b, Command(0, op, 0, 0), d);
    case OneArg(op) =>
      if o.Operand? {
        FixedMoves(a, b, Command(Flags(o.ty, 0), op, o.word, 0), d);
      }
    case TwoArg(op) => TwoArgMoves(code, a, b, tokens, op, d);
  }

  lemma TwoArgMoves(code: string, a: Asm, b: Asm, tokens: seq<Token>, op: Byte, d: int)
    requires Twins(a, b, d) && AllIn(code, tokens) && op != JMP && !IsBranch(op)
    ensures SameVerdict(a, TwoOperands(code, a, tokens, 1, op, false), b, TwoOperands(code, b, tokens, 1, op, false), d)
  {
    SameOperands(code, a, b, tokens, 1, d);
    TwoOperandsUnfold(code, a, tokens, 1, op, false);
    TwoOperandsUnfold(code, b, tokens, 1, op, false);
    var l := ParseLvalue(code, a, tokens, 1);
    if l.Operand? {
      SameOperands(code, a, b, tokens, l.last + 1, d);
      var o := ParseRvalue(code, a, tokens, l.last + 1);
      if o.Operand? {
        FixedMoves(a, b, TwoCommand(op, l, o.ty, o.word), d);
      }
    }
  }

  /** The emitted target is the index of the next command and the offset, at both places. */
  lemma RelativeMoves(a: Asm, b: Asm, o: Operand, d: int)
    requires Twins(a, b, d) && o.Operand? && Reaches(o, |a.mc|, d)
    ensures var t1, t2 := Relative(a, o.word), Relative(b, o.word);
      t1 > MINWORD && t2 > MINWORD && t2 as int == t1 as int + d
  {
    assert Relative(a, o.word) == |a.mc| + 1 + o.word;
    assert Relative(b, o.word) == |b.mc| + 1 + o.word;
  }

  lemma JmpiMoves(code: string, a: Asm, b: Asm, tokens: seq<Token>, lines: nat, d: int)
    requires Twins(a, b, d) && tokens != [] && AllIn(code, tokens) && tokens[0].kind != Label
    requires Reaches(ParseRvalue(code, a, tokens, 1), |a.mc|, d)
    ensures SameVerdict(a, ParseJmpi(code, a, tokens, lines), b, ParseJmpi(code, b, tokens, lines), d)
  {
    SameOperands(code, a, b, tokens, 1, d);
    var o := ParseRvalue(code, a, tokens, 1);
    if o.Operand? {
      RelativeMoves(a, b, o, d);
      EmitMoves(a, b, Command(Flags(o.ty, 0), JMP, Relative(a, o.word), 0),
                Command(Flags(o.ty, 0), JMP, Relative(b, o.word), 0), d);
    }
  }

  lemma TargetsMove(a: Asm, b: Asm, op: Byte, l: Operand, ty: nat, t1: Word, t2: Word, d: int)
    requires Twins(a, b, d) && IsBranch(op) && l.Operand? && l.ty < 4 && ty == LITERAL
    requires t1 > MINWORD && t2 > MINWORD && t2 as int == t1 as int + d
    ensures Grown(a, Emit(a, TwoCommand(op, l, ty, t1)), b, Emit(b, TwoCommand(op, l, ty, t2)), d)
  {
    EmitMoves(a, b, TwoCommand(op, l, ty, t1), TwoCommand(op, l, ty, t2), d);
  }

  /** The emitted command and the word of its target, which does not wrap. */
  lemma BranchEmits(code: string, asm: Asm, tokens: seq<Token>, op: Byte, l: Operand, o: Operand) returns (t: Word)
    requires AllIn(code, tokens) && l == ParseLvalue(code, asm, tokens, 1) && l.Operand?
    requires o == ParseRvalue(code, asm, tokens, l.last + 1) && o.Operand? && MINWORD < |asm.mc| + 1 + o.word <= MAXWORD
    ensures t as int == |asm.mc| + 1 + o.word
    ensures TwoOperands(code, asm, tokens, 1, op, true) == Parsed(Emit(asm, TwoCommand(op, l, o.ty, t)))
  {
    t := Relative(asm, o.word);
  }

  lemma BranchRefused(code: string, a: Asm, b: Asm, tokens: seq<Token>, op: Byte, d: int)
    requires Twins(a, b, d) && AllIn(code, tokens)
    requires var l := ParseLvalue(code, a, tokens, 1);
      l.Operand? ==> !ParseRvalue(code, a, tokens, l.last + 1).Operand?
    ensures TwoOperands(code, a, tokens, 1, op, true) == TwoOperands(code, b, tokens, 1, op, true)
    ensures !TwoOperands(code, a, tokens, 1, op, true).Parsed?
  {
    SameOperands(code, a, b, tokens, 1, d);
    var l := ParseLvalue(code, a, tokens, 1);
    if l.Operand? {
      SameOperands(code, a, b, tokens, l.last + 1, d);
    }
  }

  /** The targets at both places are words. */
  predicate BothReach(o: Operand, a: Asm, b: Asm) {
    o.Operand? && o.ty == LITERAL
    && MINWORD < |a.mc| + 1 + o.word <= MAXWORD && MINWORD < |b.mc| + 1 + o.word <= MAXWORD
  }

  lemma BranchTaken(code: string, a: Asm, b: Asm, tokens: seq<Token>, op: Byte, l: Operand, o: Operand,
                    d: int) returns (t1: Word, t2: Word)
    requires Twins(a, b, d) && AllIn(code, tokens) && BothReach(o, a, b)
    requires l == ParseLvalue(code, a, tokens, 1) && l.Operand? && o == ParseRvalue(code, a, tokens, l.last + 1)
    ensures t1 as int == |a.mc| + 1 + o.word && t2 as int == |b.mc| + 1 + o.word
    ensures TwoOperands(code, a, tokens, 1, op, true) == Parsed(Emit(a, TwoCommand(op, l, o.ty, t1)))
    ensures TwoOperands(code, b, tokens, 1, op, true) == Parsed(Emit(b, TwoCommand(op, l, o.ty, t2)))
  {
    SameOperands(code, a, b, tokens, 1, d);
    SameOperands(code, a, b, tokens, l.last + 1, d);
    t1 := BranchEmits(code, a, tokens, op, l, o);
    t2 := BranchEmits(code, b, tokens, op, l, o);
  }

  lemma {:induction false} StringMovesFixed(addr: nat, s: string)
    ensures forall i :: 0 <= i < |StringMoves(addr, s)| ==> Fixed(StringMoves(addr, s)[i])
    decreases |s|
  {
    if s != [] {
      StringMovesFixed(addr + 1, s[1..]);
    }
  }

  lemma FinishMoves(a: Asm, b: Asm, cs: seq<Command>, name: string, addr: nat, next: nat, d: int)
    requires Twins(a, b, d) && forall i :: 0 <= i < |cs| ==> Fixed(cs[i])
    ensures SameVerdict(a, Finish(a.(mc := a.mc + cs), name, addr, next),
                        b, Finish(b.(mc := b.mc + cs), name, addr, next), d)
  {
    var a1, b1 := a.(mc := a.mc + cs), b.(mc := b.mc + cs);
    forall i | |a.mc| <= i < |a1.mc|
      ensures Moved(a1.mc[i], b1.mc[i + d], d)
    {
      assert a1.mc[i] == cs[i - |a.mc|] && b1.mc[i + d] == cs[i - |a.mc|];
    }
  }

  lemma DeclareMoves(code: string, a: Asm, b: Asm, tokens: seq<Token>, d: int)
    requires Twins(a, b, d) && tokens != [] && AllIn(code, tokens)
    ensures SameVerdict(a, ParseDeclare(code, a, tokens), b, ParseDeclare(code, b, tokens), d)
  {
    if |tokens| > 2 {
      var name, auto := Text(code, tokens[1]), tokens[2].kind == Auto;
      var addr := if auto then a.avaddr else StrToUl(code, tokens[1].start);
      if |tokens| == 3 {
        assert a.mc + [] == a.mc && b.mc + [] == b.mc;
        FinishMoves(a, b, [], name, addr, if auto then a.avaddr + 1 else a.avaddr, d);
      } else if |tokens| > 4 && tokens[4].kind == LiteralStr {
        var s := tokens[4].start + 1;
        FindCharAhead(code, s, '"');
        if FindChar(code, s, '"').Some? {
          var text := code[s..FindChar(code, s, '"').value];
          StringMovesFixed(addr, text);
          FinishMoves(a, b, StringMoves(addr, text), name, addr, if auto then a.avaddr + |text| + 1 else a.avaddr, d);
        }
      }
    }
  }

  lemma InitrMoves(code: string, a: Asm, b: Asm, tokens: seq<Token>, lines: nat, d: int)
    requires Twins(a, b, d) && tokens != [] && AllIn(code, tokens) && tokens[0].kind != Label
    ensures SameVerdict(a, ParseInitr(code, a, tokens, lines), b, ParseInitr(code, b, tokens, lines), d)
  {
    if |tokens| > 1 {
      FixedMoves(a, b, Command(0, INITR, ParseWord(code, tokens[1].start), 0), d);
    }
  }

  /** One line at two code positions. */
  lemma LineMoves(code: string, a: Asm, b: Asm, tokens: seq<Token>, lines: nat, d: int)
    requires Twins(a, b, d) && tokens != [] && AllIn(code, tokens) && Relocatable(code, a, tokens, d)
    ensures SameVerdict(a, ParseLine(code, a, tokens, lines), b, ParseLine(code, b, tokens, lines), d)
  {
    var name := Text(code, tokens[0]);
    PlainActions(name);
    match ActionOf(name)
    case None =>
    case Some(act) =>
      match act
      case DoDeclare => DeclareMoves(code, a, b, tokens, d);
      case DoInitr => InitrMoves(code, a, b, tokens, lines, d);
      case DoJmpi => JmpiMoves(code, a, b, tokens, lines, d);
      case DoBranch(op) =>
        var l := ParseLvalue(code, a, tokens, 1);
        if l.Operand? && ParseRvalue(code, a, tokens, l.last + 1).Operand? {
          var o := ParseRvalue(code, a, tokens, l.last + 1);
          var t1, t2 := BranchTaken(code, a, b, tokens, op, l, o, d);
          TargetsMove(a, b, op, l, o.ty, t1, t2, d);
        } else {
          BranchRefused(code, a, b, tokens, op, d);
        }
      case _ => PlainMoves(code, a, b, tokens, lines, act, d);
  }

  /** Every line of the block, at the place where the first assembly meets it. */
  predicate AllRelocatable(code: string, asm: Asm, lines: Lines, total: nat, d: int)
    requires Parseable(code, lines)
    decreases |lines|
  {
    lines == [] ||
    (&& Relocatable(code, asm, lines[0], d)
     && var r := ParseLine(code, asm, lines[0], total);
        r.Parsed? ==> AllRelocatable(code, r.asm, lines[1..], total, d))
  }

  lemma GrownJoin(a: Asm, a1: Asm, a2: Asm, b: Asm, b1: Asm, b2: Asm, d: int)
    requires Grown(a, a1, b, b1, d) && Grown(a1, a2, b1, b2, d)
    ensures Grown(a, a2, b, b2, d)
  {
    forall i | |a.mc| <= i < |a2.mc|
      ensures Moved(a2.mc[i], b2.mc[i + d], d)
    {
      if i < |a1.mc| {
        assert a2.mc[i] == a1.mc[i] && b2.mc[i + d] == b1.mc[i + d];
      }
    }
  }

  /** The block at two code positions: both assemblies accept it or both do not, and the
      commands they add differ only in their relative targets, by the distance. */
  lemma {:induction false} BlockParses(code: string, a: Asm, b: Asm, lines: Lines, total: nat, d: int)
    requires Twins(a, b, d) && Parseable(code, lines) && AllRelocatable(code, a, lines, total, d)
    ensures SameVerdict(a, ParseLines(code, a, lines, total), b, ParseLines(code, b, lines, total), d)
    decreases |lines|
  {
    if lines != [] {
      LineMoves(code, a, b, lines[0], total, d);
      var r, s := ParseLine(code, a, lines[0], total), ParseLine(code, b, lines[0], total);
      if r.Parsed? {
        BlockParses(code, r.asm, s.asm, lines[1..], total, d);
        var r2, s2 := ParseLines(code, r.asm, lines[1..], total), ParseLines(code, s.asm, lines[1..], total);
        if r2.Parsed? {
          GrownJoin(a, r.asm, r2.asm, b, s.asm, s2.asm, d);
        }
      }
    }
  }

  /** The block in two programs, whatever follows it. */
  lemma GrownIsBlock(a: Asm, a': Asm, b: Asm, b': Asm, tail1: seq<Command>, tail2: seq<Command>, d: int)
    requires Grown(a, a', b, b', d) && |a'.mc + tail1| <= MAXWORD && |b'.mc + tail2| <= MAXWORD
    ensures BlockMoved(a'.mc + tail1, b'.mc + tail2, |a.mc|, |a'.mc| - |a.mc|, d)
  {
    var p1, p2 := a'.mc + tail1, b'.mc + tail2;
    forall i | |a.mc| <= i < |a'.mc|
      ensures Moved(p1[i], p2[i + d], d)
    {
      assert p1[i] == a'.mc[i] && p2[i + d] == b'.mc[i + d];
    }
  }

  lemma BlockRuns(a: Asm, a1: Asm, b: Asm, b1: Asm, tail1: seq<Command>, tail2: seq<Command>, v1: Vm, v2: Vm,
                  d: int, n: nat)
    requires Grown(a, a1, b, b1, d) && Apart(v1, v2, d)
    ensures var p1, p2, len := a1.mc + tail1, b1.mc + tail2, |a1.mc| - |a.mc|;
      |p1| <= MAXWORD && |p2| <= MAXWORD && StaysInBlock(p1, p2, v1, |a.mc|, len, n)
      ==> SameRun(Run(p1, v1, n), Run(p2, v2, n), d)
  {
    var p1, p2, len := a1.mc + tail1, b1.mc + tail2, |a1.mc| - |a.mc|;
    if |p1| <= MAXWORD && |p2| <= MAXWORD && StaysInBlock(p1, p2, v1, |a.mc|, len, n) {
      GrownIsBlock(a, a1, b, b1, tail1, tail2, d);
      Lockstep(p1, p2, v1, v2, |a.mc|, len, d, n);
    }
  }

  /** Position independence of the assembled block: assembled at two code positions of two
      programs, whatever follows it, its runs have the same RAM and log, and program counters
      that differ by the distance, for as long as PC stays in the block. */
  lemma AssembledLockstep(code: string, a: Asm, a1: Asm, b: Asm, lines: Lines, total: nat, d: int,
                          tail1: seq<Command>, tail2: seq<Command>, v1: Vm, v2: Vm, n: nat) returns (b1: Asm)
    requires Twins(a, b, d) && Parseable(code, lines) && AllRelocatable(code, a, lines, total, d)
    requires ParseLines(code, a, lines, total) == Parsed(a1) && Apart(v1, v2, d)
    ensures ParseLines(code, b, lines, total) == Parsed(b1) && |a.mc| <= |a1.mc|
    ensures var p1, p2, len := a1.mc + tail1, b1.mc + tail2, |a1.mc| - |a.mc|;
      |p1| <= MAXWORD && |p2| <= MAXWORD && StaysInBlock(p1, p2, v1, |a.mc|, len, n)
      ==> SameRun(Run(p1, v1, n), Run(p2, v2, n), d)
  {
    BlockParses(code, a, b, lines, total, d);
    b1 := ParseLines(code, b, lines, total).asm;
    BlockRuns(a, a1, b, b1, tail1, tail2, v1, v2, d, n);
  }

  lemma {:induction false} RelocatableUnlabelled(code: string, a: Asm, lines: Lines, total: nat, d: int)
    requires Parseable(code, lines) && AllRelocatable(code, a, lines, total, d)
    requires ParseLines(code, a, lines, total).Parsed?
    ensures AlikeTokens.AllUnlabelled(lines)
    decreases |lines|
  {
    if lines != [] {
      var r := ParseLine(code, a, lines[0], total);
      RelocatableUnlabelled(code, r.asm, lines[1..], total, d);
      assert forall i :: 1 <= i < |lines| ==> lines[i] == lines[1..][i - 1];
    }
  }
}
