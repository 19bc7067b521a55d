/** The same text inside two whole sources: the programs they are assembled to run its
    commands in lockstep. */
module SourceBlocks {
  import opened Machine
  import opened Lexer
  import opened Parser
  import opened Relocation
  import opened BlockMoves
  import opened AlikeTokens
  import opened FollowedText
  import ShiftedText

  // ---------- text up to the end of two sources ----------

  /** The program of a source whose lines from p on lead from asm to it. */
  predicate Ends(code: string, p: nat, line: nat, asm: Asm, total: nat, result: Asm) {
    && p <= |code| && Lex(code, p, line).Some? && Parseable(code, Lex(code, p, line).value)
    && ParseLines(code, asm, Lex(code, p, line).value, total) == Parsed(result)
  }

  /** The text from p on as a block without labels and without wrapping targets. */
  predicate MovableText(code: string, p: nat, line: nat, asm: Asm, total: nat, result: Asm, d: int) {
    Ends(code, p, line, asm, total, result) && AllRelocatable(code, asm, Lex(code, p, line).value, total, d)
  }

  /** The block as text at the end of two sources, behind whatever went before, is lexed and
      assembled in both, to commands that differ only in their relative targets. */
  lemma BlockEnds(c1: string, p: nat, l1: nat, a: Asm, a1: Asm, m1: nat, c2: string, q: nat, l2: nat, b: Asm,
                  m2: nat, d: int) returns (b1: Asm)
    requires ShiftedText.SameTail(c1, p, c2, q) && Twins(a, b, d) && MovableText(c1, p, l1, a, m1, a1, d)
    ensures Ends(c2, q, l2, b, m2, b1) && AllUnlabelled(Lex(c2, q, l2).value) && Grown(a, a1, b, b1, d)
  {
    var first := Lex(c1, p, l1).value;
    BlockParses(c1, a, b, first, m1, d);
    b1 := ParseLines(c1, b, first, m1).asm;
    RelocatableUnlabelled(c1, a, first, m1, d);
    ShiftedText.LexMoves(c1, p, l1, c2, q, l2);
    LexedParse(c2, q, l2);
    ShiftedText.MovedUnlabelled(first, Lex(c2, q, l2).value, p, q);
    ShiftedText.SameParses(c1, p, first, c2, q, Lex(c2, q, l2).value, b, m1, m2);
  }

  /** The two runs go in lockstep, whatever commands follow. */
  lemma SourceLockstep(c1: string, p: nat, l1: nat, a: Asm, a1: Asm, m1: nat, c2: string, q: nat, l2: nat, b: Asm,
                       m2: nat, d: int,
                       tail1: seq<Command>, tail2: seq<Command>, v1: Vm, v2: Vm, n: nat) returns (b1: Asm)
    requires ShiftedText.SameTail(c1, p, c2, q) && Twins(a, b, d) && MovableText(c1, p, l1, a, m1, a1, d)
    requires Apart(v1, v2, d)
    ensures Ends(c2, q, l2, b, m2, b1) && |a.mc| <= |a1.mc|
    ensures var p1, p2, len := a1.mc + tail1, b1.mc + tail2, |a1.mc| - |a.mc|;
      |p1| <= MAXWORD && |p2| <= MAXWORD && StaysInBlock(p1, p2, v1, |a.mc|, len, n)
      ==> SameRun(Run(p1, v1, n), Run(p2, v2, n), d)
  {
    b1 := BlockEnds(c1, p, l1, a, a1, m1, c2, q, l2, b, m2, d);
    BlockRuns(a, a1, b, b1, tail1, tail2, v1, v2, d, n);
  }

  // ---------- text with more behind it ----------

  lemma {:induction false} ParseAppend(code: string, asm: Asm, s: Lines, t: Lines, total: nat)
    requires Parseable(code, s) && Parseable(code, t) && Parseable(code, s + t)
    ensures var r := ParseLines(code, asm, s, total);
      ParseLines(code, asm, s + t, total) == if r.Parsed? then ParseLines(code, r.asm, t, total) else r
    decreases |s|
  {
    if s == [] {
      assert s + t == t;
    } else {
      assert (s + t)[0] == s[0] && (s + t)[1..] == s[1..] + t;
      var r := ParseLine(code, asm, s[0], total);
      if r.Parsed? {
        ParseAppend(code, r.asm, s[1..], t, total);
      }
    }
  }

  /** Assembling adds commands and changes none. */
  lemma ActGrows(code: string, asm: Asm, tokens: seq<Token>, total: nat, act: Action)
    requires tokens != [] && AllIn(code, tokens)
    ensures var r := Act(code, asm, tokens, total, act);
      r.Parsed? ==> asm.mc <= r.asm.mc
  {
    if act.DoDeclare? {
      DeclareGrows(code, asm, tokens);
    }
  }

  lemma DeclareGrows(code: string, asm: Asm, tokens: seq<Token>)
    requires tokens != [] && AllIn(code, tokens)
    ensures var r := ParseDeclare(code, asm, tokens);
      r.Parsed? ==> asm.mc <= r.asm.mc
  {
  }

  lemma LineGrows(code: string, asm: Asm, tokens: seq<Token>, total: nat)
    requires tokens != [] && AllIn(code, tokens)
    ensures var r := ParseLine(code, asm, tokens, total);
      r.Parsed? ==> asm.mc <= r.asm.mc
  {
    var i := if tokens[0].kind == Label then 1 else 0;
    if i < |tokens| && ActionOf(Text(code, tokens[i])).Some? {
      ActGrows(code, asm, tokens, total, ActionOf(Text(code, tokens[i])).value);
    }
  }

  lemma {:induction false} LinesGrow(code: string, asm: Asm, lines: Lines, total: nat)
    requires Parseable(code, lines)
    ensures var r := ParseLines(code, asm, lines, total);
      r.Parsed? ==> asm.mc <= r.asm.mc
    decreases |lines|
  {
    if lines != [] {
      LineGrows(code, asm, lines[0], total);
      var r := ParseLine(code, asm, lines[0], total);
      if r.Parsed? {
        LinesGrow(code, r.asm, lines[1..], total);
      }
    }
  }

  /** The lines of a source in two parts, parsed one after the other. */
  lemma EndsInParts(code: string, asm: Asm, asm1: Asm, lines: Lines, all: Lines, rest: Option<Lines>, total: nat,
                    result: Asm)
    requires Parseable(code, lines) && ParseLines(code, asm, lines, total) == Parsed(asm1)
    requires Some(all) == LinesBefore(lines, rest) && Parseable(code, all)
    requires ParseLines(code, asm, all, total) == Parsed(result)
    ensures Parseable(code, rest.value) && ParseLines(code, asm1, rest.value, total) == Parsed(result)
  {
    assert forall i :: 0 <= i < |rest.value| ==> rest.value[i] == all[i + |lines|];
    ParseAppend(code, asm, lines, rest.value, total);
  }

  /** Unlabelled lines up to |c|, and what the rest of the source makes of them. */
  lemma EndsBehind(c: string, s: string, p: nat, line: nat, asm: Asm, asm1: Asm, m: nat, total: nat, result: Asm)
    requires GoesOn(c, s) && Ends(c, p, line, asm, m, asm1) && AllUnlabelled(Lex(c, p, line).value)
    requires Ends(s, p, line, asm, total, result)
    ensures asm1.mc <= result.mc
  {
    var lines := Lex(c, p, line).value;
    var rest := Lex(s, |c|, LastLine(c, p, line));
    LexStays(c, s, p, line);
    ParsesStay(c, s, lines, asm, m, total);
    EndsInParts(s, asm, asm1, lines, Lex(s, p, line).value, rest, total, result);
    LinesGrow(s, asm1, rest.value, total);
  }

  /** Two runs of the programs f1 and f2 while the first stays in the block of commands from
      lo up to hi. */
  ghost predicate BlockInStep(f1: Asm, f2: Asm, v1: Vm, v2: Vm, lo: nat, hi: nat, d: int, n: nat)
    requires lo <= hi
  {
    |f1.mc| <= MAXWORD && |f2.mc| <= MAXWORD && StaysInBlock(f1.mc, f2.mc, v1, lo, hi - lo, n)
    ==> SameRun(Run(f1.mc, v1, n), Run(f2.mc, v2, n), d)
  }

  /** The block from p and from q, with more text behind it in both sources. */
  lemma MiddleLockstep(c1: string, s1: string, p: nat, l1: nat, a: Asm, a1: Asm, m1: nat, t1: nat, f1: Asm,
                       c2: string, s2: string, q: nat, l2: nat, b: Asm, t2: nat, f2: Asm,
                       d: int, v1: Vm, v2: Vm, n: nat)
    requires ShiftedText.SameTail(c1, p, c2, q) && GoesOn(c1, s1) && GoesOn(c2, s2)
    requires MovableText(c1, p, l1, a, m1, a1, d) && Ends(s1, p, l1, a, t1, f1) && Ends(s2, q, l2, b, t2, f2)
    requires Twins(a, b, d) && Apart(v1, v2, d)
    ensures |a.mc| <= |a1.mc| && BlockInStep(f1, f2, v1, v2, |a.mc|, |a1.mc|, d, n)
  {
    RelocatableUnlabelled(c1, a, Lex(c1, p, l1).value, m1, d);
    EndsBehind(c1, s1, p, l1, a, a1, m1, t1, f1);
    var b1 := BlockEnds(c1, p, l1, a, a1, m1, c2, q, l2, b, t2, d);
    EndsBehind(c2, s2, q, l2, b, b1, t2, t2, f2);
    GrownInStep(a, a1, b, b1, f1, f2, v1, v2, d, n);
  }

  lemma GrownInStep(a: Asm, a1: Asm, b: Asm, b1: Asm, f1: Asm, f2: Asm, v1: Vm, v2: Vm, d: int, n: nat)
    requires Grown(a, a1, b, b1, d) && Apart(v1, v2, d) && a1.mc <= f1.mc && b1.mc <= f2.mc
    ensures |a.mc| <= |a1.mc| && BlockInStep(f1, f2, v1, v2, |a.mc|, |a1.mc|, d, n)
  {
    var tail1, tail2 := f1.mc[|a1.mc|..], f2.mc[|b1.mc|..];
    assert a1.mc + tail1 == f1.mc && b1.mc + tail2 == f2.mc;
    BlockRuns(a, a1, b, b1, tail1, tail2, v1, v2, d, n);
  }

  // ---------- whole sources ----------

  /** The source s begins with the lines of x, which leave the assembler in state asm. */
  predicate Opens(x: string, s: string, asm: Asm) {
    && (x == "" || GoesOn(x, s)) && Lex(x, 0, 1).Some? && Lex(s, 0, 1).Some? && Parseable(s, Lex(x, 0, 1).value)
    && ParseLines(s, EMPTY, Lex(x, 0, 1).value, |Lex(s, 0, 1).value|) == Parsed(asm)
  }

  lemma OpenedEnds(x: string, s: string, asm: Asm, result: Asm)
    requires Opens(x, s, asm) && Build(s) == Parsed(result)
    ensures |x| <= |s| && Ends(s, |x|, LastLine(x, 0, 1), asm, |Lex(s, 0, 1).value|, result)
  {
    var lines, all, next := Lex(x, 0, 1).value, Lex(s, 0, 1).value, LastLine(x, 0, 1);
    if x == "" {
      LinesBeforeNothing(Lex(s, 0, 1));
    } else {
      LexStays(x, s, 0, 1);
    }
    LexedParse(s, 0, 1);
    EndsInParts(s, EMPTY, asm, lines, all, Lex(s, |x|, next), |all|, result);
  }

  lemma JoinGoesOn(x: string, w: string, y: string)
    requires Closed(w) && (x == "" || GoesOn(x, x + w + y))
    ensures GoesOn(x + w, x + w + y)
  {
  }

  /** Two sources, built as they stand, that share the lines w between whatever goes before and
      whatever follows: the commands of w run in lockstep in the two programs, with the same
      RAM and log and program counters that differ by the distance, for as long as PC stays
      among them. */
  lemma SharedLinesLockstep(x1: string, y1: string, a: Asm, a1: Asm, f1: Asm, x2: string, y2: string, b: Asm, f2: Asm,
                            w: string, m: nat, d: int, v1: Vm, v2: Vm, n: nat)
    requires Closed(w) && Opens(x1, x1 + w + y1, a) && Opens(x2, x2 + w + y2, b)
    requires MovableText(x1 + w, |x1|, LastLine(x1, 0, 1), a, m, a1, d)
    requires Build(x1 + w + y1) == Parsed(f1) && Build(x2 + w + y2) == Parsed(f2)
    requires Twins(a, b, d) && Apart(v1, v2, d)
    ensures |a.mc| <= |a1.mc| && BlockInStep(f1, f2, v1, v2, |a.mc|, |a1.mc|, d, n)
  {
    var s1, s2 := x1 + w + y1, x2 + w + y2;
    OpenedEnds(x1, s1, a, f1);
    OpenedEnds(x2, s2, b, f2);
    JoinGoesOn(x1, w, y1);
    JoinGoesOn(x2, w, y2);
    assert (x1 + w)[|x1|..] == w == (x2 + w)[|x2|..];
    MiddleLockstep(x1 + w, s1, |x1|, LastLine(x1, 0, 1), a, a1, m, |Lex(s1, 0, 1).value|, f1,
                   x2 + w, s2, |x2|, LastLine(x2, 0, 1), b, |Lex(s2, 0, 1).value|, f2, d, v1, v2, n);
  }
}
