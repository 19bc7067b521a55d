/** A text of whole lines that is lexed by itself is lexed and parsed the same when more text
    follows it. */
module FollowedText {
  import opened Decimal
  import opened Lexer
  import opened Parser
  import opened AlikeTokens

  /** Lines that are complete: the last character is a newline, and no NUL ends the source
      before it. */
  predicate Closed(c: string) {
    c != [] && c[|c| - 1] == '\n' && forall i :: 0 <= i < |c| ==> c[i] != NUL
  }

  /** The second source goes on where the first ends. */
  predicate GoesOn(c: string, d: string) {
    Closed(c) && |c| <= |d| && forall i :: 0 <= i < |c| ==> d[i] == c[i]
  }

  // ---------- scanners ----------

  lemma {:induction false} SpaceStays(c: string, d: string, p: nat)
    requires GoesOn(c, d) && p < |c|
    ensures SkipSpace(d, p) == SkipSpace(c, p) < |c|
    decreases |c| - p
  {
    if IsBlank(c[p]) {
      SpaceStays(c, d, p + 1);
    }
  }

  lemma {:induction false} CommentStays(c: string, d: string, p: nat)
    requires GoesOn(c, d) && p < |c|
    ensures SkipComment(d, p) == SkipComment(c, p) < |c|
    decreases |c| - p
  {
    if c[p] != '\n' {
      CommentStays(c, d, p + 1);
    }
  }

  lemma {:induction false} NameStays(c: string, d: string, p: nat)
    requires GoesOn(c, d) && p < |c|
    ensures NameEnd(d, p) == NameEnd(c, p) < |c|
    decreases |c| - p
  {
    if IsNameChar(c[p]) {
      NameStays(c, d, p + 1);
    }
  }

  lemma {:induction false} IntStays(c: string, d: string, p: nat)
    requires GoesOn(c, d) && p < |c|
    ensures IntEnd(d, p) == IntEnd(c, p) < |c|
    decreases |c| - p
  {
    if IsIntChar(c[p]) {
      IntStays(c, d, p + 1);
    }
  }

  /** A quote that is closed in the first source. */
  lemma {:induction false} QuoteStays(c: string, d: string, p: nat, quote: char)
    requires GoesOn(c, d) && quote != NUL && At(c, QuoteEnd(c, p, quote)) == quote
    ensures QuoteEnd(d, p, quote) == QuoteEnd(c, p, quote) < |c|
    decreases |c| - p
  {
    if p < |c| && c[p] != quote {
      if c[p] == '\\' && At(c, p + 1) != NUL {
        QuoteStays(c, d, p + 2, quote);
      } else {
        QuoteStays(c, d, p + 1, quote);
      }
    }
  }

  lemma EndLineStays(c: string, d: string, p: nat)
    requires GoesOn(c, d) && p < |c|
    ensures EndLine(d, p) == EndLine(c, p) && (EndLine(c, p).Some? ==> EndLine(c, p).value <= |c|)
  {
    if c[p] == ';' {
      CommentStays(c, d, p + 1);
    }
  }

  // ---------- tokens ----------

  /** What the lexer makes sure of: names and numbers start with no white space, and a string
      ends with its quote. */
  predicate Sound(c: string, t: Token) {
    && InSource(c, t)
    && (t.kind == Name || t.kind == LiteralNum ==> !IsSpace(c[t.start]))
    && (t.kind == LiteralStr ==> t.start + 1 < t.end && c[t.end - 1] == '"')
  }

  predicate AllSound(c: string, tokens: seq<Token>) {
    forall i :: 0 <= i < |tokens| ==> Sound(c, tokens[i])
  }

  /** The same sound tokens, ending inside the first source. */
  predicate Stays(c: string, r: Scan, s: Scan) {
    r.Some? ==> r == s && AllSound(c, r.value.0) && r.value.1 <= |c|
  }

  lemma {:induction false} ArgStays(c: string, d: string, p: nat, line: nat)
    requires GoesOn(c, d) && p < |c|
    ensures Stays(c, ArgNext(c, p, line), ArgNext(d, p, line))
    ensures ArgNext(c, p, line).Some? ==> ArgNext(c, p, line).value.1 < |c|
    decreases |c| - p
  {
    var k := c[p];
    if ArgNext(c, p, line).Some? {
      if PrefixKind(k).Some? {
        ArgStays(c, d, p + 1, line);
      } else if IsIntChar(k) {
        IntStays(c, d, p);
      } else if k == '\'' || k == '"' {
        QuoteStays(c, d, p + 1, k);
      } else if IsNameStart(k) {
        NameStays(c, d, p);
      }
    }
  }

  lemma {:induction false} HeadStays(c: string, d: string, p: nat, line: nat)
    requires GoesOn(c, d) && p < |c|
    ensures Stays(c, Head(c, p, line), Head(d, p, line))
    ensures Head(c, p, line).Some? ==> Head(c, p, line).value.1 < |c|
    decreases |c| - p
  {
    if Head(c, p, line).Some? {
      NameStays(c, d, p);
      var q := NameEnd(c, p);
      if c[q] == ':' {
        SpaceStays(c, d, q + 1);
        HeadStays(c, d, SkipSpace(c, q + 1), line);
      }
    }
  }

  lemma {:induction false} ArgsStay(c: string, d: string, p: nat, line: nat)
    requires GoesOn(c, d) && p < |c|
    ensures Stays(c, Args(c, p, line), Args(d, p, line))
    decreases |c| - p
  {
    if Args(c, p, line).Some? {
      SpaceStays(c, d, p);
      var x := SkipSpace(c, p);
      EndLineStays(c, d, x);
      if EndLine(c, x).None? {
        ArgStays(c, d, x, line);
        var q := ArgNext(c, x, line).value.1;
        EndLineStays(c, d, q);
        if EndLine(c, q).None? {
          ArgsStay(c, d, q + 1, line);
        }
      }
    }
  }

  lemma LineStays(c: string, d: string, p: nat, line: nat)
    requires GoesOn(c, d) && p < |c|
    ensures Stays(c, LexLine(c, p, line), LexLine(d, p, line))
  {
    if LexLine(c, p, line).Some? {
      SpaceStays(c, d, p);
      var x := SkipSpace(c, p);
      EndLineStays(c, d, x);
      if EndLine(c, x).None? {
        HeadStays(c, d, x, line);
        ArgsStay(c, d, Head(c, x, line).value.1, line);
      }
    }
  }

  predicate LinesSound(c: string, lines: Lines) {
    forall i :: 0 <= i < |lines| ==> AllSound(c, lines[i])
  }

  /** The line number where lexing ends. */
  function LastLine(c: string, p: nat, line: nat): (n: nat)
    requires p <= |c|
    ensures line <= n
    decreases |c| - p
  {
    if At(c, p) == NUL then line
    else
      var l := LexLine(c, p, line);
      if l.None? then line else LastLine(c, l.value.1, line + 1)
  }

  /** The lines of the first source are the first lines of the second, and lexing goes on with
      the text that follows. */
  lemma {:induction false} LexStays(c: string, d: string, p: nat, line: nat)
    requires GoesOn(c, d) && p <= |c| && Lex(c, p, line).Some?
    ensures Lex(d, p, line) == LinesBefore(Lex(c, p, line).value, Lex(d, |c|, LastLine(c, p, line)))
    ensures LinesSound(c, Lex(c, p, line).value)
    decreases |c| - p
  {
    LinesBeforeNothing(Lex(d, |c|, line));
    if p < |c| {
      LineStays(c, d, p, line);
      LexNext(c, p, line);
      LexNext(d, p, line);
      var l := LexLine(c, p, line).value;
      LexStays(c, d, l.1, line + 1);
      LinesBeforeTwice(AsLines(l.0), Lex(c, l.1, line + 1).value, Lex(d, |c|, LastLine(c, l.1, line + 1)));
    }
  }

  // ---------- what the parser reads ----------

  lemma {:induction false} DigitsStay(c: string, d: string, p: nat)
    requires GoesOn(c, d) && p < |c|
    ensures DigitsEnd(d, p) == DigitsEnd(c, p) < |c|
    decreases |c| - p
  {
    if IsDigit(c[p]) {
      DigitsStay(c, d, p + 1);
    }
  }

  lemma NumberStays(c: string, d: string, p: nat)
    requires GoesOn(c, d) && p < |c|
    ensures NumberAt(d, p) == NumberAt(c, p)
  {
    DigitsStay(c, d, p);
    assert d[p..DigitsEnd(c, p)] == c[p..DigitsEnd(c, p)];
  }

  lemma ValueStays(c: string, d: string, p: nat)
    requires GoesOn(c, d) && p < |c| && !IsSpace(c[p])
    ensures StrToUl(d, p) == StrToUl(c, p)
  {
    NumberStays(c, d, p);
    if c[p] == '-' || c[p] == '+' {
      NumberStays(c, d, p + 1);
    }
  }

  lemma {:induction false} FindStays(c: string, d: string, p: nat, e: nat)
    requires GoesOn(c, d) && p <= e < |c| && c[e] == '"'
    ensures FindChar(c, p, '"') == FindChar(d, p, '"')
    ensures FindChar(c, p, '"').Some? && p <= FindChar(c, p, '"').value < |c|
    decreases e - p
  {
    if c[p] != '"' {
      FindStays(c, d, p + 1, e);
    }
  }

  lemma SoundIsAlike(c: string, d: string, t: Token)
    requires GoesOn(c, d) && Sound(c, t)
    ensures InSource(d, t) && Alike(c, t, d, t)
  {
    assert c[t.start..t.end] == d[t.start..t.end];
    if t.kind == Name || t.kind == LiteralNum {
      ValueStays(c, d, t.start);
    } else if t.kind == LiteralStr {
      FindStays(c, d, t.start + 1, t.end - 1);
      var e := FindChar(c, t.start + 1, '"').value;
      assert c[t.start + 1..e] == d[t.start + 1..e];
    }
  }

  /** Unlabelled lines do the same to the assembler with more text behind them. */
  lemma ParsesStay(c: string, d: string, lines: Lines, asm: Asm, m: nat, n: nat)
    requires GoesOn(c, d) && LinesSound(c, lines) && Parseable(c, lines) && AllUnlabelled(lines)
    ensures Parseable(d, lines) && ParseLines(c, asm, lines, m) == ParseLines(d, asm, lines, n)
  {
    forall i, j | 0 <= i < |lines| && 0 <= j < |lines[i]|
      ensures InSource(d, lines[i][j]) && Alike(c, lines[i][j], d, lines[i][j])
    {
      assert AllSound(c, lines[i]);
      SoundIsAlike(c, d, lines[i][j]);
    }
    AlikeParses(c, lines, d, lines, asm, m, n);
  }
}
