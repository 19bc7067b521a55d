/** What the lexer takes for a name, a label, a quoted text, an address to be chosen, blank space
    and a comment, character by character. */
module Spellings {
  import opened Decimal
  import opened Machine
  import opened Lexer

  // ---------- blank space and comments ----------

  predicate Blanks(g: string) {
    forall i :: 0 <= i < |g| ==> g[i] == ' ' || g[i] == '\t'
  }

  lemma {:induction false} SpacesSkipped(code: string, p: nat, g: string)
    requires Holds(code, p, g) && Blanks(g)
    ensures SkipSpace(code, p) == SkipSpace(code, p + |g|)
    decreases |g|
  {
    if g != [] {
      HoldsAt(code, p, g, 0);
      assert g == g[..1] + g[1..];
      HoldsSplit(code, p, g[..1], g[1..]);
      SpacesSkipped(code, p + 1, g[1..]);
    }
  }

  /** Spaces and tabs in front of a line or of an argument make no difference. */
  lemma BlanksSkipped(code: string, p: nat, g: string, line: nat)
    requires Holds(code, p, g) && Blanks(g)
    ensures LexLine(code, p, line) == LexLine(code, p + |g|, line)
    ensures Args(code, p, line) == Args(code, p + |g|, line)
  {
    SpacesSkipped(code, p, g);
  }

  predicate OneLine(g: string) {
    forall i :: 0 <= i < |g| ==> g[i] != '\n' && g[i] != NUL
  }

  lemma {:induction false} RemarkSkipped(code: string, p: nat, g: string)
    requires Holds(code, p, g + "\n") && OneLine(g)
    ensures SkipComment(code, p) == p + |g| && At(code, p + |g|) == '\n'
    decreases |g|
  {
    HoldsAt(code, p, g + "\n", |g|);
    if g != [] {
      HoldsAt(code, p, g + "\n", 0);
      assert g + "\n" == g[..1] + (g[1..] + "\n");
      HoldsSplit(code, p, g[..1], g[1..] + "\n");
      RemarkSkipped(code, p + 1, g[1..]);
    }
  }

  /** An argument stands from s up to p. */
  predicate EndsAt(code: string, s: nat, p: nat, ts: seq<Token>, line: nat) {
    s <= |code| && SkipSpace(code, s) == s && EndLine(code, s).None? && ArgNext(code, s, line) == Some((ts, p))
  }

  /** A semicolon starts a comment up to the end of the line: alone it is an empty line, behind
      a command or an argument it ends the line as a newline does. */
  lemma CommentEnds(code: string, p: nat, g: string, line: nat)
    requires Holds(code, p, ";" + g + "\n") && OneLine(g)
    ensures LexLine(code, p, line) == Some(([], p + |g| + 2)) && Args(code, p, line) == Some(([], p + |g| + 2))
    ensures forall s: nat, ts: seq<Token> :: EndsAt(code, s, p, ts, line) ==>
        Args(code, s, line) == Some((ts, p + |g| + 2))
  {
    HoldsAt(code, p, ";" + g + "\n", 0);
    assert ";" + g + "\n" == ";" + (g + "\n");
    HoldsSplit(code, p, ";", g + "\n");
    RemarkSkipped(code, p + 1, g);
    assert EndLine(code, p) == Some(p + |g| + 2);
    assert SkipSpace(code, p) == p;
  }

  /** A newline ends the line. */
  lemma NewlineEnds(code: string, p: nat, line: nat)
    requires p < |code| && code[p] == '\n'
    ensures LexLine(code, p, line) == Some(([], p + 1)) && Args(code, p, line) == Some(([], p + 1))
  {
    assert SkipSpace(code, p) == p;
  }

  // ---------- names and labels ----------

  predicate Letter(c: char) {
    'a' <= c <= 'z' || 'A' <= c <= 'Z' || c == '_'
  }

  predicate LetterOrDigit(c: char) {
    Letter(c) || '0' <= c <= '9'
  }

  predicate IsName(w: string) {
    w != [] && Letter(w[0]) && forall i :: 0 <= i < |w| ==> LetterOrDigit(w[i])
  }

  lemma {:induction false} NameRun(code: string, p: nat, w: string)
    requires Holds(code, p, w) && forall i :: 0 <= i < |w| ==> LetterOrDigit(w[i])
    requires !LetterOrDigit(At(code, p + |w|))
    ensures NameEnd(code, p) == p + |w|
    decreases |w|
  {
    if w != [] {
      HoldsAt(code, p, w, 0);
      assert w == w[..1] + w[1..];
      HoldsSplit(code, p, w[..1], w[1..]);
      NameRun(code, p + 1, w[1..]);
    }
  }

  /** A name is a run of letters, digits and underscores that does not start with a digit. */
  lemma NameRead(code: string, p: nat, w: string, line: nat)
    requires Holds(code, p, w) && IsName(w) && !LetterOrDigit(At(code, p + |w|))
    ensures ArgNext(code, p, line) == Some(([Token(Name, p, p + |w|, line)], p + |w|))
  {
    HoldsAt(code, p, w, 0);
    NameRun(code, p, w);
  }

  /** The command name of a line has a space, a tab, a newline or a comment behind it; with a
      colon it is a label, and the command name follows. */
  lemma HeadRead(code: string, p: nat, w: string, line: nat)
    requires Holds(code, p, w) && IsName(w) && !LetterOrDigit(At(code, p + |w|))
    ensures var c, h := At(code, p + |w|), Head(code, p, line);
      if c == ' ' || c == '\t' || c == '\n' || c == ';' then h == Some(([Token(Name, p, p + |w|, line)], p + |w|))
      else if c == ':' then
        var rest := Head(code, SkipSpace(code, p + |w| + 1), line);
        if rest.None? then h == None
        else h == Some(([Token(Label, p, p + |w|, line)] + rest.value.0, rest.value.1))
      else h == None
  {
    HoldsAt(code, p, w, 0);
    NameRun(code, p, w);
  }

  // ---------- the other arguments ----------

  /** A question mark stands by itself. */
  lemma AutoRead(code: string, p: nat, line: nat)
    requires p < |code| && code[p] == '?'
    ensures ArgNext(code, p, line) == Some(([Token(Auto, p, p + 1, line)], p + 1))
  {
  }

  lemma {:induction false} IntRun(code: string, p: nat, w: string)
    requires Holds(code, p, w) && (forall i :: 0 <= i < |w| ==> '0' <= w[i] <= '9' || w[i] == '-')
    requires var c := At(code, p + |w|); !('0' <= c <= '9' || c == '-')
    ensures IntEnd(code, p) == p + |w|
    decreases |w|
  {
    if w != [] {
      HoldsAt(code, p, w, 0);
      assert w == w[..1] + w[1..];
      HoldsSplit(code, p, w[..1], w[1..]);
      IntRun(code, p + 1, w[1..]);
    }
  }

  /** A number is a run of digits and minus signs. */
  lemma IntRead(code: string, p: nat, w: string, line: nat)
    requires Holds(code, p, w) && w != [] && (forall i :: 0 <= i < |w| ==> '0' <= w[i] <= '9' || w[i] == '-')
    requires var c := At(code, p + |w|); !('0' <= c <= '9' || c == '-')
    ensures ArgNext(code, p, line) == Some(([Token(LiteralNum, p, p + |w|, line)], p + |w|))
  {
    HoldsAt(code, p, w, 0);
    IntRun(code, p, w);
  }

  /** Text that ends at the next quote: a backslash takes the character behind it along. */
  predicate Closes(w: string, quote: char) {
    w == [] ||
    if w[0] == '\\' then |w| >= 2 && w[1] != NUL && Closes(w[2..], quote)
    else w[0] != quote && w[0] != NUL && Closes(w[1..], quote)
  }

  lemma {:induction false} QuoteRun(code: string, p: nat, w: string, quote: char)
    requires Holds(code, p, w + [quote]) && Closes(w, quote) && quote != NUL && quote != '\\'
    ensures QuoteEnd(code, p, quote) == p + |w| && At(code, p + |w|) == quote
    decreases |w|
  {
    HoldsAt(code, p, w + [quote], |w|);
    if w != [] {
      var k := if w[0] == '\\' then 2 else 1;
      HoldsAt(code, p, w + [quote], 0);
      HoldsAt(code, p, w + [quote], k - 1);
      assert w + [quote] == w[..k] + (w[k..] + [quote]);
      HoldsSplit(code, p, w[..k], w[k..] + [quote]);
      QuoteRun(code, p + k, w[k..], quote);
    }
  }

  /** A text in double or single quotes. */
  lemma QuotedRead(code: string, p: nat, w: string, quote: char, line: nat)
    requires (quote == '"' || quote == '\'') && Holds(code, p, [quote] + w + [quote]) && Closes(w, quote)
    ensures ArgNext(code, p, line)
         == Some(([Token(if quote == '"' then LiteralStr else LiteralChar, p, p + |w| + 2, line)], p + |w| + 2))
  {
    HoldsAt(code, p, [quote] + w + [quote], 0);
    assert [quote] + w + [quote] == [quote] + (w + [quote]);
    HoldsSplit(code, p, [quote], w + [quote]);
    QuoteRun(code, p + 1, w, quote);
  }
}
