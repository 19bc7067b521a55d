/** The tokens of an assembler source, as core/c32asmlex.c finds them. Positions index the
    source, which ends at its length or at its first NUL. */
module Lexer {
  import opened Decimal
  import opened Machine

  datatype Kind = LiteralNum | LiteralChar | LiteralStr | Auto | AsRam | AsAddr | AsPtr | AsData | Name | Label

  datatype Token = Token(kind: Kind, start: nat, end: nat, line: nat)

  predicate IsBlank(c: char) {
    c == ' ' || c == '\t'
  }

  predicate IsLetter(c: char) {
    'a' <= c <= 'z' || 'A' <= c <= 'Z'
  }

  predicate IsNameStart(c: char) {
    IsLetter(c) || c == '_'
  }

  predicate IsNameChar(c: char) {
    IsLetter(c) || IsDigit(c) || c == '_'
  }

  predicate IsIntChar(c: char) {
    IsDigit(c) || c == '-'
  }

  // ---------- scanners ----------

  function SkipSpace(code: string, p: nat): (q: nat)
    ensures p <= q && (p <= |code| ==> q <= |code|) && !IsBlank(At(code, q))
    decreases |code| - p
  {
    if p < |code| && IsBlank(code[p]) then SkipSpace(code, p + 1) else p
  }

  function SkipComment(code: string, p: nat): (q: nat)
    ensures p <= q && (p <= |code| ==> q <= |code|) && (At(code, q) == NUL || At(code, q) == '\n')
    decreases |code| - p
  {
    if p < |code| && code[p] != NUL && code[p] != '\n' then SkipComment(code, p + 1) else p
  }

  /** a32_endl: the end of source, a newline or a comment; where the next line starts. */
  function EndLine(code: string, p: nat): (r: Option<nat>)
    ensures r.Some? ==> p <= r.value && (p <= |code| ==> r.value <= |code|)
    ensures r.Some? && At(code, p) != NUL ==> p < r.value
  {
    var c := At(code, p);
    if c == NUL then Some(p)
    else if c == '\n' then Some(p + 1)
    else if c == ';' then
      var q := SkipComment(code, p + 1);
      Some(if At(code, q) != NUL then q + 1 else q)
    else None
  }

  function NameEnd(code: string, p: nat): (q: nat)
    ensures p <= q && (p <= |code| ==> q <= |code|) && !IsNameChar(At(code, q))
    ensures IsNameChar(At(code, p)) ==> p < q
    decreases |code| - p
  {
    if p < |code| && IsNameChar(code[p]) then NameEnd(code, p + 1) else p
  }

  function IntEnd(code: string, p: nat): (q: nat)
    ensures p <= q && (p <= |code| ==> q <= |code|) && !IsIntChar(At(code, q))
    ensures IsIntChar(At(code, p)) ==> p < q
    decreases |code| - p
  {
    if p < |code| && IsIntChar(code[p]) then IntEnd(code, p + 1) else p
  }

  /** Where the quoted text stops: at the quote, or at the end of source. A backslash takes
      the next character with it. */
  function QuoteEnd(code: string, p: nat, quote: char): (q: nat)
    ensures p <= q && (p <= |code| ==> q <= |code|) && (At(code, q) == NUL || At(code, q) == quote)
    decreases |code| - p
  {
    if p >= |code| || code[p] == NUL || code[p] == quote then p
    else if code[p] == '\\' && At(code, p + 1) != NUL then QuoteEnd(code, p + 2, quote)
    else QuoteEnd(code, p + 1, quote)
  }

  // ---------- one argument ----------

  function PrefixKind(c: char): Option<Kind> {
    if c == '$' then Some(AsRam) else if c == '&' then Some(AsAddr)
    else if c == '*' then Some(AsPtr) else if c == '@' then Some(AsData) else None
  }

  type Scan = Option<(seq<Token>, nat)>

  predicate Advances(code: string, p: nat, r: Scan) {
    r.Some? ==> p < r.value.1 <= |code|
  }

  /** a32_arg_next */
  function ArgNext(code: string, p: nat, line: nat): (r: Scan)
    ensures Advances(code, p, r)
    decreases |code| - p
  {
    var c := At(code, p);
    if p >= |code| then None
    else if c == '?' then Some(([Token(Auto, p, p + 1, line)], p + 1))
    else if PrefixKind(c).Some? then
      var rest := ArgNext(code, p + 1, line);
      if rest.None? then None
      else Some(([Token(PrefixKind(c).value, p, p + 1, line)] + rest.value.0, rest.value.1))
    else if IsIntChar(c) then
      var q := IntEnd(code, p);
      Some(([Token(LiteralNum, p, q, line)], q))
    else if c == '\'' || c == '"' then
      var q := QuoteEnd(code, p + 1, c);
      if At(code, q) != c then None
      else Some(([Token(if c == '"' then LiteralStr else LiteralChar, p, q + 1, line)], q + 1))
    else if IsNameStart(c) then
      var q := NameEnd(code, p);
      Some(([Token(Name, p, q, line)], q))
    else None
  }

  // ---------- one line ----------

  /** Labels and the command name; the name needs a separator behind it. */
  function Head(code: string, p: nat, line: nat): (r: Scan)
    ensures Advances(code, p, r)
    decreases |code| - p
  {
    if p >= |code| || !IsNameStart(code[p]) then None
    else
      var q := NameEnd(code, p);
      var c := At(code, q);
      if c == ':' then
        var rest := Head(code, SkipSpace(code, q + 1), line);
        if rest.None? then None else Some(([Token(Label, p, q, line)] + rest.value.0, rest.value.1))
      else if IsBlank(c) || c == '\n' || c == ';' then Some(([Token(Name, p, q, line)], q))
      else None
  }

  /** The arguments up to the end of the line. */
  function Args(code: string, p: nat, line: nat): (r: Scan)
    requires p <= |code|
    ensures r.Some? ==> p <= r.value.1 <= |code|
    ensures r.Some? && At(code, p) != NUL ==> p < r.value.1
    decreases |code| - p
  {
    var s := SkipSpace(code, p);
    var e := EndLine(code, s);
    if e.Some? then Some(([], e.value))
    else
      var a := ArgNext(code, s, line);
      if a.None? then None
      else
        var q := a.value.1;
        var f := EndLine(code, q);
        if f.Some? then Some((a.value.0, f.value))
        else if At(code, q) != ',' then None
        else
          var rest := Args(code, q + 1, line);
          if rest.None? then None else Some((a.value.0 + rest.value.0, rest.value.1))
  }

  /** a32_lexer_line: the tokens of one line, none for a blank one, and the next position. */
  function LexLine(code: string, p: nat, line: nat): (r: Scan)
    requires p <= |code|
    ensures r.Some? ==> p <= r.value.1 <= |code|
    ensures r.Some? && At(code, p) != NUL ==> p < r.value.1
  {
    var s := SkipSpace(code, p);
    var e := EndLine(code, s);
    if e.Some? then Some(([], e.value))
    else
      var h := Head(code, s, line);
      if h.None? then None
      else
        var a := Args(code, h.value.1, line);
        if a.None? then None else Some((h.value.0 + a.value.0, a.value.1))
  }

  type Lines = seq<seq<Token>>

  /** a32_lexer: one entry for every line with tokens. It ends because every successful line
      takes at least one character. */
  function Lex(code: string, p: nat, line: nat): Option<Lines>
    requires p <= |code|
    decreases |code| - p
  {
    if At(code, p) == NUL then Some([])
    else
      var l := LexLine(code, p, line);
      if l.None? then None
      else
        var rest := Lex(code, l.value.1, line + 1);
        if rest.None? then None
        else Some((if l.value.0 == [] then [] else [l.value.0]) + rest.value)
  }

  /** Lines already found, in front of those still to come. */
  function LinesBefore(lines: Lines, rest: Option<Lines>): Option<Lines> {
    if rest.None? then None else Some(lines + rest.value)
  }

  lemma LinesBeforeTwice(a: Lines, b: Lines, r: Option<Lines>)
    ensures LinesBefore(a, LinesBefore(b, r)) == LinesBefore(a + b, r)
  {
    if r.Some? {
      assert a + (b + r.value) == (a + b) + r.value;
    }
  }

  lemma LinesBeforeNothing(r: Option<Lines>)
    ensures LinesBefore([], r) == r
  {
    if r.Some? {
      assert [] + r.value == r.value;
    }
  }

  function AsLines(tokens: seq<Token>): Lines {
    if tokens == [] then [] else [tokens]
  }

  lemma LexNext(code: string, p: nat, line: nat)
    requires p <= |code| && At(code, p) != NUL
    ensures var l := LexLine(code, p, line);
      Lex(code, p, line) == if l.None? then None else LinesBefore(AsLines(l.value.0), Lex(code, l.value.1, line + 1))
  {
  }

  /** One line taken from those still to come. */
  lemma LexStep(code: string, p: nat, line: nat, found: Lines)
    requires p <= |code| && At(code, p) != NUL
    ensures var l := LexLine(code, p, line);
      LinesBefore(found, Lex(code, p, line)) ==
        if l.None? then None else LinesBefore(found + AsLines(l.value.0), Lex(code, l.value.1, line + 1))
  {
    var l := LexLine(code, p, line);
    LexNext(code, p, line);
    if l.Some? {
      LinesBeforeTwice(found, AsLines(l.value.0), Lex(code, l.value.1, line + 1));
    }
  }

  // ---------- what lies between the tokens ----------

  /** Only blanks, separators, newlines and whole comments from a up to b. */
  predicate Gap(code: string, a: nat, b: nat)
    decreases b - a
  {
    a == b ||
    (a < b <= |code| &&
     (if code[a] == ';' then SkipComment(code, a + 1) <= b && Gap(code, SkipComment(code, a + 1), b)
      else (IsBlank(code[a]) || code[a] == '\n' || code[a] == ',' || code[a] == ':') && Gap(code, a + 1, b)))
  }

  /** Non-empty tokens in order and without overlap, with gaps before, between and after. */
  predicate Spaced(code: string, tokens: seq<Token>, a: nat, b: nat)
    decreases |tokens|
  {
    if tokens == [] then Gap(code, a, b)
    else
      && a <= tokens[0].start < tokens[0].end <= b <= |code|
      && Gap(code, a, tokens[0].start)
      && Spaced(code, tokens[1..], tokens[0].end, b)
  }

  lemma {:induction false} GapJoin(code: string, a: nat, b: nat, c: nat)
    requires Gap(code, a, b) && Gap(code, b, c) && a <= b <= c
    ensures Gap(code, a, c)
    decreases b - a
  {
    if a < b {
      GapJoin(code, if code[a] == ';' then SkipComment(code, a + 1) else a + 1, b, c);
    }
  }

  lemma {:induction false} SpacedJoin(code: string, s: seq<Token>, t: seq<Token>, a: nat, b: nat, c: nat)
    requires Spaced(code, s, a, b) && Spaced(code, t, b, c) && a <= b <= c <= |code|
    ensures Spaced(code, s + t, a, c)
    decreases |s|
  {
    if s == [] {
      assert s + t == t;
      if t == [] {
        GapJoin(code, a, b, c);
      } else {
        GapJoin(code, a, b, t[0].start);
      }
    } else {
      SpacedJoin(code, s[1..], t, s[0].end, b, c);
      assert (s + t)[1..] == s[1..] + t;
    }
  }

  lemma SpacedAfterGap(code: string, t: seq<Token>, a: nat, b: nat, c: nat)
    requires Gap(code, a, b) && Spaced(code, t, b, c) && a <= b <= c <= |code|
    ensures Spaced(code, t, a, c)
  {
    SpacedJoin(code, [], t, a, b, c);
    assert [] + t == t;
  }

  lemma SpacedBeforeGap(code: string, t: seq<Token>, a: nat, b: nat, c: nat)
    requires Spaced(code, t, a, b) && Gap(code, b, c) && a <= b <= c <= |code|
    ensures Spaced(code, t, a, c)
  {
    SpacedJoin(code, t, [], a, b, c);
    assert t + [] == t;
  }

  lemma {:induction false} SpaceIsGap(code: string, p: nat)
    requires p <= |code|
    ensures Gap(code, p, SkipSpace(code, p))
    decreases |code| - p
  {
    if p < |code| && IsBlank(code[p]) {
      SpaceIsGap(code, p + 1);
    }
  }

  lemma EndLineIsGap(code: string, p: nat)
    requires p <= |code| && EndLine(code, p).Some?
    ensures Gap(code, p, EndLine(code, p).value)
  {
    if At(code, p) == ';' {
      var q := SkipComment(code, p + 1);
      assert At(code, q) != NUL ==> Gap(code, q, q + 1);
    }
  }

  lemma {:induction false} ArgSpaced(code: string, p: nat, line: nat)
    ensures var r := ArgNext(code, p, line);
      r.Some? ==> Spaced(code, r.value.0, p, r.value.1)
    decreases |code| - p
  {
    if p < |code| && PrefixKind(code[p]).Some? && code[p] != '?' {
      ArgSpaced(code, p + 1, line);
      var rest := ArgNext(code, p + 1, line);
      if rest.Some? {
        assert ([Token(PrefixKind(code[p]).value, p, p + 1, line)] + rest.value.0)[1..] == rest.value.0;
      }
    }
  }

  lemma {:induction false} HeadSpaced(code: string, p: nat, line: nat)
    ensures var r := Head(code, p, line);
      r.Some? ==> Spaced(code, r.value.0, p, r.value.1)
    decreases |code| - p
  {
    if p < |code| && IsNameStart(code[p]) {
      var q := NameEnd(code, p);
      if At(code, q) == ':' {
        var s := SkipSpace(code, q + 1);
        HeadSpaced(code, s, line);
        var rest := Head(code, s, line);
        if rest.Some? {
          SpaceIsGap(code, q + 1);
          GapJoin(code, q, q + 1, s);
          SpacedJoin(code, [Token(Label, p, q, line)], rest.value.0, p, s, rest.value.1);
        }
      }
    }
  }

  /** What follows one argument: the end of the line, or a comma and the other arguments. */
  lemma TailSpaced(code: string, tokens: seq<Token>, p: nat, q: nat, rest: Scan)
    requires p <= q <= |code| && Spaced(code, tokens, p, q)
    requires EndLine(code, q).None? && At(code, q) == ',' && q < |code|
    requires rest.Some? && q + 1 <= rest.value.1 <= |code| && Spaced(code, rest.value.0, q + 1, rest.value.1)
    ensures Spaced(code, tokens + rest.value.0, p, rest.value.1)
  {
    SpacedAfterGap(code, rest.value.0, q, q + 1, rest.value.1);
    SpacedJoin(code, tokens, rest.value.0, p, q, rest.value.1);
  }

  /** The end of a line behind blanks. */
  lemma NoTokens(code: string, p: nat)
    requires p <= |code| && EndLine(code, SkipSpace(code, p)).Some?
    ensures Spaced(code, [], p, EndLine(code, SkipSpace(code, p)).value)
  {
    var s := SkipSpace(code, p);
    SpaceIsGap(code, p);
    EndLineIsGap(code, s);
    GapJoin(code, p, s, EndLine(code, s).value);
  }

  /** One argument behind blanks. */
  lemma FirstSpaced(code: string, p: nat, line: nat)
    requires p <= |code|
    ensures var a := ArgNext(code, SkipSpace(code, p), line);
      a.Some? ==> Spaced(code, a.value.0, p, a.value.1)
  {
    var s := SkipSpace(code, p);
    SpaceIsGap(code, p);
    var a := ArgNext(code, s, line);
    if a.Some? {
      ArgSpaced(code, s, line);
      SpacedAfterGap(code, a.value.0, p, s, a.value.1);
    }
  }

  lemma {:induction false} ArgsSpaced(code: string, p: nat, line: nat)
    requires p <= |code|
    ensures var r := Args(code, p, line);
      r.Some? ==> Spaced(code, r.value.0, p, r.value.1)
    decreases |code| - p
  {
    var s := SkipSpace(code, p);
    if EndLine(code, s).Some? {
      NoTokens(code, p);
    } else {
      var a := ArgNext(code, s, line);
      if a.Some? {
        var q := a.value.1;
        FirstSpaced(code, p, line);
        if EndLine(code, q).Some? {
          EndLineIsGap(code, q);
          SpacedBeforeGap(code, a.value.0, p, q, EndLine(code, q).value);
        } else if At(code, q) == ',' {
          ArgsSpaced(code, q + 1, line);
          var rest := Args(code, q + 1, line);
          if rest.Some? {
            TailSpaced(code, a.value.0, p, q, rest);
          }
        }
      }
    }
  }

  lemma LineSpaced(code: string, p: nat, line: nat)
    requires p <= |code|
    ensures var r := LexLine(code, p, line);
      r.Some? ==> Spaced(code, r.value.0, p, r.value.1)
  {
    var s := SkipSpace(code, p);
    SpaceIsGap(code, p);
    if EndLine(code, s).Some? {
      NoTokens(code, p);
    } else {
      var h := Head(code, s, line);
      if h.Some? {
        var q := h.value.1;
        HeadSpaced(code, s, line);
        SpacedAfterGap(code, h.value.0, p, s, q);
        ArgsSpaced(code, q, line);
        var a := Args(code, q, line);
        if a.Some? {
          SpacedJoin(code, h.value.0, a.value.0, p, q, a.value.1);
        }
      }
    }
  }

  predicate InSource(code: string, t: Token) {
    t.start < t.end <= |code|
  }

  predicate AllIn(code: string, tokens: seq<Token>) {
    forall i :: 0 <= i < |tokens| ==> InSource(code, tokens[i])
  }

  function Text(code: string, t: Token): string
    requires InSource(code, t)
  {
    code[t.start..t.end]
  }

  lemma {:induction false} SpacedAreIn(code: string, tokens: seq<Token>, a: nat, b: nat)
    requires Spaced(code, tokens, a, b)
    ensures AllIn(code, tokens)
    decreases |tokens|
  {
    if tokens != [] {
      SpacedAreIn(code, tokens[1..], tokens[0].end, b);
      assert forall i :: 1 <= i < |tokens| ==> tokens[i] == tokens[1..][i - 1];
    }
  }

  function Flat(lines: Lines): seq<Token> {
    if lines == [] then [] else lines[0] + Flat(lines[1..])
  }

  /** On success the tokens of all lines, one after the other, are non-empty, ordered and
      disjoint, and with blanks, separators, newlines and comments they make up the whole
      source, to where it ends. */
  lemma {:induction false} LexSpaced(code: string, p: nat, line: nat) returns (e: nat)
    requires p <= |code| && Lex(code, p, line).Some?
    ensures p <= e <= |code| && At(code, e) == NUL && Spaced(code, Flat(Lex(code, p, line).value), p, e)
    ensures (forall i :: 0 <= i < |code| ==> code[i] != NUL) ==> e == |code|
    decreases |code| - p
  {
    if At(code, p) == NUL {
      e := p;
    } else {
      var l := LexLine(code, p, line).value;
      LineSpaced(code, p, line);
      e := LexSpaced(code, l.1, line + 1);
      var rest := Lex(code, l.1, line + 1).value;
      SpacedJoin(code, l.0, Flat(rest), p, l.1, e);
      if l.0 == [] {
        assert [] + rest == rest && [] + Flat(rest) == Flat(rest);
      } else {
        assert ([l.0] + rest)[1..] == rest;
      }
    }
  }
}
