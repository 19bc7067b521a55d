/** The same text at the end of two sources: it is lexed to the same tokens, further on, and
    parsed to the same commands. */
module ShiftedText {
  import opened Decimal
  import opened Machine
  import opened Lexer
  import opened Parser
  import opened AlikeTokens

  /** From p on the first source reads as the second does from q on. */
  predicate SameTail(c1: string, p: nat, c2: string, q: nat) {
    p <= |c1| && q <= |c2| && c1[p..] == c2[q..]
  }

  lemma TailChar(c1: string, p: nat, c2: string, q: nat)
    requires SameTail(c1, p, c2, q)
    ensures |c1| - p == |c2| - q && At(c1, p) == At(c2, q)
    ensures p < |c1| ==> SameTail(c1, p + 1, c2, q + 1)
  {
    if p < |c1| {
      assert c1[p] == c1[p..][0] && c2[q] == c2[q..][0];
      assert c1[p + 1..] == c1[p..][1..] && c2[q + 1..] == c2[q..][1..];
    }
  }

  /** The place x behind p, as seen behind q. */
  function Moved(x: nat, p: nat, q: nat): nat
    requires p <= x
  {
    x - p + q
  }

  lemma TailAhead(c1: string, p: nat, c2: string, q: nat, x: nat)
    requires SameTail(c1, p, c2, q) && p <= x <= |c1|
    ensures SameTail(c1, x, c2, Moved(x, p, q))
  {
    assert c1[x..] == c1[p..][x - p..] && c2[Moved(x, p, q)..] == c2[q..][x - p..];
  }

  // ---------- scanners ----------

  lemma {:induction false} SpaceMoves(c1: string, p: nat, c2: string, q: nat)
    requires SameTail(c1, p, c2, q)
    ensures SkipSpace(c2, q) == Moved(SkipSpace(c1, p), p, q)
    decreases |c1| - p
  {
    TailChar(c1, p, c2, q);
    if p < |c1| && IsBlank(c1[p]) {
      SpaceMoves(c1, p + 1, c2, q + 1);
    }
  }

  lemma {:induction false} CommentMoves(c1: string, p: nat, c2: string, q: nat)
    requires SameTail(c1, p, c2, q)
    ensures SkipComment(c2, q) == Moved(SkipComment(c1, p), p, q)
    decreases |c1| - p
  {
    TailChar(c1, p, c2, q);
    if p < |c1| && c1[p] != NUL && c1[p] != '\n' {
      CommentMoves(c1, p + 1, c2, q + 1);
    }
  }

  lemma {:induction false} NameMoves(c1: string, p: nat, c2: string, q: nat)
    requires SameTail(c1, p, c2, q)
    ensures NameEnd(c2, q) == Moved(NameEnd(c1, p), p, q)
    decreases |c1| - p
  {
    TailChar(c1, p, c2, q);
    if p < |c1| && IsNameChar(c1[p]) {
      NameMoves(c1, p + 1, c2, q + 1);
    }
  }

  lemma {:induction false} IntMoves(c1: string, p: nat, c2: string, q: nat)
    requires SameTail(c1, p, c2, q)
    ensures IntEnd(c2, q) == Moved(IntEnd(c1, p), p, q)
    decreases |c1| - p
  {
    TailChar(c1, p, c2, q);
    if p < |c1| && IsIntChar(c1[p]) {
      IntMoves(c1, p + 1, c2, q + 1);
    }
  }

  lemma {:induction false} QuoteMoves(c1: string, p: nat, c2: string, q: nat, quote: char)
    requires SameTail(c1, p, c2, q)
    ensures QuoteEnd(c2, q, quote) == Moved(QuoteEnd(c1, p, quote), p, q)
    decreases |c1| - p
  {
    TailChar(c1, p, c2, q);
    if p < |c1| && c1[p] != NUL && c1[p] != quote {
      TailChar(c1, p + 1, c2, q + 1);
      if c1[p] == '\\' && At(c1, p + 1) != NUL {
        QuoteMoves(c1, p + 2, c2, q + 2, quote);
      } else {
        QuoteMoves(c1, p + 1, c2, q + 1, quote);
      }
    }
  }

  /** The characters at a place and at its image. */
  lemma CharMoves(c1: string, p: nat, c2: string, q: nat, x: nat)
    requires SameTail(c1, p, c2, q) && p <= x
    ensures At(c1, x) == At(c2, Moved(x, p, q)) && (x < |c1| <==> Moved(x, p, q) < |c2|)
  {
    TailChar(c1, p, c2, q);
    if x <= |c1| {
      TailAhead(c1, p, c2, q, x);
      TailChar(c1, x, c2, Moved(x, p, q));
    }
  }

  lemma EndLineMoves(c1: string, p: nat, c2: string, q: nat)
    requires SameTail(c1, p, c2, q)
    ensures match EndLine(c1, p)
      case None => EndLine(c2, q) == None
      case Some(e) => EndLine(c2, q) == Some(Moved(e, p, q))
  {
    TailChar(c1, p, c2, q);
    if At(c1, p) == ';' {
      CommentMoves(c1, p + 1, c2, q + 1);
      CharMoves(c1, p + 1, c2, q + 1, SkipComment(c1, p + 1));
    }
  }

  // ---------- tokens ----------

  /** The same token, p - q characters apart, whatever its line. */
  predicate MovedToken(t: Token, u: Token, p: nat, q: nat) {
    t.kind == u.kind && p <= t.start <= t.end && u.start == Moved(t.start, p, q) && u.end == Moved(t.end, p, q)
  }

  predicate MovedTokens(s: seq<Token>, t: seq<Token>, p: nat, q: nat) {
    |s| == |t| && forall i :: 0 <= i < |s| ==> MovedToken(s[i], t[i], p, q)
  }

  predicate MovedScan(r: Scan, s: Scan, p: nat, q: nat) {
    match r
    case None => s == None
    case Some(v) => s.Some? && p <= v.1 && MovedTokens(v.0, s.value.0, p, q) && s.value.1 == Moved(v.1, p, q)
  }

  /** Seen from an earlier place. */
  lemma ScanFrom(r: Scan, s: Scan, x: nat, p: nat, q: nat)
    requires p <= x && MovedScan(r, s, x, Moved(x, p, q))
    ensures MovedScan(r, s, p, q)
  {
    if r.Some? {
      forall i | 0 <= i < |r.value.0|
        ensures MovedToken(r.value.0[i], s.value.0[i], p, q)
      {
        assert MovedToken(r.value.0[i], s.value.0[i], x, Moved(x, p, q));
      }
    }
  }

  lemma TokensJoin(a: seq<Token>, b: seq<Token>, c: seq<Token>, d: seq<Token>, p: nat, q: nat)
    requires MovedTokens(a, c, p, q) && MovedTokens(b, d, p, q)
    ensures MovedTokens(a + b, c + d, p, q)
  {
    forall i | 0 <= i < |a + b|
      ensures MovedToken((a + b)[i], (c + d)[i], p, q)
    {
      if i >= |a| {
        assert MovedToken(b[i - |a|], d[i - |a|], p, q);
      }
    }
  }

  lemma {:induction false} ArgMoves(c1: string, p: nat, l1: nat, c2: string, q: nat, l2: nat)
    requires SameTail(c1, p, c2, q)
    ensures MovedScan(ArgNext(c1, p, l1), ArgNext(c2, q, l2), p, q)
    decreases |c1| - p
  {
    TailChar(c1, p, c2, q);
    if p < |c1| {
      var c := c1[p];
      if PrefixKind(c).Some? {
        ArgMoves(c1, p + 1, l1, c2, q + 1, l2);
        var r, s := ArgNext(c1, p + 1, l1), ArgNext(c2, q + 1, l2);
        ScanFrom(r, s, p + 1, p, q);
        if r.Some? {
          var t, u := Token(PrefixKind(c).value, p, p + 1, l1), Token(PrefixKind(c).value, q, q + 1, l2);
          TokensJoin([t], r.value.0, [u], s.value.0, p, q);
        }
      } else if IsIntChar(c) {
        IntMoves(c1, p, c2, q);
      } else if c == '\'' || c == '"' {
        QuoteMoves(c1, p + 1, c2, q + 1, c);
        CharMoves(c1, p, c2, q, QuoteEnd(c1, p + 1, c));
      } else if IsNameStart(c) {
        NameMoves(c1, p, c2, q);
      }
    }
  }

  /** Tokens in front of those of a scan. */
  function Behind(tokens: seq<Token>, r: Scan): Scan {
    if r.None? then None else Some((tokens + r.value.0, r.value.1))
  }

  /** What a name that ends at x makes of the scan behind its label. */
  function Named(code: string, p: nat, x: nat, line: nat, rest: Scan): Scan {
    var c := At(code, x);
    if c == ':' then Behind([Token(Label, p, x, line)], rest)
    else if IsBlank(c) || c == '\n' || c == ';' then Some(([Token(Name, p, x, line)], x))
    else None
  }

  lemma HeadUnfolds(code: string, p: nat, line: nat, x: nat, z: nat)
    requires p < |code| && IsNameStart(code[p]) && x == NameEnd(code, p)
    requires At(code, x) == ':' ==> z == SkipSpace(code, x + 1)
    ensures Head(code, p, line) == Named(code, p, x, line, Head(code, z, line))
  {
  }

  lemma NamedMoves(c1: string, p: nat, x: nat, l1: nat, r: Scan, c2: string, q: nat, l2: nat, s: Scan)
    requires p <= x && At(c1, x) == At(c2, Moved(x, p, q))
    requires At(c1, x) == ':' ==> MovedScan(r, s, p, q)
    ensures MovedScan(Named(c1, p, x, l1, r), Named(c2, q, Moved(x, p, q), l2, s), p, q)
  {
    if At(c1, x) == ':' && r.Some? {
      TokensJoin([Token(Label, p, x, l1)], r.value.0, [Token(Label, q, Moved(x, p, q), l2)], s.value.0, p, q);
    }
  }

  /** The name at p, with what follows its label if it is one. */
  lemma {:induction false} NameThenMoves(c1: string, p: nat, x: nat, l1: nat, c2: string, q: nat,
                                         l2: nat) returns (z: nat)
    requires SameTail(c1, p, c2, q) && p < x && x == NameEnd(c1, p) && At(c1, x) == At(c2, Moved(x, p, q))
    ensures p <= z
         && MovedScan(Named(c1, p, x, l1, Head(c1, z, l1)), Named(c2, q, Moved(x, p, q), l2, Head(c2, Moved(z, p, q), l2)), p, q)
    ensures At(c1, x) == ':' ==> z == SkipSpace(c1, x + 1) && Moved(z, p, q) == SkipSpace(c2, Moved(x, p, q) + 1)
    decreases |c1| - p, 0
  {
    z := p;
    if At(c1, x) == ':' {
      z := SkipSpace(c1, x + 1);
      LabelEnd(c1, p, x, c2, q);
      HeadMoves(c1, z, l1, c2, Moved(z, p, q), l2);
      ScanFrom(Head(c1, z, l1), Head(c2, Moved(z, p, q), l2), z, p, q);
    }
    NamedMoves(c1, p, x, l1, Head(c1, z, l1), c2, q, l2, Head(c2, Moved(z, p, q), l2));
  }

  lemma {:induction false} HeadMoves(c1: string, p: nat, l1: nat, c2: string, q: nat, l2: nat)
    requires SameTail(c1, p, c2, q)
    ensures MovedScan(Head(c1, p, l1), Head(c2, q, l2), p, q)
    decreases |c1| - p, 1
  {
    TailChar(c1, p, c2, q);
    if p < |c1| && IsNameStart(c1[p]) {
      var x := NameEnd(c1, p);
      NameMoves(c1, p, c2, q);
      CharMoves(c1, p, c2, q, x);
      var z := NameThenMoves(c1, p, x, l1, c2, q, l2);
      HeadUnfolds(c1, p, l1, x, z);
      HeadUnfolds(c2, q, l2, Moved(x, p, q), Moved(z, p, q));
    }
  }

  /** The blanks behind a label. */
  lemma LabelEnd(c1: string, p: nat, x: nat, c2: string, q: nat)
    requires SameTail(c1, p, c2, q) && p <= x < |c1|
    ensures var z := SkipSpace(c1, x + 1);
      SkipSpace(c2, Moved(x, p, q) + 1) == Moved(z, p, q) && SameTail(c1, z, c2, Moved(z, p, q))
  {
    TailAhead(c1, p, c2, q, x + 1);
    SpaceMoves(c1, x + 1, c2, Moved(x + 1, p, q));
    TailAhead(c1, p, c2, q, SkipSpace(c1, x + 1));
  }

  /** What an argument makes of the scan behind its comma. */
  function Listed(code: string, a: Scan, rest: Scan): Scan {
    if a.None? then None
    else
      var f := EndLine(code, a.value.1);
      if f.Some? then Some((a.value.0, f.value))
      else if At(code, a.value.1) != ',' then None
      else Behind(a.value.0, rest)
  }

  /** The arguments behind the comma, if there is one. */
  function Rest(code: string, a: Scan, line: nat): Scan {
    if a.Some? && a.value.1 < |code| && At(code, a.value.1) == ',' then Args(code, a.value.1 + 1, line) else None
  }

  lemma ArgsUnfolds(code: string, p: nat, line: nat, x: nat)
    requires p <= |code| && x == SkipSpace(code, p) && EndLine(code, x).None?
    ensures var a := ArgNext(code, x, line);
      Args(code, p, line) == Listed(code, a, Rest(code, a, line))
  {
  }

  lemma ListedMoves(c1: string, p: nat, a: Scan, r: Scan, c2: string, q: nat, b: Scan, s: Scan)
    requires SameTail(c1, p, c2, q) && MovedScan(a, b, p, q) && MovedScan(r, s, p, q)
    requires a.Some? ==> a.value.1 <= |c1|
    ensures MovedScan(Listed(c1, a, r), Listed(c2, b, s), p, q)
  {
    if a.Some? {
      AfterArg(c1, p, a.value.1, c2, q);
      if r.Some? {
        TokensJoin(a.value.0, r.value.0, b.value.0, s.value.0, p, q);
      }
      ScanFrom(Some((a.value.0, a.value.1)), Some((b.value.0, b.value.1)), p, p, q);
    }
  }

  /** The arguments behind a comma at e. */
  lemma {:induction false} CommaMoves(c1: string, p: nat, e: nat, l1: nat, c2: string, q: nat, l2: nat)
    requires SameTail(c1, p, c2, q) && p <= e < |c1|
    ensures Moved(e, p, q) < |c2|
    ensures MovedScan(Args(c1, e + 1, l1), Args(c2, Moved(e, p, q) + 1, l2), p, q)
    decreases |c1| - p, 0
  {
    TailAhead(c1, p, c2, q, e + 1);
    ArgsMove(c1, e + 1, l1, c2, Moved(e + 1, p, q), l2);
    ScanFrom(Args(c1, e + 1, l1), Args(c2, Moved(e + 1, p, q), l2), e + 1, p, q);
  }

  /** Where a comma follows, the arguments behind it. */
  lemma {:induction false} RestMoves(c1: string, p: nat, a: Scan, l1: nat, c2: string, q: nat, b: Scan, l2: nat)
    requires SameTail(c1, p, c2, q) && (a.Some? ==> p <= a.value.1 <= |c1|)
    requires a.None? == b.None? && (a.Some? ==> b.value.1 == Moved(a.value.1, p, q))
    ensures MovedScan(Rest(c1, a, l1), Rest(c2, b, l2), p, q)
    decreases |c1| - p, 1
  {
    if a.Some? {
      var e, f := a.value.1, b.value.1;
      CharMoves(c1, p, c2, q, e);
      if e < |c1| && c1[e] == ',' {
        CommaMoves(c1, p, e, l1, c2, q, l2);
        SameScans(Rest(c1, a, l1), Rest(c2, b, l2), Args(c1, e + 1, l1), Args(c2, f + 1, l2), p, q);
      }
    }
  }

  lemma SameScans(r: Scan, s: Scan, r': Scan, s': Scan, p: nat, q: nat)
    requires r == r' && s == s' && MovedScan(r', s', p, q)
    ensures MovedScan(r, s, p, q)
  {
  }

  /** The first argument and its blanks. */
  lemma FirstMoves(c1: string, p: nat, l1: nat, c2: string, q: nat, l2: nat)
    requires SameTail(c1, p, c2, q)
    ensures var x := SkipSpace(c1, p);
      var y := Moved(x, p, q);
      && SkipSpace(c2, q) == y && EndLine(c1, x).None? == EndLine(c2, y).None?
      && MovedScan(ArgNext(c1, x, l1), ArgNext(c2, y, l2), p, q)
  {
    var x := SkipSpace(c1, p);
    SpaceMoves(c1, p, c2, q);
    TailAhead(c1, p, c2, q, x);
    EndLineMoves(c1, x, c2, Moved(x, p, q));
    ArgMoves(c1, x, l1, c2, Moved(x, p, q), l2);
    ScanFrom(ArgNext(c1, x, l1), ArgNext(c2, Moved(x, p, q), l2), x, p, q);
  }

  lemma NoArgsMove(c1: string, p: nat, l1: nat, c2: string, q: nat, l2: nat)
    requires SameTail(c1, p, c2, q) && EndLine(c1, SkipSpace(c1, p)).Some?
    ensures MovedScan(Args(c1, p, l1), Args(c2, q, l2), p, q)
  {
    var x := SkipSpace(c1, p);
    SpaceMoves(c1, p, c2, q);
    TailAhead(c1, p, c2, q, x);
    EndLineMoves(c1, x, c2, Moved(x, p, q));
  }

  lemma {:induction false} ArgsMove(c1: string, p: nat, l1: nat, c2: string, q: nat, l2: nat)
    requires SameTail(c1, p, c2, q)
    ensures MovedScan(Args(c1, p, l1), Args(c2, q, l2), p, q)
    decreases |c1| - p, 2
  {
    var x := SkipSpace(c1, p);
    if EndLine(c1, x).Some? {
      NoArgsMove(c1, p, l1, c2, q, l2);
    } else {
      FirstMoves(c1, p, l1, c2, q, l2);
      var y := Moved(x, p, q);
      var a, b := ArgNext(c1, x, l1), ArgNext(c2, y, l2);
      ArgsUnfolds(c1, p, l1, x);
      ArgsUnfolds(c2, q, l2, y);
      RestMoves(c1, p, a, l1, c2, q, b, l2);
      ListedMoves(c1, p, a, Rest(c1, a, l1), c2, q, b, Rest(c2, b, l2));
    }
  }

  /** What stands behind an argument. */
  lemma AfterArg(c1: string, p: nat, e: nat, c2: string, q: nat)
    requires SameTail(c1, p, c2, q) && p <= e <= |c1|
    ensures var f := Moved(e, p, q);
      && At(c1, e) == At(c2, f)
      && (At(c1, e) != NUL ==> e < |c1| && SameTail(c1, e + 1, c2, f + 1))
      && match EndLine(c1, e)
         case None => EndLine(c2, f) == None
         case Some(n) => EndLine(c2, f) == Some(Moved(n, p, q))
  {
    TailAhead(c1, p, c2, q, e);
    TailChar(c1, e, c2, Moved(e, p, q));
    EndLineMoves(c1, e, c2, Moved(e, p, q));
  }

  lemma LineMoves(c1: string, p: nat, l1: nat, c2: string, q: nat, l2: nat)
    requires SameTail(c1, p, c2, q)
    ensures MovedScan(LexLine(c1, p, l1), LexLine(c2, q, l2), p, q)
  {
    var x := SkipSpace(c1, p);
    var y := Moved(x, p, q);
    SpaceMoves(c1, p, c2, q);
    TailAhead(c1, p, c2, q, x);
    EndLineMoves(c1, x, c2, y);
    HeadMoves(c1, x, l1, c2, y, l2);
    var h, k := Head(c1, x, l1), Head(c2, y, l2);
    if EndLine(c1, x).None? && h.Some? {
      ScanFrom(h, k, x, p, q);
      var e := h.value.1;
      TailAhead(c1, p, c2, q, e);
      ArgsMove(c1, e, l1, c2, Moved(e, p, q), l2);
      var r, s := Args(c1, e, l1), Args(c2, Moved(e, p, q), l2);
      ScanFrom(r, s, e, p, q);
      if r.Some? {
        TokensJoin(h.value.0, r.value.0, k.value.0, s.value.0, p, q);
      }
    }
  }

  predicate MovedLines(s: Lines, t: Lines, p: nat, q: nat) {
    |s| == |t| && forall i :: 0 <= i < |s| ==> MovedTokens(s[i], t[i], p, q)
  }

  lemma LinesFrom(s: Lines, t: Lines, x: nat, p: nat, q: nat)
    requires p <= x && MovedLines(s, t, x, Moved(x, p, q))
    ensures MovedLines(s, t, p, q)
  {
    forall i | 0 <= i < |s|
      ensures MovedTokens(s[i], t[i], p, q)
    {
      assert MovedTokens(s[i], t[i], x, Moved(x, p, q));
      ScanFrom(Some((s[i], x)), Some((t[i], Moved(x, p, q))), x, p, q);
    }
  }

  lemma MoreLines(a: seq<Token>, b: seq<Token>, s: Lines, t: Lines, e: nat, p: nat, q: nat)
    requires p <= e && MovedTokens(a, b, p, q) && MovedLines(s, t, e, Moved(e, p, q))
    ensures MovedLines((if a == [] then [] else [a]) + s, (if b == [] then [] else [b]) + t, p, q)
  {
    LinesFrom(s, t, e, p, q);
  }

  /** A text at the end of two sources is accepted in both or in neither, with the same
      tokens, each as far on as the text is. */
  lemma {:induction false} LexMoves(c1: string, p: nat, l1: nat, c2: string, q: nat, l2: nat)
    requires SameTail(c1, p, c2, q)
    ensures var r, s := Lex(c1, p, l1), Lex(c2, q, l2);
      if r.None? then s.None? else s.Some? && MovedLines(r.value, s.value, p, q)
    decreases |c1| - p
  {
    TailChar(c1, p, c2, q);
    if At(c1, p) != NUL {
      LineMoves(c1, p, l1, c2, q, l2);
      var a, b := LexLine(c1, p, l1), LexLine(c2, q, l2);
      if a.Some? {
        var e, f := a.value.1, b.value.1;
        TailAhead(c1, p, c2, q, e);
        LexMoves(c1, e, l1 + 1, c2, f, l2 + 1);
        var r, s := Lex(c1, e, l1 + 1), Lex(c2, f, l2 + 1);
        if r.Some? {
          MoreLines(a.value.0, b.value.0, r.value, s.value, e, p, q);
        }
      }
    }
  }

  // ---------- what the parser reads ----------

  lemma TextMoves(c1: string, p: nat, c2: string, q: nat, t: Token, u: Token)
    requires SameTail(c1, p, c2, q) && MovedToken(t, u, p, q) && InSource(c1, t)
    ensures InSource(c2, u) && Text(c1, t) == Text(c2, u)
  {
    TailChar(c1, p, c2, q);
    TailAhead(c1, p, c2, q, t.start);
    var n := t.end - t.start;
    assert Text(c1, t) == c1[t.start..][..n] && Text(c2, u) == c2[u.start..][..n];
  }

  lemma {:induction false} WhiteMoves(c1: string, p: nat, c2: string, q: nat)
    requires SameTail(c1, p, c2, q)
    ensures SkipWhite(c2, q) == Moved(SkipWhite(c1, p), p, q)
    decreases |c1| - p
  {
    TailChar(c1, p, c2, q);
    if p < |c1| && IsSpace(c1[p]) {
      WhiteMoves(c1, p + 1, c2, q + 1);
    }
  }

  lemma {:induction false} DigitsMove(c1: string, p: nat, c2: string, q: nat)
    requires SameTail(c1, p, c2, q)
    ensures DigitsEnd(c2, q) == Moved(DigitsEnd(c1, p), p, q)
    decreases |c1| - p
  {
    TailChar(c1, p, c2, q);
    if p < |c1| && IsDigit(c1[p]) {
      DigitsMove(c1, p + 1, c2, q + 1);
    }
  }

  lemma NumberMoves(c1: string, p: nat, c2: string, q: nat)
    requires SameTail(c1, p, c2, q)
    ensures NumberAt(c1, p) == NumberAt(c2, q)
  {
    DigitsMove(c1, p, c2, q);
    var n := DigitsEnd(c1, p) - p;
    assert c1[p..p + n] == c1[p..][..n] && c2[q..q + n] == c2[q..][..n];
  }

  lemma ValueMoves(c1: string, p: nat, c2: string, q: nat)
    requires SameTail(c1, p, c2, q)
    ensures StrToUl(c1, p) == StrToUl(c2, q)
  {
    var x := SkipWhite(c1, p);
    var y := Moved(x, p, q);
    WhiteMoves(c1, p, c2, q);
    TailAhead(c1, p, c2, q, x);
    TailChar(c1, x, c2, y);
    NumberMoves(c1, x, c2, y);
    if x < |c1| {
      NumberMoves(c1, x + 1, c2, y + 1);
    }
  }

  lemma {:induction false} FindMoves(c1: string, p: nat, c2: string, q: nat, c: char)
    requires SameTail(c1, p, c2, q)
    ensures FindChar(c1, p, c).Some? ==> p <= FindChar(c1, p, c).value <= |c1|
    ensures match FindChar(c1, p, c)
      case None => FindChar(c2, q, c) == None
      case Some(e) => FindChar(c2, q, c) == Some(Moved(e, p, q))
    decreases |c1| - p
  {
    TailChar(c1, p, c2, q);
    FindCharAhead(c1, p, c);
    if p < |c1| && c1[p] != NUL && c1[p] != c {
      FindMoves(c1, p + 1, c2, q + 1, c);
    }
  }

  /** One line's tokens in the two sources. */
  predicate Twin(c1: string, p: nat, s: seq<Token>, c2: string, q: nat, t: seq<Token>) {
    SameTail(c1, p, c2, q) && MovedTokens(s, t, p, q) && AllIn(c1, s)
  }

  lemma TwinToken(c1: string, p: nat, s: seq<Token>, c2: string, q: nat, t: seq<Token>, i: nat)
    requires Twin(c1, p, s, c2, q, t) && i < |s|
    ensures InSource(c2, t[i]) && s[i].kind == t[i].kind && Text(c1, s[i]) == Text(c2, t[i])
    ensures StrToUl(c1, s[i].start) == StrToUl(c2, t[i].start)
  {
    assert MovedToken(s[i], t[i], p, q) && InSource(c1, s[i]);
    TextMoves(c1, p, c2, q, s[i], t[i]);
    TailAhead(c1, p, c2, q, s[i].start);
    ValueMoves(c1, s[i].start, c2, t[i].start);
  }

  /** The string that starts at a place and at its image. */
  lemma QuotedMoves(c1: string, x: nat, c2: string, y: nat)
    requires SameTail(c1, x, c2, y)
    ensures Quoted(c1, x) == Quoted(c2, y)
  {
    FindMoves(c1, x, c2, y, '"');
    TailChar(c1, x, c2, y);
    if FindChar(c1, x, '"').Some? {
      var n := FindChar(c1, x, '"').value - x;
      assert c1[x..x + n] == c1[x..][..n] && c2[y..y + n] == c2[y..][..n];
    }
  }

  lemma TwinsAreAlike(c1: string, p: nat, s: seq<Token>, c2: string, q: nat, t: seq<Token>)
    requires Twin(c1, p, s, c2, q, t) && AllIn(c2, t)
    ensures AllAlike(c1, s, c2, t)
  {
    forall i | 0 <= i < |s|
      ensures Alike(c1, s[i], c2, t[i])
    {
      TwinToken(c1, p, s, c2, q, t, i);
      assert MovedToken(s[i], t[i], p, q) && InSource(c1, s[i]);
      TailAhead(c1, p, c2, q, s[i].start + 1);
      QuotedMoves(c1, s[i].start + 1, c2, t[i].start + 1);
    }
  }

  lemma MovedUnlabelled(s: Lines, t: Lines, p: nat, q: nat)
    requires MovedLines(s, t, p, q) && AllUnlabelled(s)
    ensures AllUnlabelled(t)
  {
    forall i | 0 <= i < |t|
      ensures t[i] != [] && t[i][0].kind != Label
    {
      assert MovedTokens(s[i], t[i], p, q) && MovedToken(s[i][0], t[i][0], p, q);
    }
  }

  /** Unlabelled lines of the same text do the same to the assembler. */
  lemma SameParses(c1: string, p: nat, s: Lines, c2: string, q: nat, t: Lines, asm: Asm, m: nat, n: nat)
    requires SameTail(c1, p, c2, q) && MovedLines(s, t, p, q)
    requires Parseable(c1, s) && Parseable(c2, t) && AllUnlabelled(s)
    ensures ParseLines(c1, asm, s, m) == ParseLines(c2, asm, t, n)
  {
    forall i | 0 <= i < |s|
      ensures AllAlike(c1, s[i], c2, t[i])
    {
      TwinsAreAlike(c1, p, s[i], c2, q, t[i]);
    }
    AlikeParses(c1, s, c2, t, asm, m, n);
  }
}
