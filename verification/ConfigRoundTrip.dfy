/**
 Printing and parsing again (src/config_parser.cc:18-49 against 72-260): exactly which trees come back, for every
 tree, every depth, and every text after the printed one.
 */
module ConfigRoundTrip {
  import opened Options
  import opened ConfigLexer
  import opened Lexemes
  import opened ConfigTree
  import opened ConfigMachine
  import opened ConfigGrammar

  /** Stored between equal quotes, as the lexer stores a quoted token. */
  predicate InQuotes(v: string) {
    2 <= |v| && v[0] in {'\'', '"'} && v[|v| - 1] == v[0]
  }

  function Inner(v: string): string
    requires InQuotes(v)
  {
    v[1..|v| - 1]
  }

  /** A token whose stored text is one of its own spellings. */
  predicate Printable(v: string) {
    IsWord(v) || (InQuotes(v) && v[0] !in Inner(v) && '\\' !in Inner(v))
  }

  /** A token that the lexer can store at all. */
  predicate IsValue(v: string) {
    IsWord(v) || InQuotes(v)
  }

  predicate Every(ts: seq<Stmt>, p: string -> bool)
    decreases ts
  {
    ts == [] || (EveryIn(ts[0], p) && Every(ts[1..], p))
  }

  predicate EveryIn(t: Stmt, p: string -> bool)
    decreases t
  {
    (forall i :: 0 <= i < |t.tokens| ==> p(t.tokens[i])) && (t.Block? ==> Every(t.body, p))
  }

  function QuoteOf(v: string): (q: Quote)
    requires InQuotes(v)
    ensures v == Quoted(q, Inner(v))
  {
    if v[0] == '"' then Double else Single
  }

  // ---- One token ----

  lemma {:induction false} UnescapePlain(q: Quote, w: string)
    requires Mark(q) !in w && '\\' !in w
    ensures Unescape(q, w) == Some(w)
  {
    if w != "" {
      assert w[0] in w && w == [w[0]] + w[1..];
      UnescapePlain(q, w[1..]);
    }
  }

  lemma PrintableLexes(v: string, r: string)
    requires Printable(v) && StartsWithDelimiter(r)
    ensures Lex(v + r) == Lexeme(Normal, v, r)
  {
    if IsWord(v) {
      LexWord(v, r);
    } else {
      UnescapePlain(QuoteOf(v), Inner(v));
      LexQuoted(QuoteOf(v), Inner(v), r);
    }
  }

  predicate AllBackslash(s: string) {
    forall i :: 0 <= i < |s| ==> s[i] == '\\'
  }

  lemma Shifted(pad: string, e: string, w: string)
    requires pad != "" && w != "" && w <= pad + e
    ensures w[0] == pad[0] && w[1..] <= pad[1..] + e
  {
    assert (pad + e)[1..] == pad[1..] + e;
    assert w == (pad + e)[..|w|];
  }

  lemma Regroup(a: string, b: string, c: string)
    ensures a + (b + c) == (a + b) + c
  {
  }

  /** Text that resolves to one of its own shifted prefixes is made of backslashes. */
  lemma {:induction false} ShiftedResolution(q: Quote, pad: string, e: string, w: string)
    requires Unescape(q, e) == Some(w) && pad != "" && AllBackslash(pad) && w <= pad + e
    ensures AllBackslash(e)
    decreases |e|
  {
    if e != "" {
      Shifted(pad, e, w);
      var two := e[..2];
      assert e == two + e[2..] && AllBackslash(two);
      Regroup(pad[1..], two, e[2..]);
      assert AllBackslash(pad[1..] + two);
      ShiftedResolution(q, pad[1..] + two, e[2..], w[1..]);
    }
  }

  /** Text longer than what it resolves to, and starting with it, has no quote right after it. */
  lemma {:induction false} PrefixResolution(q: Quote, e: string, w: string)
    requires Unescape(q, e) == Some(w) && w <= e && |w| < |e|
    ensures e[|w|] != Mark(q)
    decreases |e|
  {
    if e[0] == '\\' {
      assert w[0] == e[0];
      var two := e[..2];
      assert e == two + e[2..] && AllBackslash(two);
      assert w[1..] <= e[1..] == two[1..] + e[2..];
      ShiftedResolution(q, two[1..], e[2..], w[1..]);
      assert AllBackslash(e);
    } else {
      PrefixResolution(q, e[1..], w[1..]);
    }
  }

  lemma NotItsOwnSpelling(q: Quote, e: string, x: string, w: string, y: string)
    requires Unescape(q, e) == Some(w)
    requires e + [Mark(q)] + x == w + [Mark(q)] + y
    ensures e == w && Mark(q) !in w && '\\' !in w
  {
    var m := [Mark(q)];
    assert w == (w + m + y)[..|w|] == (e + m + x)[..|w|] == e[..|w|];
    if |w| < |e| {
      assert (w + m + y)[|w|] == Mark(q);
      assert (e + m + x)[|w|] == e[|w|];
      PrefixResolution(q, e, w);
    }
  }

  lemma QuotedInjective(q: Quote, u: string, w: string)
    ensures Quoted(q, u) == Quoted(q, w) ==> u == w
  {
    assert u == Quoted(q, u)[1..|Quoted(q, u)| - 1];
    assert w == Quoted(q, w)[1..|Quoted(q, w)| - 1];
  }

  lemma QuotedText(q: Quote, w: string, r: string, e: string, t: string)
    requires w + [Mark(q)] + r == e + t
    ensures Quoted(q, w) + r == [Mark(q)] + e + t
  {
    var m := [Mark(q)];
    assert Quoted(q, w) + r == m + (w + m + r);
  }

  lemma UnprintableLexes(v: string, r: string)
    requires InQuotes(v) && !Printable(v)
    ensures var l := Lex(v + r); (l.kind == Normal && l.value != v) || l.kind == Eof || l.kind == Error
  {
    var q, w := QuoteOf(v), Inner(v);
    var m := [Mark(q)];
    var e, t := QuoteSplit(q, w + m + r);
    QuotedText(q, w, r, e, t);
    if t == "" || t == "\\" {
      LexUnclosed(q, e);
    } else {
      assert t == m + t[1..];
      ClosedElsewhere(q, e, t[1..], w, r);
    }
  }

  lemma ClosedElsewhere(q: Quote, e: string, x: string, w: string, r: string)
    requires Unescape(q, e).Some? && e + ([Mark(q)] + x) == w + [Mark(q)] + r
    requires Mark(q) in w || '\\' in w
    ensures var l := Lex([Mark(q)] + e + ([Mark(q)] + x));
            (l.kind == Normal && l.value != Quoted(q, w)) || l.kind == Error
  {
    var m := [Mark(q)];
    var u := Unescape(q, e).value;
    assert m + e + (m + x) == Quoted(q, e) + x;
    LexQuoted(q, e, x);
    if u == w {
      assert e + m + x == e + (m + x);
      NotItsOwnSpelling(q, e, x, w, r);
    }
    QuotedInjective(q, u, w);
  }

  // ---- The tokens of printed text ----

  lemma TokenizeBlanks(ws: string, s: string)
    requires AllBlank(ws)
    ensures Tokenize(ws + s) == Tokenize(s)
  {
    SkipBlanks(ws, s);
  }

  lemma TokenizeWord(v: string, r: string)
    requires Printable(v) && StartsWithDelimiter(r)
    ensures Tokenize(v + r) == Tokenize(r).Prepend([Token(Normal, v)])
  {
    PrintableLexes(v, r);
  }

  lemma TokenizePunctuation(t: Token, r: string)
    requires t in {OPEN, CLOSE, SEMICOLON}
    ensures Tokenize(t.value + r) == Tokenize(r).Prepend([t])
  {
    assert (t.value + r)[1..] == r;
  }

  lemma PrependTwice(x: Tokens, a: seq<Token>, b: seq<Token>)
    ensures x.Prepend(b).Prepend(a) == x.Prepend(a + b)
  {
    assert a + (b + x.toks) == a + b + x.toks;
  }

  lemma {:induction false} TokenizeSpaced(tokens: seq<string>, r: string)
    requires StartsWithDelimiter(r) && forall i :: 0 <= i < |tokens| ==> Printable(tokens[i])
    ensures StartsWithDelimiter(SpacedOut(tokens) + r)
    ensures Tokenize(SpacedOut(tokens) + r) == Tokenize(r).Prepend(Words(tokens))
    decreases |tokens|
  {
    if tokens == [] {
      assert SpacedOut(tokens) + r == r;
      assert [] + Tokenize(r).toks == Tokenize(r).toks;
    } else {
      var more := SpacedOut(tokens[1..]) + r;
      TokenizeSpaced(tokens[1..], r);
      assert SpacedOut(tokens) + r == " " + (tokens[0] + more);
      TokenizeBlanks(" ", tokens[0] + more);
      TokenizeWord(tokens[0], more);
      PrependTwice(Tokenize(r), [Token(Normal, tokens[0])], Words(tokens[1..]));
    }
  }

  lemma JoinSpaced(tokens: seq<string>, r: string)
    requires tokens != []
    ensures SpacedOut(tokens) + r == " " + (Join(tokens) + r)
  {
    var a, b := tokens[0], SpacedOut(tokens[1..]);
    assert " " + a + b + r == " " + (a + b + r);
  }

  lemma TokenizeJoin(tokens: seq<string>, r: string)
    requires StartsWithDelimiter(r) && forall i :: 0 <= i < |tokens| ==> Printable(tokens[i])
    ensures Tokenize(Join(tokens) + r) == Tokenize(r).Prepend(Words(tokens))
  {
    TokenizeSpaced(tokens, r);
    if tokens == [] {
      assert Join(tokens) + r == SpacedOut(tokens) + r;
    } else {
      JoinSpaced(tokens, r);
      TokenizeBlanks(" ", Join(tokens) + r);
    }
  }

  lemma {:induction false} IndentBlank(depth: int)
    ensures AllBlank(Indent(depth))
    decreases depth
  {
    if depth > 0 {
      IndentBlank(depth - 1);
    }
  }

  /** The text after a block's statements. */
  ghost function Closing(depth: int, r: string): string {
    Indent(depth) + ("}" + ("\n" + r))
  }

  lemma TokenizeClosing(depth: int, r: string)
    ensures Tokenize(Closing(depth, r)) == Tokenize(r).Prepend([CLOSE])
  {
    IndentBlank(depth);
    TokenizeBlanks(Indent(depth), "}" + ("\n" + r));
    TokenizePunctuation(CLOSE, "\n" + r);
    TokenizeBlanks("\n", r);
  }

  lemma TokenizeOpening(s: string)
    ensures Tokenize(" {\n" + s) == Tokenize(s).Prepend([OPEN])
  {
    assert " {\n" + s == " " + ("{" + ("\n" + s));
    TokenizeBlanks(" ", "{" + ("\n" + s));
    TokenizePunctuation(OPEN, "\n" + s);
    TokenizeBlanks("\n", s);
  }

  lemma TokenizeSemicolon(r: string)
    ensures Tokenize(";\n" + r) == Tokenize(r).Prepend([SEMICOLON])
  {
    assert ";\n" + r == ";" + ("\n" + r);
    TokenizePunctuation(SEMICOLON, "\n" + r);
    TokenizeBlanks("\n", r);
  }

  /** How a statement's text falls apart: blanks, its tokens, and the rest. */
  lemma StmtText(t: Stmt, depth: int, r: string)
    ensures PrintStmt(t, depth) + r == Indent(depth) + (Join(t.tokens) + (Ending(t, depth) + r))
    ensures StartsWithDelimiter(Ending(t, depth) + r)
  {
    Assoc3(Indent(depth), Join(t.tokens), Ending(t, depth), r);
    assert Ending(t, depth)[0] == (Ending(t, depth) + r)[0];
    var a, b, c := Indent(depth), Join(t.tokens), Ending(t, depth);
    assert a + b + c == a + (b + c);
  }

  lemma BlockText(t: Stmt, depth: int, r: string)
    requires t.Block?
    ensures Ending(t, depth) + r == " {\n" + (Print(t.body, depth + 1) + Closing(depth, r))
  {
    var o, p, i := " {\n", Print(t.body, depth + 1), Indent(depth);
    assert "}\n" + r == "}" + ("\n" + r);
    assert o + p + i + "}\n" + r == o + (p + (i + ("}\n" + r)));
  }

  lemma {:induction false} TokenizeStmt(t: Stmt, depth: int, r: string)
    requires EveryIn(t, Printable)
    ensures Tokenize(PrintStmt(t, depth) + r) == Tokenize(r).Prepend(YieldStmt(t))
    decreases t, 1
  {
    StmtText(t, depth, r);
    IndentBlank(depth);
    TokenizeBlanks(Indent(depth), Join(t.tokens) + (Ending(t, depth) + r));
    TokenizeJoin(t.tokens, Ending(t, depth) + r);
    TokenizeEnding(t, depth, r);
    PrependTwice(Tokenize(r), Words(t.tokens), if t.Simple? then [SEMICOLON] else [OPEN] + Yield(t.body) + [CLOSE]);
  }

  lemma {:induction false} TokenizeEnding(t: Stmt, depth: int, r: string)
    requires EveryIn(t, Printable)
    ensures Tokenize(Ending(t, depth) + r)
            == Tokenize(r).Prepend(if t.Simple? then [SEMICOLON] else [OPEN] + Yield(t.body) + [CLOSE])
    decreases t, 0
  {
    if t.Simple? {
      TokenizeSemicolon(r);
    } else {
      BlockText(t, depth, r);
      TokenizeOpening(Print(t.body, depth + 1) + Closing(depth, r));
      TokenizePrint(t.body, depth + 1, Closing(depth, r));
      TokenizeClosing(depth, r);
      PrependTwice(Tokenize(r), Yield(t.body), [CLOSE]);
      PrependTwice(Tokenize(r), [OPEN], Yield(t.body) + [CLOSE]);
      assert [OPEN] + (Yield(t.body) + [CLOSE]) == [OPEN] + Yield(t.body) + [CLOSE];
    }
  }

  /** Printed printable trees read as their own yield, at every depth and before any text. */
  lemma {:induction false} TokenizePrint(ts: seq<Stmt>, depth: int, r: string)
    requires Every(ts, Printable)
    ensures Tokenize(Print(ts, depth) + r) == Tokenize(r).Prepend(Yield(ts))
    decreases ts
  {
    if ts == [] {
      assert Print(ts, depth) + r == r;
      assert [] + Tokenize(r).toks == Tokenize(r).toks;
    } else {
      var more := Print(ts[1..], depth) + r;
      assert Print(ts, depth) + r == PrintStmt(ts[0], depth) + more;
      TokenizeStmt(ts[0], depth, more);
      TokenizePrint(ts[1..], depth, r);
      PrependTwice(Tokenize(r), YieldStmt(ts[0]), Yield(ts[1..]));
    }
  }

  // ---- Back: text that reads as the tree's yield has printable tokens only ----

  lemma TokenizeUnprintable(v: string, r: string)
    requires IsValue(v) && !Printable(v)
    ensures !([Token(Normal, v)] <= Tokenize(v + r).toks)
  {
    UnprintableLexes(v, r);
    var toks := Tokenize(v + r).toks;
    assert toks == [] || toks[0] != Token(Normal, v);
  }

  lemma PrefixTail<T>(a: seq<T>, b: seq<T>, c: seq<T>)
    requires a + b <= a + c
    ensures b <= c
  {
    assert b == (a + b)[|a|..] && c == (a + c)[|a|..];
  }

  lemma {:induction false} SpacedBack(tokens: seq<string>, r: string)
    requires StartsWithDelimiter(r) && forall i :: 0 <= i < |tokens| ==> IsValue(tokens[i])
    requires Words(tokens) <= Tokenize(SpacedOut(tokens) + r).toks
    ensures forall i :: 0 <= i < |tokens| ==> Printable(tokens[i])
    decreases |tokens|
  {
    if tokens != [] {
      var v, more := tokens[0], SpacedOut(tokens[1..]) + r;
      assert SpacedOut(tokens) + r == " " + (v + more);
      TokenizeBlanks(" ", v + more);
      assert [Token(Normal, v)] <= Words(tokens);
      if !Printable(v) {
        TokenizeUnprintable(v, more);
      } else {
        assert StartsWithDelimiter(more) by {
          if |tokens| == 1 { assert more == r; }
        }
        TokenizeWord(v, more);
        PrefixTail([Token(Normal, v)], Words(tokens[1..]), Tokenize(more).toks);
        SpacedBack(tokens[1..], r);
      }
    }
  }

  lemma JoinBack(tokens: seq<string>, r: string)
    requires StartsWithDelimiter(r) && forall i :: 0 <= i < |tokens| ==> IsValue(tokens[i])
    requires Words(tokens) <= Tokenize(Join(tokens) + r).toks
    ensures forall i :: 0 <= i < |tokens| ==> Printable(tokens[i])
  {
    if tokens != [] {
      JoinSpaced(tokens, r);
      TokenizeBlanks(" ", Join(tokens) + r);
      SpacedBack(tokens, r);
    }
  }

  lemma {:induction false} StmtBack(t: Stmt, depth: int, r: string)
    requires EveryIn(t, IsValue) && YieldStmt(t) <= Tokenize(PrintStmt(t, depth) + r).toks
    ensures EveryIn(t, Printable)
    decreases t
  {
    HeaderBack(t, depth, r);
    if t.Block? {
      BodyBack(t, depth, r);
      PrintBack(t.body, depth + 1, Closing(depth, r));
    }
  }

  lemma HeaderText(t: Stmt, depth: int, r: string)
    ensures Tokenize(PrintStmt(t, depth) + r) == Tokenize(Join(t.tokens) + (Ending(t, depth) + r))
  {
    StmtText(t, depth, r);
    IndentBlank(depth);
    TokenizeBlanks(Indent(depth), Join(t.tokens) + (Ending(t, depth) + r));
  }

  lemma PrefixPrefix<T>(a: seq<T>, b: seq<T>, c: seq<T>)
    requires a + b <= c
    ensures a <= c
  {
    assert a == (a + b)[..|a|];
  }

  lemma HeaderBack(t: Stmt, depth: int, r: string)
    requires forall i :: 0 <= i < |t.tokens| ==> IsValue(t.tokens[i])
    requires YieldStmt(t) <= Tokenize(PrintStmt(t, depth) + r).toks
    ensures forall i :: 0 <= i < |t.tokens| ==> Printable(t.tokens[i])
    ensures (if t.Simple? then [SEMICOLON] else [OPEN] + Yield(t.body) + [CLOSE]) <= Tokenize(Ending(t, depth) + r).toks
  {
    var rest := if t.Simple? then [SEMICOLON] else [OPEN] + Yield(t.body) + [CLOSE];
    var tail := Ending(t, depth) + r;
    HeaderText(t, depth, r);
    PrefixPrefix(Words(t.tokens), rest, Tokenize(Join(t.tokens) + tail).toks);
    JoinBack(t.tokens, tail);
    TokenizeJoin(t.tokens, tail);
    PrefixTail(Words(t.tokens), rest, Tokenize(tail).toks);
  }

  lemma BodyBack(t: Stmt, depth: int, r: string)
    requires t.Block? && [OPEN] + Yield(t.body) + [CLOSE] <= Tokenize(Ending(t, depth) + r).toks
    ensures Yield(t.body) <= Tokenize(Print(t.body, depth + 1) + Closing(depth, r)).toks
  {
    var inner := Print(t.body, depth + 1) + Closing(depth, r);
    BlockText(t, depth, r);
    TokenizeOpening(inner);
    assert [OPEN] + Yield(t.body) + [CLOSE] == [OPEN] + (Yield(t.body) + [CLOSE]);
    PrefixTail([OPEN], Yield(t.body) + [CLOSE], Tokenize(inner).toks);
    PrefixPrefix(Yield(t.body), [CLOSE], Tokenize(inner).toks);
  }

  lemma {:induction false} PrintBack(ts: seq<Stmt>, depth: int, r: string)
    requires Every(ts, IsValue) && Yield(ts) <= Tokenize(Print(ts, depth) + r).toks
    ensures Every(ts, Printable)
    decreases ts
  {
    if ts != [] {
      var more := Print(ts[1..], depth) + r;
      assert Print(ts, depth) + r == PrintStmt(ts[0], depth) + more;
      assert YieldStmt(ts[0]) <= Yield(ts);
      StmtBack(ts[0], depth, more);
      TokenizeStmt(ts[0], depth, more);
      PrefixTail(YieldStmt(ts[0]), Yield(ts[1..]), Tokenize(more).toks);
      PrintBack(ts[1..], depth, r);
    }
  }

  // ---- What the parser stores ----

  predicate AllStored(toks: seq<Token>, p: string -> bool) {
    forall i :: 0 <= i < |toks| && toks[i].kind == Normal ==> p(toks[i].value)
  }

  lemma {:induction false} WordsStored(tokens: seq<string>, p: string -> bool)
    requires AllStored(Words(tokens), p)
    ensures forall i :: 0 <= i < |tokens| ==> p(tokens[i])
  {
    if tokens != [] {
      assert Words(tokens)[0].kind == Normal;
      assert AllStored(Words(tokens)[1..], p);
      WordsStored(tokens[1..], p);
    }
  }

  lemma StoredParts(a: seq<Token>, b: seq<Token>, p: string -> bool)
    ensures AllStored(a + b, p) <==> AllStored(a, p) && AllStored(b, p)
  {
    if AllStored(a + b, p) {
      assert forall i :: 0 <= i < |a| ==> a[i] == (a + b)[i];
      assert forall i :: 0 <= i < |b| ==> b[i] == (a + b)[|a| + i];
    }
  }

  lemma {:induction false} YieldStored(ts: seq<Stmt>, p: string -> bool)
    requires AllStored(Yield(ts), p)
    ensures Every(ts, p)
    decreases ts
  {
    if ts != [] {
      StoredParts(YieldStmt(ts[0]), Yield(ts[1..]), p);
      StmtStored(ts[0], p);
      YieldStored(ts[1..], p);
    }
  }

  lemma {:induction false} StmtStored(t: Stmt, p: string -> bool)
    requires AllStored(YieldStmt(t), p)
    ensures EveryIn(t, p)
    decreases t
  {
    StoredParts(Words(t.tokens), if t.Simple? then [SEMICOLON] else [OPEN] + Yield(t.body) + [CLOSE], p);
    WordsStored(t.tokens, p);
    if t.Block? {
      StoredParts([OPEN] + Yield(t.body), [CLOSE], p);
      StoredParts([OPEN], Yield(t.body), p);
      YieldStored(t.body, p);
    }
  }

  lemma LexStores(s: string)
    requires Lex(s).kind == Normal
    ensures IsValue(Lex(s).value)
  {
    var ws, text := LexBack(s);
    var v := Lex(s).value;
    if !(IsWord(text) && v == text) {
      var q, e, w :| text == Quoted(q, e) && Unescape(q, e) == Some(w) && v == Quoted(q, w);
    }
  }

  lemma {:induction false} TokenizeStores(s: string)
    ensures AllStored(Tokenize(s).toks, IsValue)
    decreases |s|
  {
    var l := Lex(s);
    if l.kind != Eof && l.kind != Error {
      TokenizeStores(l.rest);
      if l.kind == Normal {
        LexStores(s);
      }
      StoredParts([Token(l.kind, l.value)], Tokenize(l.rest).toks, IsValue);
    }
  }

  // ---- The round trip ----

  /** A printed tree parses back to itself exactly when every statement has a token and every token is printable. */
  lemma RoundTripIff(ts: seq<Stmt>, depth: int)
    ensures ParseText(Print(ts, depth)) == Outcome(true, ts) <==> WellFormed(ts) && Every(ts, Printable)
  {
    GrammarIff(Print(ts, depth), ts);
    if Every(ts, Printable) {
      PrintedTokens(ts, depth);
    }
    if Tokenize(Print(ts, depth)).toks == Yield(ts) {
      PrintedBack(ts, depth);
    }
  }

  lemma PrintedTokens(ts: seq<Stmt>, depth: int)
    requires Every(ts, Printable)
    ensures Tokenize(Print(ts, depth)) == Tokens(Yield(ts), true)
  {
    TokenizePrint(ts, depth, "");
    assert Print(ts, depth) + "" == Print(ts, depth) && Yield(ts) + [] == Yield(ts);
    assert Tokenize("") == Tokens([], true);
  }

  lemma PrintedBack(ts: seq<Stmt>, depth: int)
    requires Tokenize(Print(ts, depth)).toks == Yield(ts)
    ensures Every(ts, Printable)
  {
    TokenizeStores(Print(ts, depth));
    YieldStored(ts, IsValue);
    assert Print(ts, depth) + "" == Print(ts, depth);
    PrintBack(ts, depth, "");
  }

  // ---- Canonical text ----

  /** No quoted token of the input is written with a backslash, so the lexer enters no escape state on stored text. */
  ghost predicate EscapeFree(s: string)
    decreases |s|
  {
    var l := Lex(s);
    && (l.kind == Normal && InQuotes(l.value) ==> '\\' !in s[..|s| - |l.rest|])
    && (IsToken(l.kind) ==> EscapeFree(l.rest))
  }

  lemma SpellingPrintable(text: string, v: string)
    requires Spells(text, v) && (InQuotes(v) ==> '\\' !in text)
    ensures Printable(v)
  {
    if !(IsWord(text) && v == text) {
      var q, e, w :| text == Quoted(q, e) && Unescape(q, e) == Some(w) && v == Quoted(q, w);
      assert '\\' in e ==> '\\' in text;
      assert Inner(v) == w;
    }
  }

  lemma ReadText(s: string, ws: string, text: string, rest: string)
    requires s == ws + text + rest
    ensures s[..|s| - |rest|] == ws + text
  {
  }

  lemma LexPrintable(s: string)
    requires Lex(s).kind == Normal && EscapeFree(s)
    ensures Printable(Lex(s).value)
  {
    var ws, text := LexBack(s);
    assert s == ws + s[|ws|..];
    ReadText(s, ws, text, Lex(s).rest);
    SpellingPrintable(text, Lex(s).value);
  }

  lemma {:induction false} TokenizePrintable(s: string)
    requires EscapeFree(s)
    ensures AllStored(Tokenize(s).toks, Printable)
    decreases |s|
  {
    var l := Lex(s);
    if l.kind != Eof && l.kind != Error {
      var ws, text := LexBack(s);
      TokenizePrintable(l.rest);
      if l.kind == Normal {
        LexPrintable(s);
      }
      StoredParts([Token(l.kind, l.value)], Tokenize(l.rest).toks, Printable);
    }
  }

  /** Printing what was parsed is canonical when the accepted input uses no escapes: it parses to the same tree,
      and printing that again gives the same text. */
  lemma Canonical(s: string, depth: int)
    requires ParseText(s).ok && EscapeFree(s)
    ensures var t := ParseText(s).tree;
            && ParseText(Print(t, depth)) == ParseText(s)
            && Print(ParseText(Print(t, depth)).tree, depth) == Print(t, depth)
  {
    var t := ParseText(s).tree;
    GrammarIff(s, t);
    TokenizePrintable(s);
    YieldStored(t, Printable);
    RoundTripIff(t, depth);
  }

  /** For any accepted input the printed tree parses to the same result exactly when all its tokens are printable. */
  lemma CanonicalIff(s: string, depth: int)
    requires ParseText(s).ok
    ensures ParseText(Print(ParseText(s).tree, depth)) == ParseText(s) <==> Every(ParseText(s).tree, Printable)
  {
    GrammarIff(s, ParseText(s).tree);
    RoundTripIff(ParseText(s).tree, depth);
  }

  lemma EscapedQuoteIsStored()
    ensures Tokenize("'a\\'b';") == Tokens([Token(Normal, Quoted(Single, "a'b")), SEMICOLON], true)
  {
    var w := "a'b";
    assert Escape(Single, w[2..]) == "b" by { assert Escape(Single, w[3..]) == ""; }
    assert Escape(Single, w[1..]) == "\\'b";
    assert "'a\\'b';" == Quoted(Single, Escape(Single, w)) + ";";
    EscapeComplete(Single, w, ";");
    assert ";" + "" == ";" && Tokenize("") == Tokens([], true);
    TokenizePunctuation(SEMICOLON, "");
  }

  /** The token 'a\'b' is stored as 'a'b', and that does not come back. */
  lemma EscapedQuoteIsLost()
    ensures var t := [Simple([Quoted(Single, "a'b")])];
            ParseText("'a\\'b';") == Outcome(true, t) && ParseText(Print(t, 0)) != Outcome(true, t)
  {
    var v := Quoted(Single, "a'b");
    var t := [Simple([v])];
    EscapedQuoteIsStored();
    assert Words([v]) == [Token(Normal, v)] && t[1..] == [];
    assert Yield(t) == [Token(Normal, v), SEMICOLON];
    assert WellFormedStmt(t[0]);
    GrammarIff("'a\\'b';", t);
    assert Inner(v) == "a'b" && v[0] == Inner(v)[1];
    assert !EveryIn(t[0], Printable) by { assert t[0].tokens[0] == v; }
    RoundTripIff(t, 0);
  }
}
