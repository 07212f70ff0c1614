/**
 The text after the last token (src/config_parser.cc:176-182): an accepted input may end in a bare word, a comment or an
 escape that is not finished, and this text is dropped.
 */
module ConfigTail {
  import opened Options
  import opened ConfigLexer
  import opened Lexemes
  import opened ConfigTree
  import opened ConfigMachine
  import opened ConfigGrammar
  import opened ConfigLayout

  /** What is left of the input when no token is left. */
  function TailOf(s: string): (t: string)
    ensures |t| <= |s|
    decreases |s|
  {
    var l := Lex(s);
    if IsToken(l.kind) then TailOf(l.rest) else s
  }

  function SkippedBlanks(s: string): string {
    if s != "" && IsBlank(s[0]) then SkippedBlanks(s[1..]) else s
  }

  /** Blanks, and then nothing or a comment. */
  predicate NothingLost(t: string) {
    var c := SkippedBlanks(t);
    c == "" || (c[0] == '#' && '\n' !in c && '\r' !in c)
  }

  lemma {:induction false} SkippedIs(ws: string, c: string)
    requires AllBlank(ws) && (c == "" || !IsBlank(c[0]))
    ensures SkippedBlanks(ws + c) == c
  {
    if ws == "" {
      assert ws + c == c;
    } else {
      assert (ws + c)[1..] == ws[1..] + c;
      SkippedIs(ws[1..], c);
    }
  }

  // ---- More text after the input ----

  lemma LexMore(s: string, more: string)
    requires IsToken(Lex(s).kind)
    ensures Lex(s + more) == Lexeme(Lex(s).kind, Lex(s).value, Lex(s).rest + more)
  {
    var l := Lex(s);
    var ws, text := LexBack(s);
    assert s == ws + s[|ws|..];
    assert s == ws + text + l.rest;
    assert s + more == ws + text + (l.rest + more);
    assert l.kind == Normal ==> StartsWithDelimiter(l.rest + more);
    LexReads(ws, text, l.rest + more, l.kind, l.value);
  }

  lemma PrependTwice(a: seq<Token>, b: seq<Token>, t: Tokens)
    ensures t.Prepend(b).Prepend(a) == t.Prepend(a + b)
  {
    assert a + (b + t.toks) == a + b + t.toks;
  }

  /** The tokens before the tail do not depend on what comes after it. */
  lemma {:induction false} TokenizeMore(s: string, more: string)
    ensures Tokenize(s + more) == Tokenize(TailOf(s) + more).Prepend(Tokenize(s).toks)
    ensures Tokenize(s).clean <==> Lex(TailOf(s)).kind == Eof
    decreases |s|
  {
    var l := Lex(s);
    if IsToken(l.kind) {
      LexMore(s, more);
      TokenizeMore(l.rest, more);
      PrependTwice([Token(l.kind, l.value)], Tokenize(l.rest).toks, Tokenize(TailOf(s) + more));
    } else {
      var _, _ := LexBack(s);
      assert [] + Tokenize(s + more).toks == Tokenize(s + more).toks;
    }
  }

  lemma RestIsSuffix(s: string) returns (text: string)
    requires IsToken(Lex(s).kind)
    ensures s == text + Lex(s).rest
  {
    var ws, word := LexBack(s);
    assert s == ws + s[|ws|..];
    text := ws + word;
  }

  lemma Joined(s: string, text: string, rest: string, head: string, t: string)
    requires s == text + rest && rest == head + t
    ensures s == text + head + t
  {
  }

  lemma BoundaryMore(text: string, head: string, t: string)
    requires var l := Lex(text + (head + t)); IsToken(l.kind) && l.rest == head + t
    requires Boundary(head, t)
    ensures Boundary(text + head, t)
  {
    assert text + head + t == text + (head + t);
    assert (text + head)[|text|..] == head;
  }

  lemma {:induction false} HeadAndTail(s: string) returns (head: string)
    ensures s == head + TailOf(s) && Boundary(head, TailOf(s))
    decreases |s|
  {
    var l := Lex(s);
    if IsToken(l.kind) {
      var text := RestIsSuffix(s);
      var rest := HeadAndTail(l.rest);
      BoundaryMore(text, rest, TailOf(s));
      Joined(s, text, l.rest, rest, TailOf(s));
      head := text + rest;
    } else {
      head := "";
      assert "" + s == s;
    }
  }

  /** An accepted input is whole tokens, blanks, and then nothing or an unfinished word, comment or escape. */
  lemma AcceptedTail(s: string) returns (head: string, ws: string, d: string)
    requires ParseText(s).ok
    ensures s == head + TailOf(s) && Boundary(head, TailOf(s))
    ensures TailOf(s) == ws + d && AllBlank(ws) && Dangles(d)
  {
    GrammarIff(s, ParseText(s).tree);
    TokenizeMore(s, "");
    head := HeadAndTail(s);
    EofIff(TailOf(s));
    ws, d :| AllBlank(ws) && Dangles(d) && TailOf(s) == ws + d;
  }

  // ---- A newline at the end ----

  lemma BlankTail(ws: string)
    requires AllBlank(ws)
    ensures Tokenize(ws + "\n") == Tokens([], true)
  {
    SkipBlanks(ws + "\n", "");
    assert ws + "\n" + "" == ws + "\n";
  }

  lemma WordTail(ws: string, w: string)
    requires AllBlank(ws) && IsWord(w)
    ensures Tokenize(ws + w + "\n") == Tokens([Token(Normal, w)], true)
  {
    LexReads(ws, w, "\n", Normal, w);
    BlankTail("");
    assert "" + "\n" == "\n";
  }

  lemma CommentTail(ws: string, c: string)
    requires AllBlank(ws) && c != "" && c[0] == '#' && '\n' !in c && '\r' !in c
    ensures Tokenize(ws + c + "\n") == Tokens([], true)
  {
    var text := c + "\n";
    assert text[|text| - 1] == '\n' && text[..|text| - 1] == c;
    LexReads(ws, text, "", Comment, c);
    assert ws + text + "" == ws + c + "\n";
    assert Lex("").kind == Eof;
  }

  lemma {:induction false} UnescapeMore(q: Quote, e: string)
    requires Unescape(q, e).Some?
    ensures Unescape(q, e + "\\\n").Some?
    decreases |e|
  {
    var more := e + "\\\n";
    if e == "" {
      assert more[2..] == "" && Unescape(q, "") == Some("");
    } else if e[0] == '\\' {
      assert more[2..] == e[2..] + "\\\n";
      UnescapeMore(q, e[2..]);
    } else {
      assert more[1..] == e[1..] + "\\\n";
      UnescapeMore(q, e[1..]);
    }
  }

  lemma EscapeTail(ws: string, q: Quote, e: string)
    requires AllBlank(ws) && Unescape(q, e).Some?
    ensures Tokenize(ws + ([Mark(q)] + e + "\\") + "\n") == Tokens([], false)
  {
    var more := e + "\\\n";
    UnescapeMore(q, e);
    LexUnclosed(q, more);
    assert ws + ([Mark(q)] + e + "\\") + "\n" == ws + ([Mark(q)] + more + "");
    SkipBlanks(ws, [Mark(q)] + more + "");
  }

  lemma {:induction false} YieldEnds(ts: seq<Stmt>)
    requires WellFormed(ts) && ts != []
    ensures var y := Yield(ts); y != [] && y[|y| - 1].kind in {StatementEnd, EndBlock}
    decreases |ts|
  {
    var y := YieldStmt(ts[0]);
    assert y[|y| - 1] == if ts[0].Simple? then SEMICOLON else CLOSE;
    if |ts| > 1 {
      YieldEnds(ts[1..]);
    } else {
      assert ts[1..] == [] && Yield(ts) == y;
    }
  }

  lemma WordRejected(s: string, w: string)
    requires ParseText(s).ok && Tokenize(s + "\n") == Tokens([Token(Normal, w)], true).Prepend(Tokenize(s).toks)
    ensures !ParseText(s + "\n").ok
  {
    if ParseText(s + "\n").ok {
      var t := ParseText(s + "\n").tree;
      GrammarIff(s + "\n", t);
      assert t != [];
      YieldEnds(t);
      assert false;
    }
  }

  lemma ErrorRejected(s: string)
    requires !Tokenize(s).clean
    ensures !ParseText(s).ok
  {
    GrammarIff(s, ParseText(s).tree);
  }

  /** What the last newline does to each kind of tail. */
  lemma TailMore(t: string)
    requires Lex(t).kind == Eof
    ensures NothingLost(t) ==> Tokenize(t + "\n") == Tokens([], true)
    ensures !NothingLost(t) ==>
              || !Tokenize(t + "\n").clean
              || exists w: string :: Tokenize(t + "\n") == Tokens([Token(Normal, w)], true)
  {
    EofIff(t);
    var ws: string, d: string :| AllBlank(ws) && Dangles(d) && t == ws + d;
    if d == "" {
      SkippedIs(ws, d);
      assert t == ws;
      BlankTail(ws);
    } else if IsWord(d) {
      SkippedIs(ws, d);
      WordTail(ws, d);
    } else if d[0] == '#' && '\n' !in d && '\r' !in d {
      SkippedIs(ws, d);
      CommentTail(ws, d);
    } else {
      var q, e: string :| d == [Mark(q)] + e + "\\" && Unescape(q, e).Some?;
      SkippedIs(ws, d);
      EscapeTail(ws, q, e);
    }
  }

  /** An accepted input loses no word and no escape at its end exactly when it is accepted with the same tree when a
      newline is put after it. One that loses text is then rejected. */
  lemma NothingLostIff(s: string)
    requires ParseText(s).ok
    ensures NothingLost(TailOf(s)) <==> ParseText(s + "\n") == ParseText(s)
    ensures !NothingLost(TailOf(s)) ==> !ParseText(s + "\n").ok
  {
    GrammarIff(s, ParseText(s).tree);
    TokenizeMore(s, "\n");
    TailMore(TailOf(s));
    if NothingLost(TailOf(s)) {
      assert Tokenize(s).toks + [] == Tokenize(s).toks;
    } else if Tokenize(TailOf(s) + "\n").clean {
      var w: string :| Tokenize(TailOf(s) + "\n") == Tokens([Token(Normal, w)], true);
      WordRejected(s, w);
    } else {
      ErrorRejected(s + "\n");
    }
  }

  lemma DroppedTokens()
    ensures Tokenize("a; b") == Tokens([Token(Normal, "a"), SEMICOLON], true) && TailOf("a; b") == " b"
  {
    assert "a; b" == "" + "a" + "; b" && "; b" == "" + ";" + " b" && " b" == " " + "b";
    LexReads("", "a", "; b", Normal, "a");
    LexReads("", ";", " b", StatementEnd, ";");
    LexDangles(" ", "b");
    assert Tokenize(" b") == Tokens([], true);
    assert Tokenize("; b") == Tokens([SEMICOLON], true);
  }

  /** `a; b` is accepted with one statement, and `b` is dropped. */
  lemma WordIsDropped()
    ensures ParseText("a; b") == Outcome(true, [Simple(["a"])]) && TailOf("a; b") == " b" && !NothingLost(" b")
  {
    var t := [Simple(["a"])];
    DroppedTokens();
    assert t[1..] == [] && Words(["a"]) == [Token(Normal, "a")];
    assert Yield(t) == [Token(Normal, "a"), SEMICOLON];
    assert WellFormedStmt(t[0]);
    GrammarIff("a; b", t);
    SkippedIs(" ", "b");
  }
}
