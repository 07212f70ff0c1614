/** The tokenizer character by character: which ones end a word, a quoted token, a comment and the blanks in front. */
module LexemeLaws {
  import opened Options
  import opened ConfigLexer
  import opened Lexemes
  import opened ConfigRoundTrip

  lemma NormalNeedsDelimiter(s: string)
    requires Lex(s).kind == Normal
    ensures Lex(s).rest != "" && Lex(s).rest[0] in {' ', '\t', '\n', ';', '{', '}'}
  {
    var ws, text := LexBack(s);
  }

  /** A word ends at a space, tab, newline, semicolon or brace, and at nothing else: not at a carriage return, a quote or a
      number sign. */
  lemma WordEndsIff(w: string, c: char, r: string)
    requires w != "" && w[0] !in {' ', '\t', '\n', '\r', ';', '{', '}', '#', '"', '\''}
    requires forall i :: 0 <= i < |w| ==> w[i] !in {' ', '\t', '\n', ';', '{', '}'}
    ensures Lex(w + ([c] + r)) == Lexeme(Normal, w, [c] + r) <==> c in {' ', '\t', '\n', ';', '{', '}'}
    ensures Lex(w).kind == Eof
  {
    assert w + "" == w;
    LexWord(w, "");
    if c in {' ', '\t', '\n', ';', '{', '}'} {
      LexWord(w, [c] + r);
    } else if Lex(w + ([c] + r)) == Lexeme(Normal, w, [c] + r) {
      NormalNeedsDelimiter(w + ([c] + r));
    }
  }

  /** The same characters may follow a closing quote; anything else there, and the end of the input, is an error. */
  lemma QuoteEndsIff(q: char, e: string, c: char, r: string)
    requires q in {'"', '\''} && q !in e && '\\' !in e
    ensures (Lex([q] + e + [q] + ([c] + r)) == Lexeme(Normal, [q] + e + [q], [c] + r))
            <==> c in {' ', '\t', '\n', ';', '{', '}'}
    ensures c !in {' ', '\t', '\n', ';', '{', '}'} ==> Lex([q] + e + [q] + ([c] + r)).kind == Error
    ensures Lex([q] + e + [q]).kind == Error
  {
    var k := if q == '"' then Double else Single;
    UnescapePlain(k, e);
    LexQuoted(k, e, [c] + r);
    LexQuoted(k, e, "");
    assert Quoted(k, e) + "" == [q] + e + [q];
  }

  /** In quotes a backslash stands for the character after it, whatever that is. */
  lemma EscapedCharacter(q: char, c: char)
    requires q in {'"', '\''}
    ensures Lex([q] + "\\" + [c] + [q] + ";") == Lexeme(Normal, [q] + [c] + [q], ";")
  {
    var k := if q == '"' then Double else Single;
    var e := "\\" + [c];
    assert e[2..] == "" && Unescape(k, "") == Some("");
    assert e[0] == '\\' && e[1] == c && [c] + "" == [c];
    assert Unescape(k, e) == Some([c]);
    LexQuoted(k, e, ";");
    assert Quoted(k, e) + ";" == [q] + "\\" + [c] + [q] + ";";
  }

  lemma {:induction false} EscapeAppend(q: Quote, v: string, w: string)
    ensures Escape(q, v + w) == Escape(q, v) + Escape(q, w)
    decreases |v|
  {
    if v == "" {
      assert v + w == w && "" + Escape(q, w) == Escape(q, w);
    } else {
      assert (v + w)[0] == v[0] && (v + w)[1..] == v[1..] + w;
      EscapeAppend(q, v[1..], w);
      var one := if v[0] == Mark(q) || v[0] == '\\' then ['\\', v[0]] else [v[0]];
      Grouped(one, Escape(q, v[1..]), Escape(q, w));
    }
  }

  lemma Grouped(a: string, b: string, c: string)
    ensures a + (b + c) == a + b + c
  {
  }

  /** Escaping puts a backslash before each such quote and each backslash, and changes nothing else. */
  lemma EscapeLaws(q: Quote, c: char, v: string, w: string)
    ensures Escape(q, "") == ""
    ensures Escape(q, [c]) == if c == '\\' || c == (if q.Single? then '\'' else '"') then "\\" + [c] else [c]
    ensures Escape(q, v + w) == Escape(q, v) + Escape(q, w)
  {
    assert [c][1..] == "" && Escape(q, "") == "";
    EscapeAppend(q, v, w);
  }

  /** Before a token a space, tab, newline or carriage return is skipped, and nothing else. */
  lemma BlankIff(c: char)
    ensures (forall r: string :: Lex([c] + r) == Lex(r)) <==> c in {' ', '\t', '\n', '\r'}
  {
    if c in {' ', '\t', '\n', '\r'} {
      forall r: string
        ensures Lex([c] + r) == Lex(r)
      {
        SkipBlanks([c], r);
      }
    } else {
      NotSkipped(c);
      assert Lex([c] + "") != Lex("");
    }
  }

  lemma NotSkipped(c: char)
    requires c !in {' ', '\t', '\n', '\r'}
    ensures Lex([c] + "") != Lex("")
  {
    var s := [c] + "";
    assert s[0] == c && s[1..] == "" && "" + [c] == [c];
    assert Lex("") == Lexeme(Eof, "", "");
    assert Scan(InNormal, [c], "") == Lexeme(Eof, [c], "") && Scan(InComment, "#", "") == Lexeme(Eof, "#", "");
    assert Scan(InQuote(Single), "'", "").kind == Error && Scan(InQuote(Double), "\"", "").kind == Error;
  }

  lemma Punctuations(r: string)
    ensures Lex("{" + r) == Lexeme(StartBlock, "{", r)
    ensures Lex("}" + r) == Lexeme(EndBlock, "}", r)
    ensures Lex(";" + r) == Lexeme(StatementEnd, ";", r)
  {
    assert ("{" + r)[1..] == r && ("}" + r)[1..] == r && (";" + r)[1..] == r;
  }

  /** A comment ends at a newline or carriage return. */
  lemma CommentEndsIff(t: string, c: char, r: string)
    requires '\n' !in t && '\r' !in t
    ensures Lex("#" + t + ([c] + r)) == Lexeme(Comment, "#" + t, r) <==> c in {'\n', '\r'}
    ensures Lex("#" + t).kind == Eof
  {
    LexComment(t, "");
    assert "#" + t + "" == "#" + t;
    LexComment(t, [c] + r);
    assert ([c] + r)[1..] == r;
    if Lex("#" + t + ([c] + r)) == Lexeme(Comment, "#" + t, r) {
      LongerComment("#" + t, c, r);
    }
  }

  lemma LongerComment(v: string, c: char, r: string)
    requires Lex(v + ([c] + r)) == Lexeme(Comment, v, r)
    ensures c in {'\n', '\r'}
  {
    var s := v + ([c] + r);
    var ws, text := LexBack(s);
    assert s == ws + s[|ws|..];
    EndOf(s, ws, text, r, v, c);
  }

  lemma EndOf(s: string, ws: string, text: string, r: string, v: string, c: char)
    requires s == ws + text + r == v + ([c] + r) && text != ""
    ensures text[|text| - 1] == c
  {
    assert s[|v|] == c;
    assert |ws + text| == |v| + 1;
    assert s[|v|] == (ws + text)[|v|] == text[|text| - 1];
  }
}
