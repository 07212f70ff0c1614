/**
 The tokenizer against its declarative description: `ScanIff` for the tokens, `EofIff` for the inputs
 that are dropped at the end of the file. Every other input is the error token.
 */
module Lexemes {
  import opened Options
  import opened ConfigLexer

  // ---- From the description to the automaton ----

  lemma {:induction false} SkipBlanks(ws: string, s: string)
    requires AllBlank(ws)
    ensures Lex(ws + s) == Lex(s)
  {
    if ws == "" {
      assert ws + s == s;
    } else {
      assert IsBlank(ws[0]);
      assert (ws + s)[1..] == ws[1..] + s;
      SkipBlanks(ws[1..], s);
    }
  }

  lemma {:induction false} ScanWord(v: string, w: string, r: string)
    requires forall i :: 0 <= i < |w| ==> !IsDelimiter(w[i])
    ensures StartsWithDelimiter(r) ==> Scan(InNormal, v, w + r) == Lexeme(Normal, v + w, r)
    ensures r == "" ==> Scan(InNormal, v, w + r) == Lexeme(Eof, v + w, r)
    decreases |w|
  {
    if w == "" {
      assert w + r == r;
      assert v + w == v;
    } else {
      assert (w + r)[1..] == w[1..] + r;
      assert v + [w[0]] + w[1..] == v + w;
      ScanWord(v + [w[0]], w[1..], r);
    }
  }

  lemma Moved(v: string, c: char, w: string)
    ensures v + [c] + w == v + ([c] + w)
  {
  }

  lemma Dropped(e: string, r: string, n: nat)
    requires n <= |e|
    ensures (e + r)[n..] == e[n..] + r
  {
  }

  /** What the quote states do with text that resolves, up to whatever follows it. */
  lemma {:induction false} ScanQuoted(q: Quote, v: string, e: string, r: string)
    requires Unescape(q, e).Some?
    ensures Scan(InQuote(q), v, e + r) == Scan(InQuote(q), v + Unescape(q, e).value, r)
    decreases |e|
  {
    if e == "" {
      assert e + r == r;
      assert v + "" == v;
    } else if e[0] == '\\' {
      var w := Unescape(q, e[2..]).value;
      Dropped(e, r, 1);
      Dropped(e[1..], r, 1);
      assert e[1..][1..] == e[2..];
      Moved(v, e[1], w);
      ScanQuoted(q, v + [e[1]], e[2..], r);
    } else {
      var w := Unescape(q, e[1..]).value;
      Dropped(e, r, 1);
      Moved(v, e[0], w);
      ScanQuoted(q, v + [e[0]], e[1..], r);
    }
  }

  lemma {:induction false} ScanComment(v: string, t: string, r: string)
    requires '\n' !in t && '\r' !in t
    ensures Scan(InComment, v, t + r) == Scan(InComment, v + t, r)
    decreases |t|
  {
    if t == "" {
      assert t + r == r;
      assert v + t == v;
    } else {
      assert (t + r)[1..] == t[1..] + r;
      assert v + [t[0]] + t[1..] == v + t;
      ScanComment(v + [t[0]], t[1..], r);
    }
  }

  lemma LexWord(w: string, r: string)
    requires IsWord(w)
    ensures StartsWithDelimiter(r) ==> Lex(w + r) == Lexeme(Normal, w, r)
    ensures r == "" ==> Lex(w + r) == Lexeme(Eof, w, r)
  {
    assert !IsDelimiter(w[0]) && "" + [w[0]] == [w[0]];
    assert (w + r)[1..] == w[1..] + r;
    assert [w[0]] + w[1..] == w;
    ScanWord([w[0]], w[1..], r);
  }

  lemma OpenQuote(q: Quote, s: string)
    ensures Lex([Mark(q)] + s) == Scan(InQuote(q), [Mark(q)], s)
  {
    assert ([Mark(q)] + s)[1..] == s;
  }

  lemma LexQuoted(q: Quote, e: string, r: string)
    requires Unescape(q, e).Some?
    ensures StartsWithDelimiter(r) ==> Lex(Quoted(q, e) + r) == Lexeme(Normal, Quoted(q, Unescape(q, e).value), r)
    ensures !StartsWithDelimiter(r) ==> Lex(Quoted(q, e) + r).kind == Error
  {
    var m := [Mark(q)];
    assert Quoted(q, e) + r == m + (e + (m + r));
    OpenQuote(q, e + (m + r));
    ScanQuoted(q, m, e, m + r);
    assert (m + r)[1..] == r;
  }

  lemma LexUnclosed(q: Quote, e: string)
    requires Unescape(q, e).Some?
    ensures Lex([Mark(q)] + e + "").kind == Error
    ensures Lex([Mark(q)] + e + "\\").kind == Eof
  {
    var m := [Mark(q)];
    assert m + e + "" == m + (e + "");
    assert m + e + "\\" == m + (e + "\\");
    OpenQuote(q, e + "");
    OpenQuote(q, e + "\\");
    ScanQuoted(q, m, e, "");
    ScanQuoted(q, m, e, "\\");
  }

  lemma LexComment(t: string, r: string)
    requires '\n' !in t && '\r' !in t
    ensures Lex("#" + t + r) == Scan(InComment, "#" + t, r)
  {
    assert ("#" + t + r)[1..] == t + r;
    ScanComment("#", t, r);
  }

  lemma SpellingLexes(text: string, r: string, v: string)
    requires Spells(text, v) && StartsWithDelimiter(r)
    ensures Lex(text + r) == Lexeme(Normal, v, r)
  {
    if IsWord(text) && v == text {
      LexWord(text, r);
    } else {
      var q, e, w :| text == Quoted(q, e) && Unescape(q, e) == Some(w) && v == Quoted(q, w);
      LexQuoted(q, e, r);
    }
  }

  lemma CommentLexes(text: string, r: string, v: string)
    requires Reads(text, r, Comment, v)
    ensures Lex(text + r) == Lexeme(Comment, v, r)
  {
    var end := text[|text| - 1..];
    assert text + r == "#" + v[1..] + (end + r);
    LexComment(v[1..], end + r);
    assert "#" + v[1..] == v;
    assert (end + r)[1..] == r;
  }

  lemma LexReads(ws: string, text: string, r: string, kind: TokenType, v: string)
    requires AllBlank(ws) && Reads(text, r, kind, v)
    ensures Lex(ws + text + r) == Lexeme(kind, v, r)
  {
    assert ws + text + r == ws + (text + r);
    SkipBlanks(ws, text + r);
    match kind
    case Normal => SpellingLexes(text, r, v);
    case Comment => CommentLexes(text, r, v);
    case StartBlock => assert (text + r)[1..] == r;
    case EndBlock => assert (text + r)[1..] == r;
    case StatementEnd => assert (text + r)[1..] == r;
    case _ =>
  }

  // ---- From the automaton to the description ----

  lemma {:induction false} WordSplit(s: string) returns (w: string, r: string)
    ensures s == w + r && forall i :: 0 <= i < |w| ==> !IsDelimiter(w[i])
    ensures r == "" || StartsWithDelimiter(r)
  {
    if s == "" || IsDelimiter(s[0]) {
      w, r := "", s;
    } else {
      w, r := WordSplit(s[1..]);
      w := [s[0]] + w;
      assert s == [s[0]] + s[1..];
    }
  }

  lemma {:induction false} CommentSplit(s: string) returns (t: string, r: string)
    ensures s == t + r && '\n' !in t && '\r' !in t
    ensures r == "" || r[0] == '\n' || r[0] == '\r'
  {
    if s == "" || s[0] == '\n' || s[0] == '\r' {
      t, r := "", s;
    } else {
      t, r := CommentSplit(s[1..]);
      t := [s[0]] + t;
      assert s == [s[0]] + s[1..];
    }
  }

  /** Input after an opening quote resolves up to a closing quote, a lone backslash or the end. */
  lemma {:induction false} QuoteSplit(q: Quote, s: string) returns (e: string, r: string)
    ensures Unescape(q, e).Some? && s == e + r
    ensures r == "" || r == "\\" || r[0] == Mark(q)
    decreases |s|
  {
    if s == "" || s == "\\" || s[0] == Mark(q) {
      e, r := "", s;
    } else {
      var n := if s[0] == '\\' then 2 else 1;
      var e1;
      e1, r := QuoteSplit(q, s[n..]);
      e := s[..n] + e1;
      assert s == s[..n] + s[n..];
      assert e[n..] == e1;
    }
  }

  /** What is dropped when the input ends inside it. */
  ghost predicate Dangles(t: string) {
    || t == ""
    || IsWord(t)
    || (t[0] == '#' && '\n' !in t && '\r' !in t)
    || (exists q, e: string :: t == [Mark(q)] + e + "\\" && Unescape(q, e).Some?)
  }

  /** `text` accounts for all that was read: a token's text, or what was dropped at the end. */
  ghost predicate Accounts(s: string, text: string, l: Lexeme) {
    && (IsToken(l.kind) ==> s == text + l.rest && Reads(text, l.rest, l.kind, l.value))
    && (l.kind == Eof ==> s == text && Dangles(text))
    && (!IsToken(l.kind) ==> l.kind == Eof || l.kind == Error)
  }

  lemma CommentAccounts(s: string) returns (text: string)
    requires s != "" && s[0] == '#'
    ensures Accounts(s, text, Lex(s))
  {
    var t, r := CommentSplit(s[1..]);
    text := "#" + t + (if r == "" then "" else [r[0]]);
    assert s == "#" + t + r;
    LexComment(t, r);
    if r != "" {
      assert r == [r[0]] + r[1..];
      assert text[..|text| - 1] == "#" + t;
    }
  }

  lemma WordAccounts(s: string) returns (text: string)
    requires s != "" && !IsBlank(s[0]) && s[0] !in {'{', '}', ';', '#', '"', '\''}
    ensures Accounts(s, text, Lex(s))
  {
    var r;
    text, r := WordSplit(s);
    assert text != "" && text[0] == s[0];
    assert IsWord(text);
    LexWord(text, r);
  }

  lemma QuoteAccounts(q: Quote, s: string) returns (text: string)
    ensures Accounts([Mark(q)] + s, text, Lex([Mark(q)] + s))
  {
    var m := [Mark(q)];
    var e, r := QuoteSplit(q, s);
    text := m + s;
    if r == "" || r == "\\" {
      assert m + s == m + e + r;
      LexUnclosed(q, e);
    } else {
      var r1 := r[1..];
      assert m + s == Quoted(q, e) + r1;
      LexQuoted(q, e, r1);
      if StartsWithDelimiter(r1) {
        text := Quoted(q, e);
        assert Spells(text, Quoted(q, Unescape(q, e).value));
      }
    }
  }

  /** The blanks before the next token, and that token's text. */
  lemma {:induction false} LexBack(s: string) returns (ws: string, text: string)
    ensures AllBlank(ws)
    ensures Lex(s).kind != Error ==> ws <= s && Accounts(s[|ws|..], text, Lex(s))
    ensures IsToken(Lex(s).kind) || Lex(s).kind == Eof || Lex(s).kind == Error
    decreases |s|
  {
    ws, text := "", s;
    assert s[0..] == s;
    if s != "" {
      var c := s[0];
      if c == '#' {
        text := CommentAccounts(s);
      } else if c == '"' || c == '\'' {
        assert [Mark(if c == '"' then Double else Single)] + s[1..] == s;
        text := QuoteAccounts(if c == '"' then Double else Single, s[1..]);
      } else if c == '{' || c == '}' || c == ';' {
        text := [c];
        assert s == text + s[1..];
      } else if IsBlank(c) {
        var ws1;
        ws1, text := LexBack(s[1..]);
        ws := [c] + ws1;
        assert Lex(s).kind != Error ==> s[1..][|ws1|..] == s[|ws|..];
      } else {
        text := WordAccounts(s);
      }
    }
  }

  /** The tokenizer reads token (kind, v) and leaves r exactly when the input is blanks, a text of that token, and r. */
  lemma ScanIff(s: string, kind: TokenType, v: string, r: string)
    requires IsToken(kind)
    ensures Lex(s) == Lexeme(kind, v, r)
            <==> exists ws: string, text: string :: AllBlank(ws) && Reads(text, r, kind, v) && s == ws + text + r
  {
    if Lex(s) == Lexeme(kind, v, r) {
      var ws, text := LexBack(s);
      assert s == ws + s[|ws|..] && s == ws + text + r;
    }
    forall ws: string, text: string | AllBlank(ws) && Reads(text, r, kind, v) && s == ws + text + r
      ensures Lex(s) == Lexeme(kind, v, r)
    {
      LexReads(ws, text, r, kind, v);
    }
  }

  lemma LexDangles(ws: string, t: string)
    requires AllBlank(ws) && Dangles(t)
    ensures Lex(ws + t).kind == Eof
  {
    SkipBlanks(ws, t);
    if t == "" {
    } else if IsWord(t) {
      LexWord(t, "");
      assert t + "" == t;
    } else if t[0] == '#' && '\n' !in t && '\r' !in t {
      LexComment(t[1..], "");
      assert "#" + t[1..] + "" == t;
    } else {
      var q, e :| t == [Mark(q)] + e + "\\" && Unescape(q, e).Some?;
      LexUnclosed(q, e);
    }
  }

  /** End of input is reported exactly for blanks followed by an unfinished word, comment or escape. */
  lemma EofIff(s: string)
    ensures Lex(s).kind == Eof <==> exists ws: string, t: string :: AllBlank(ws) && Dangles(t) && s == ws + t
  {
    if Lex(s).kind == Eof {
      var ws, t := LexBack(s);
      assert s == ws + s[|ws|..];
    }
    forall ws: string, t: string | AllBlank(ws) && Dangles(t) && s == ws + t
      ensures Lex(s).kind == Eof
    {
      LexDangles(ws, t);
    }
  }

  // ---- Quoting any text ----

  /** A text between quotes with the quote and the backslash written after a backslash. */
  function Escape(q: Quote, w: string): string {
    if w == "" then ""
    else (if w[0] == Mark(q) || w[0] == '\\' then ['\\', w[0]] else [w[0]]) + Escape(q, w[1..])
  }

  lemma {:induction false} EscapeResolves(q: Quote, w: string)
    ensures Unescape(q, Escape(q, w)) == Some(w)
  {
    if w != "" {
      EscapeResolves(q, w[1..]);
      var e := Escape(q, w);
      assert w == [w[0]] + w[1..];
      if w[0] == Mark(q) || w[0] == '\\' {
        assert e[2..] == Escape(q, w[1..]);
      } else {
        assert e[1..] == Escape(q, w[1..]);
      }
    }
  }

  /** Every string can be written as one quoted token, and the delimiter after it stays unread. */
  lemma EscapeComplete(q: Quote, w: string, r: string)
    requires StartsWithDelimiter(r)
    ensures Lex(Quoted(q, Escape(q, w)) + r) == Lexeme(Normal, Quoted(q, w), r)
  {
    EscapeResolves(q, w);
    LexQuoted(q, Escape(q, w), r);
  }
}
