/**
 Blanks and comments between tokens change nothing: not the tokens, not the verdict, not the tree
 (src/config_parser.cc:72-182, 195-198).
 */
module ConfigLayout {
  import opened ConfigLexer
  import opened Lexemes
  import opened ConfigTree
  import opened ConfigMachine

  /** Any mix of blanks and comments that end in a line end. */
  predicate IsLayout(s: string, inComment: bool := false) {
    if s == "" then !inComment
    else if inComment then IsLayout(s[1..], s[0] != '\n' && s[0] != '\r')
    else if s[0] == '#' then IsLayout(s[1..], true)
    else IsBlank(s[0]) && IsLayout(s[1..])
  }

  /** A position of a + b where a token ended: a is read as whole tokens. */
  ghost predicate Boundary(a: string, b: string)
    decreases |a|
  {
    a == "" ||
    var l := Lex(a + b);
    IsToken(l.kind) && |b| <= |l.rest| && Boundary(a[|a + b| - |l.rest|..], b)
  }

  /** A comment that has started ends inside the layout, and more layout follows. */
  lemma {:induction false} CommentEnds(s: string) returns (t: string, more: string)
    requires IsLayout(s, true)
    ensures |more| < |s| && |s| == |t| + 1 + |more| && s == t + [s[|t|]] + more
    ensures '\n' !in t && '\r' !in t && s[|t|] in {'\n', '\r'} && IsLayout(more)
  {
    if s[0] == '\n' || s[0] == '\r' {
      t, more := "", s[1..];
      assert s == [s[0]] + s[1..];
    } else {
      t, more := CommentEnds(s[1..]);
      assert s == [s[0]] + s[1..];
      t := [s[0]] + t;
    }
  }

  lemma {:induction false} LayoutSkipped(layout: string, s: string)
    requires IsLayout(layout)
    ensures Tokenize(layout + s) == Tokenize(s)
    decreases |layout|
  {
    if layout == "" {
      assert layout + s == s;
    } else if layout[0] == '#' {
      var t, more := CommentEnds(layout[1..]);
      var end := [layout[1 + |t|]];
      assert layout == "#" + layout[1..];
      assert layout + s == "#" + t + (end + (more + s));
      LexComment(t, end + (more + s));
      assert (end + (more + s))[1..] == more + s;
      LayoutSkipped(more, s);
    } else {
      assert layout + s == layout[..1] + (layout[1..] + s);
      SkipBlanks(layout[..1], layout[1..] + s);
      LayoutSkipped(layout[1..], s);
    }
  }

  /** Where a text that has been read ends in a + b. */
  lemma Cut(a: string, b: string, text: string, rest: string, layout: string)
    requires a + b == text + rest && |b| <= |rest|
    ensures |text| == |a + b| - |rest| <= |a|
    ensures rest == a[|text|..] + b && a + layout + b == text + (a[|text|..] + layout + b)
  {
    var a' := a[|text|..];
    assert text + rest == a + b && |text| <= |a|;
    assert rest == (a + b)[|text|..] == a' + b;
    assert text == (text + rest)[..|text|] == (a + b)[..|text|] == a[..|text|];
    assert a == text + a';
    assert a + layout + b == text + (a' + layout + b);
  }

  /** What follows a token does not change it as long as a delimiter comes first. */
  lemma LexLocal(a: string, b: string, layout: string)
    requires IsToken(Lex(a + b).kind) && |b| <= |Lex(a + b).rest|
    requires StartsWithDelimiter(layout)
    ensures var l := Lex(a + b);
            Lex(a + layout + b) == Lexeme(l.kind, l.value, a[|a + b| - |l.rest|..] + layout + b)
  {
    var l := Lex(a + b);
    var ws, text := LexBack(a + b);
    assert a + b == ws + (a + b)[|ws|..];
    Cut(a, b, ws + text, l.rest, layout);
    var a' := a[|ws + text|..];
    assert StartsWithDelimiter(l.rest) ==> StartsWithDelimiter(a' + layout + b);
    LexReads(ws, text, a' + layout + b, l.kind, l.value);
  }

  /** Layout that starts with a space, tab or newline may be inserted wherever a token ended. */
  lemma {:induction false} LayoutInsensitive(a: string, layout: string, b: string)
    requires Boundary(a, b) && IsLayout(layout) && StartsWithDelimiter(layout)
    ensures Tokenize(a + layout + b) == Tokenize(a + b)
    decreases |a|
  {
    if a == "" {
      assert a + layout + b == layout + b && a + b == b;
      LayoutSkipped(layout, b);
    } else {
      var l := Lex(a + b);
      var a' := a[|a + b| - |l.rest|..];
      LexLocal(a, b, layout);
      LayoutInsensitive(a', layout, b);
      RestOf(a, b);
    }
  }

  lemma RestOf(a: string, b: string)
    requires IsToken(Lex(a + b).kind) && |b| <= |Lex(a + b).rest|
    ensures Lex(a + b).rest == a[|a + b| - |Lex(a + b).rest|..] + b
  {
    var ws, text := LexBack(a + b);
    assert a + b == ws + (a + b)[|ws|..];
    Cut(a, b, ws + text, Lex(a + b).rest, "");
  }

  /** Neither the verdict of `Parse` nor the tree it builds depends on the layout. */
  lemma ParseIgnoresLayout(before: seq<Stmt>, a: string, layout: string, b: string)
    requires Boundary(a, b) && IsLayout(layout) && StartsWithDelimiter(layout)
    ensures ParseOnto(before, a + layout + b) == ParseOnto(before, a + b)
  {
    LayoutInsensitive(a, layout, b);
  }

  // ---- Nothing else can be put in front of every text ----

  lemma {:induction false} CommentLayout(t: string, end: char, more: string)
    requires '\n' !in t && '\r' !in t && end in {'\n', '\r'}
    ensures IsLayout(t + [end] + more, true) <==> IsLayout(more)
  {
    var s := t + [end] + more;
    if t == "" {
      assert s[0] == end && s[1..] == more;
    } else {
      assert s[0] == t[0] && s[1..] == t[1..] + [end] + more;
      CommentLayout(t[1..], end, more);
    }
  }

  /** The text changes the tokens neither of an empty input nor of a semicolon. */
  ghost predicate IsSkipped(s: string) {
    Tokenize(s + ";") == Tokens([SEMICOLON], true) && Tokenize(s) == Tokens([], true)
  }

  lemma CommentSkipped(t: string, end: char, more: string)
    requires '\n' !in t && '\r' !in t && end in {'\n', '\r'} && IsSkipped("#" + t + ([end] + more))
    ensures IsSkipped(more)
  {
    LexComment(t, [end] + more);
    LexComment(t, [end] + more + ";");
    assert "#" + t + ([end] + more) + ";" == "#" + t + ([end] + more + ";");
    assert ([end] + more)[1..] == more && ([end] + more + ";")[1..] == more + ";";
  }

  lemma CommentOpen(t: string)
    requires '\n' !in t && '\r' !in t
    ensures !IsSkipped("#" + t)
  {
    LexComment(t + ";", "");
    assert "#" + (t + ";") + "" == "#" + t + ";";
  }

  lemma FirstToken(s: string)
    ensures var l := Lex(s);
            IsToken(l.kind) && l.kind != Comment ==> Tokenize(s).toks != [] && Tokenize(s).toks[0] == Token(l.kind, l.value)
    ensures !IsToken(Lex(s).kind) ==> Tokenize(s).toks == []
  {
    var _, _ := LexBack(s);
  }

  lemma NoBlanks(ws: string, s: string)
    requires AllBlank(ws) && ws <= s && s != "" && !IsBlank(s[0])
    ensures ws == ""
  {
  }

  lemma FirstOfMore(s: string)
    requires s != "" && !IsBlank(s[0]) && IsSkipped(s)
    ensures s[0] == '#'
  {
    var more := s + ";";
    var ws, text := LexBack(more);
    FirstToken(more);
    FirstToken(s);
    assert Lex(more).kind in {StatementEnd, Comment};
    NoBlanks(ws, more);
    assert more[|ws|..] == more;
    assert text[0] == s[0];
    assert s[0] == ';' ==> Lex(s).kind == StatementEnd;
  }

  lemma {:induction false} OnlyLayoutSkipped(s: string)
    requires IsSkipped(s)
    ensures IsLayout(s)
    decreases |s|
  {
    if s != "" && IsBlank(s[0]) {
      SkipBlanks([s[0]], s[1..]);
      SkipBlanks([s[0]], s[1..] + ";");
      assert s == [s[0]] + s[1..] && s + ";" == [s[0]] + (s[1..] + ";");
      OnlyLayoutSkipped(s[1..]);
    } else if s != "" {
      FirstOfMore(s);
      var t, r := CommentSplit(s[1..]);
      assert s == "#" + t + r;
      if r == "" {
        assert s == "#" + t;
        CommentOpen(t);
      } else {
        assert r == [r[0]] + r[1..];
        CommentSkipped(t, r[0], r[1..]);
        OnlyLayoutSkipped(r[1..]);
        CommentLayout(t, r[0], r[1..]);
        assert s[1..] == t + [r[0]] + r[1..];
      }
    }
  }

  /** Exactly layout can be put in front of every text without a change of its tokens. */
  lemma LayoutIff(layout: string)
    ensures IsLayout(layout) <==> forall s: string :: Tokenize(layout + s) == Tokenize(s)
  {
    if IsLayout(layout) {
      forall s: string
        ensures Tokenize(layout + s) == Tokenize(s)
      {
        LayoutSkipped(layout, s);
      }
    }
    if forall s: string :: Tokenize(layout + s) == Tokenize(s) {
      assert Tokenize(layout + ";") == Tokenize(";") && Tokenize(layout + "") == Tokenize("");
      assert layout + "" == layout && ";"[1..] == "";
      assert Tokenize("") == Tokens([], true) && Tokenize(";") == Tokens([SEMICOLON], true);
      OnlyLayoutSkipped(layout);
    }
  }
}
