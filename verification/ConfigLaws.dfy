/** Trees, their printed form and their tokens, said without the functions that compute them. */
module ConfigLaws {
  import opened ConfigLexer
  import Lexemes
  import opened ConfigTree
  import opened ConfigLookup
  import opened ConfigRoundTrip

  // ---- Printing ----

  function Spaces(n: nat): string {
    seq(n, _ => ' ')
  }

  lemma {:induction false} IndentIs(depth: int)
    ensures Indent(depth) == Spaces(if depth < 0 then 0 else 2 * depth)
    decreases depth
  {
    if depth > 0 {
      IndentIs(depth - 1);
    }
  }

  lemma {:induction false} SpacedOutMore(tokens: seq<string>, t: string)
    ensures SpacedOut(tokens + [t]) == SpacedOut(tokens) + " " + t
  {
    if tokens == [] {
      assert (tokens + [t])[1..] == [] && (tokens + [t])[0] == t;
      assert " " + t + "" == "" + " " + t;
    } else {
      assert (tokens + [t])[1..] == tokens[1..] + [t];
      SpacedOutMore(tokens[1..], t);
      var a, b := " " + tokens[0], SpacedOut(tokens[1..]);
      assert a + (b + " " + t) == a + b + " " + t;
    }
  }

  /** Tokens are printed with one space between two. */
  lemma JoinLaws(tokens: seq<string>, t: string)
    ensures Join([]) == "" && Join([t]) == t
    ensures tokens != [] ==> Join(tokens + [t]) == Join(tokens) + " " + t
  {
    assert [t][1..] == [] && t + "" == t;
    if tokens != [] {
      assert (tokens + [t])[1..] == tokens[1..] + [t];
      SpacedOutMore(tokens[1..], t);
      assert tokens[0] + (SpacedOut(tokens[1..]) + " " + t) == tokens[0] + SpacedOut(tokens[1..]) + " " + t;
    }
  }

  lemma {:induction false} PrintAppend(a: seq<Stmt>, b: seq<Stmt>, depth: int)
    ensures Print(a + b, depth) == Print(a, depth) + Print(b, depth)
    decreases |a|
  {
    if a == [] {
      assert a + b == b && "" + Print(b, depth) == Print(b, depth);
    } else {
      assert (a + b)[1..] == a[1..] + b;
      PrintAppend(a[1..], b, depth);
      var x, y, z := PrintStmt(a[0], depth), Print(a[1..], depth), Print(b, depth);
      assert x + (y + z) == x + y + z;
    }
  }

  /** A statement is printed on its own lines, two spaces to the right for each level, with its tokens and a semicolon or a
      block in braces; a config is its statements one after the other. */
  lemma PrintLaws(tokens: seq<string>, body: seq<Stmt>, a: seq<Stmt>, b: seq<Stmt>, depth: int)
    ensures Print([], depth) == "" && Print(a + b, depth) == Print(a, depth) + Print(b, depth)
    ensures var margin := Spaces(if depth < 0 then 0 else 2 * depth);
            && Print([Simple(tokens)], depth) == margin + Join(tokens) + ";\n"
            && Print([Block(tokens, body)], depth)
               == margin + Join(tokens) + " {\n" + Print(body, depth + 1) + margin + "}\n"
  {
    PrintAppend(a, b, depth);
    IndentIs(depth);
    PrintOne(Simple(tokens), depth);
    PrintOne(Block(tokens, body), depth);
    Flat(Indent(depth), Join(tokens), Print(body, depth + 1));
  }

  lemma PrintOne(t: Stmt, depth: int)
    ensures Print([t], depth) == PrintStmt(t, depth)
  {
    assert [t][1..] == [] && PrintStmt(t, depth) + "" == PrintStmt(t, depth);
  }

  lemma Flat(m: string, j: string, p: string)
    ensures m + j + (" {\n" + p + m + "}\n") == m + j + " {\n" + p + m + "}\n"
  {
  }

  // ---- Tokens of a tree ----

  /** The grammar of statements: words, then a semicolon or a block in braces. */
  lemma YieldLaws(tokens: seq<string>, body: seq<Stmt>, a: seq<Stmt>, b: seq<Stmt>)
    ensures Yield([]) == [] && Yield(a + b) == Yield(a) + Yield(b)
    ensures Yield([Simple(tokens)]) == Words(tokens) + [Token(StatementEnd, ";")]
    ensures Yield([Block(tokens, body)]) == Words(tokens) + [Token(StartBlock, "{")] + Yield(body) + [Token(EndBlock, "}")]
    ensures |Words(tokens)| == |tokens| && forall i :: 0 <= i < |tokens| ==> Words(tokens)[i] == Token(Normal, tokens[i])
  {
    YieldAppend(a, b);
    assert [Simple(tokens)][1..] == [] && [Block(tokens, body)][1..] == [];
    var w, y := Words(tokens), Yield(body);
    assert w + ([OPEN] + y + [CLOSE]) + [] == w + [OPEN] + y + [CLOSE];
    assert w + [SEMICOLON] + [] == w + [SEMICOLON];
    WordsAre(tokens);
  }

  lemma {:induction false} WordsAre(tokens: seq<string>)
    ensures |Words(tokens)| == |tokens| && forall i :: 0 <= i < |tokens| ==> Words(tokens)[i] == Token(Normal, tokens[i])
  {
    if tokens != [] {
      WordsAre(tokens[1..]);
    }
  }

  // ---- All statements of a tree ----

  /** t is a statement of the tree, at any depth. */
  ghost predicate IsStatementAt(ts: seq<Stmt>, path: seq<nat>, i: nat, t: Stmt) {
    BlockAt(ts, path).Some? && i < |BlockAt(ts, path).value| && BlockAt(ts, path).value[i] == t
  }

  lemma StatementBelow(ts: seq<Stmt>, i: nat, path: seq<nat>, k: nat, t: Stmt)
    requires i < |ts| && ts[i].Block? && IsStatementAt(ts[i].body, path, k, t)
    ensures IsStatementAt(ts, [i] + path, k, t)
  {
    assert ([i] + path)[1..] == path;
  }

  lemma {:induction false} WellFormedEach(ts: seq<Stmt>)
    ensures WellFormed(ts) <==> forall i :: 0 <= i < |ts| ==> WellFormedStmt(ts[i])
    decreases |ts|
  {
    if ts != [] {
      WellFormedEach(ts[1..]);
      assert ts == [ts[0]] + ts[1..];
    }
  }

  lemma {:induction false} EveryEach(ts: seq<Stmt>, p: string -> bool)
    ensures Every(ts, p) <==> forall i :: 0 <= i < |ts| ==> EveryIn(ts[i], p)
    decreases |ts|
  {
    if ts != [] {
      EveryEach(ts[1..], p);
      assert ts == [ts[0]] + ts[1..];
    }
  }

  lemma {:induction false} StatementsHaveTokens(ts: seq<Stmt>, path: seq<nat>, i: nat, t: Stmt)
    requires WellFormed(ts) && IsStatementAt(ts, path, i, t)
    ensures t.tokens != []
    decreases |path|
  {
    WellFormedEach(ts);
    if path != [] {
      StatementsHaveTokens(ts[path[0]].body, path[1..], i, t);
    }
  }

  lemma {:induction false} StatementsHave(ts: seq<Stmt>, p: string -> bool, path: seq<nat>, i: nat, t: Stmt)
    requires Every(ts, p) && IsStatementAt(ts, path, i, t)
    ensures forall j :: 0 <= j < |t.tokens| ==> p(t.tokens[j])
    decreases |path|
  {
    EveryEach(ts, p);
    if path != [] {
      StatementsHave(ts[path[0]].body, p, path[1..], i, t);
    }
  }

  lemma {:induction false} HaveTokens(ts: seq<Stmt>)
    requires forall path: seq<nat>, i: nat, t :: IsStatementAt(ts, path, i, t) ==> t.tokens != []
    ensures WellFormed(ts)
    decreases ts
  {
    forall i | 0 <= i < |ts|
      ensures WellFormedStmt(ts[i])
    {
      assert IsStatementAt(ts, [], i, ts[i]);
      if ts[i].Block? {
        forall path: seq<nat>, k: nat, t | IsStatementAt(ts[i].body, path, k, t)
          ensures t.tokens != []
        {
          StatementBelow(ts, i, path, k, t);
        }
        HaveTokens(ts[i].body);
      }
    }
    WellFormedEach(ts);
  }

  lemma {:induction false} Have(ts: seq<Stmt>, p: string -> bool)
    requires forall path: seq<nat>, i: nat, t :: IsStatementAt(ts, path, i, t) ==> forall j :: 0 <= j < |t.tokens| ==> p(t.tokens[j])
    ensures Every(ts, p)
    decreases ts
  {
    forall i | 0 <= i < |ts|
      ensures EveryIn(ts[i], p)
    {
      assert IsStatementAt(ts, [], i, ts[i]);
      if ts[i].Block? {
        forall path: seq<nat>, k: nat, t | IsStatementAt(ts[i].body, path, k, t)
          ensures forall j :: 0 <= j < |t.tokens| ==> p(t.tokens[j])
        {
          StatementBelow(ts, i, path, k, t);
        }
        Have(ts[i].body, p);
      }
    }
    EveryEach(ts, p);
  }

  /** A tree is well formed exactly when all its statements, at any depth, have a token; blocks may be empty. */
  lemma WellFormedIff(ts: seq<Stmt>)
    ensures WellFormed(ts) <==> forall path: seq<nat>, i: nat, t :: IsStatementAt(ts, path, i, t) ==> t.tokens != []
  {
    if WellFormed(ts) {
      forall path: seq<nat>, i: nat, t | IsStatementAt(ts, path, i, t)
        ensures t.tokens != []
      {
        StatementsHaveTokens(ts, path, i, t);
      }
    }
    if forall path: seq<nat>, i: nat, t :: IsStatementAt(ts, path, i, t) ==> t.tokens != [] {
      HaveTokens(ts);
    }
  }

  lemma EveryIff(ts: seq<Stmt>, p: string -> bool)
    ensures Every(ts, p) <==>
              forall path: seq<nat>, i: nat, t :: IsStatementAt(ts, path, i, t) ==> forall j :: 0 <= j < |t.tokens| ==> p(t.tokens[j])
  {
    if Every(ts, p) {
      forall path: seq<nat>, i: nat, t | IsStatementAt(ts, path, i, t)
        ensures forall j :: 0 <= j < |t.tokens| ==> p(t.tokens[j])
      {
        StatementsHave(ts, p, path, i, t);
      }
    }
    if forall path: seq<nat>, i: nat, t :: IsStatementAt(ts, path, i, t) ==> forall j :: 0 <= j < |t.tokens| ==> p(t.tokens[j]) {
      Have(ts, p);
    }
  }

  // ---- Which tokens come back ----

  /** A token is printable exactly when it is a word or stands between equal quotes with neither that quote nor a backslash
      inside; `IsWord` is said with the characters. */
  lemma PrintableIff(v: string)
    ensures IsWord(v) <==>
              && v != "" && v[0] !in {' ', '\t', '\n', '\r', ';', '{', '}', '#', '"', '\''}
              && forall i :: 0 <= i < |v| ==> v[i] !in {' ', '\t', '\n', ';', '{', '}'}
    ensures Printable(v) <==>
              IsWord(v) || exists q: char, w: string :: IsQuotedBy(v, q, w) && q !in w && '\\' !in w
  {
    if Printable(v) && !IsWord(v) {
      assert v == [v[0]] + Inner(v) + [v[0]];
      assert IsQuotedBy(v, v[0], Inner(v));
    }
    forall q: char, w: string | IsQuotedBy(v, q, w) && q !in w && '\\' !in w
      ensures Printable(v)
    {
      assert Inner(v) == w;
    }
  }

  ghost predicate IsQuotedBy(v: string, q: char, w: string) {
    q in {'"', '\''} && v == [q] + w + [q]
  }

  /** Input without a backslash enters no escape state. */
  lemma {:induction false} NoBackslash(s: string)
    requires '\\' !in s
    ensures EscapeFree(s)
    decreases |s|
  {
    var l := Lex(s);
    if IsToken(l.kind) {
      var ws, text := Lexemes.LexBack(s);
      assert s == ws + s[|ws|..] == ws + text + l.rest;
      assert forall c :: c in l.rest ==> c in s;
      assert forall c :: c in s[..|s| - |l.rest|] ==> c in s;
      NoBackslash(l.rest);
    }
  }
}
