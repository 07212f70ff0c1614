/** Which users and passwords a config text can name at all. */
module ConfigurableUsers {
  import opened Text
  import opened ConfigLexer
  import opened Lexemes
  import opened ConfigTree
  import opened ConfigMachine
  import opened ConfigGrammar
  import opened ConfigRoundTrip
  import opened ConfigCredentials
  import opened Session

  lemma {:induction false} BlockValues(ts: seq<Stmt>)
    requires Defined(ts) && Every(ts, IsValue)
    ensures Every(CredentialBlock(ts), IsValue)
    decreases ts
  {
    if ts != [] && !IsCredentials(ts[0]) {
      if ts[0].Block? {
        BlockValues(ts[0].body);
      } else {
        BlockValues(ts[1..]);
      }
    }
  }

  lemma {:induction false} EveryAt(ts: seq<Stmt>, p: string -> bool, i: nat)
    requires Every(ts, p) && i < |ts|
    ensures EveryIn(ts[i], p)
  {
    if i > 0 {
      EveryAt(ts[1..], p, i - 1);
    }
  }

  lemma ValueHasSpelling(v: string) returns (text: string)
    requires IsValue(v)
    ensures Spells(text, v)
  {
    text := v;
    if !IsWord(v) {
      var q, w := QuoteOf(v), Inner(v);
      EscapeResolves(q, w);
      text := Quoted(q, Escape(q, w));
    }
  }

  /** `credentials{` entry `;}` */
  function EntryText(text: string): string {
    "credentials" + ("{" + (text + (";" + "}")))
  }

  function EntryTree(v: string): seq<Stmt> {
    [Block(["credentials"], [Simple([v])])]
  }

  lemma TokenizeNext(s: string, kind: TokenType, v: string, r: string)
    requires Lex(s) == Lexeme(kind, v, r) && IsToken(kind) && kind != Comment
    ensures Tokenize(s) == Tokenize(r).Prepend([Token(kind, v)])
  {
  }

  lemma TokenizeSpelled(text: string, r: string, v: string)
    requires Spells(text, v) && StartsWithDelimiter(r)
    ensures Tokenize(text + r) == Tokenize(r).Prepend([Token(Normal, v)])
  {
    SpellingLexes(text, r, v);
    TokenizeNext(text + r, Normal, v, r);
  }

  lemma EndTokens()
    ensures Tokenize(";" + "}") == Tokens([SEMICOLON, CLOSE], true)
  {
    assert "}" + "" == "}" && Tokenize("") == Tokens([], true);
    TokenizePunctuation(CLOSE, "");
    TokenizePunctuation(SEMICOLON, "}");
  }

  lemma EntryTokens(text: string, v: string)
    requires Spells(text, v)
    ensures Tokenize(EntryText(text)) == Tokens([Token(Normal, "credentials"), OPEN, Token(Normal, v), SEMICOLON, CLOSE], true)
  {
    var end := text + (";" + "}");
    EndTokens();
    TokenizeSpelled(text, ";" + "}", v);
    TokenizePunctuation(OPEN, end);
    TokenizeSpelled("credentials", "{" + end, "credentials");
  }

  lemma EntryYield(v: string)
    ensures WellFormed(EntryTree(v))
    ensures Yield(EntryTree(v)) == [Token(Normal, "credentials"), OPEN, Token(Normal, v), SEMICOLON, CLOSE]
  {
    var inner := [Simple([v])];
    assert Words([v]) == [Token(Normal, v)] && Words(["credentials"]) == [Token(Normal, "credentials")];
    assert inner[1..] == [] && Yield(inner) == [Token(Normal, v), SEMICOLON];
    assert EntryTree(v)[1..] == [];
    assert WellFormedStmt(inner[0]) && WellFormedStmt(EntryTree(v)[0]);
  }

  lemma EntryCounts(u: string, p: string)
    requires ':' !in u
    ensures var ts := EntryTree(u + ":" + p); Defined(ts) && u in Credentials(ts) && Credentials(ts)[u] == p
  {
    var t := Simple([u + ":" + p]);
    var ts := EntryTree(u + ":" + p);
    assert CredentialBlock(ts) == [t];
    Around(u, p);
    var i := IndexOf(t.tokens[0], ':');
    FirstColon(t.tokens[0], i, |u|);
    assert LastEntry([t], 0, u) by { assert EntryAt([t], 0, u); }
    CredentialsIff(ts, u, p);
  }

  /** A config text that is accepted and gives u the password p. */
  ghost predicate Configures(s: string, u: string, p: string) {
    var o := ParseText(s);
    o.ok && Defined(o.tree) && u in Credentials(o.tree) && Credentials(o.tree)[u] == p
  }

  /** What a text can configure: u:p is a bare word, or u starts and p ends with the same quote. */
  lemma OnlyValues(s: string, u: string, p: string)
    requires Configures(s, u, p)
    ensures ':' !in u && IsValue(u + ":" + p)
  {
    var ts := ParseText(s).tree;
    GrammarIff(s, ts);
    TokenizeStores(s);
    YieldStored(ts, IsValue);
    BlockValues(ts);
    UsersHaveNoColon(ts, u);
    CredentialsIff(ts, u, p);
    var block := CredentialBlock(ts);
    var i :| LastEntry(block, i, u) && block[i].tokens[0] == u + ":" + p;
    assert EntryAt(block, i, u);
    EveryAt(block, IsValue, i);
  }

  /** Some text gives u the password p exactly when u has no colon and u:p is a bare word or stands between equal quotes,
      which then belong to user and password. So no password has a space unless the user name starts with a quote. */
  lemma ConfigurableIff(u: string, p: string)
    ensures (exists s: string :: Configures(s, u, p)) <==> ':' !in u && IsValue(u + ":" + p)
  {
    if ':' !in u && IsValue(u + ":" + p) {
      var text := ValueHasSpelling(u + ":" + p);
      EntryTokens(text, u + ":" + p);
      EntryYield(u + ":" + p);
      GrammarIff(EntryText(text), EntryTree(u + ":" + p));
      EntryCounts(u, p);
      assert Configures(EntryText(text), u, p);
    }
    forall s: string | Configures(s, u, p)
      ensures ':' !in u && IsValue(u + ":" + p)
    {
      OnlyValues(s, u, p);
    }
  }
}
