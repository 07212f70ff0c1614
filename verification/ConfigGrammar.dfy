/**
 The stack machine recognises exactly the grammar: an accepted tree is the derivation of the tokens
 (soundness), every derivation is found (completeness), and there is at most one.
 */
module ConfigGrammar {
  import opened Options
  import opened ConfigLexer
  import opened ConfigTree
  import opened ConfigMachine

  // ---- Soundness: the zipper stands for the tokens consumed so far ----

  ghost function BelowYield(below: Stack): seq<Token> {
    if below.Bottom? then []
    else BelowYield(below.below) + (Yield(below.done) + (Words(below.header) + [OPEN]))
  }

  ghost predicate BelowWellFormed(below: Stack) {
    below.Open? ==> BelowWellFormed(below.below) && WellFormed(below.done) && below.header != []
  }

  ghost function Consumed(z: Zipper): seq<Token> {
    BelowYield(z.below) + (Yield(z.top) + Words(z.header))
  }

  ghost predicate ZipperWellFormed(z: Zipper) {
    BelowWellFormed(z.below) && WellFormed(z.top)
  }

  predicate ProperToken(t: Token) {
    && (t.kind == StartBlock ==> t == OPEN)
    && (t.kind == EndBlock ==> t == CLOSE)
    && (t.kind == StatementEnd ==> t == SEMICOLON)
  }

  predicate Proper(toks: seq<Token>) {
    forall i :: 0 <= i < |toks| ==> ProperToken(toks[i])
  }

  lemma Assoc3<T>(a: seq<T>, b: seq<T>, c: seq<T>, d: seq<T>)
    ensures a + (b + c) + d == a + (b + (c + d))
  {
  }

  lemma StepClose(z: Zipper, last: TokenType)
    requires Consistent(z, last) && ZipperWellFormed(z)
    requires Step(z, last, CLOSE).Some?
    ensures var z' := Step(z, last, CLOSE).value;
            ZipperWellFormed(z') && Consumed(z') == Consumed(z) + [CLOSE]
  {
    var f, t := z.below, Block(z.below.header, z.top);
    YieldSnoc(f.done, t);
    Regroup(BelowYield(f.below), Yield(f.done), Words(f.header), [OPEN], Yield(z.top), [CLOSE]);
    NoWords(Yield(z.top));
    NoWords(Yield(f.done) + YieldStmt(t));
  }

  lemma NoWords(y: seq<Token>)
    ensures y + Words([]) == y
  {
  }

  lemma Regroup<T>(a: seq<T>, y: seq<T>, w: seq<T>, o: seq<T>, b: seq<T>, c: seq<T>)
    ensures (a + (y + (w + o))) + b + c == a + (y + (w + (o + b + c)))
  {
    var u := a + y;
    assert (a + (y + (w + o))) + b + c == u + w + o + b + c;
    assert a + (y + (w + (o + b + c))) == u + w + o + b + c;
  }

  lemma StepSound(z: Zipper, last: TokenType, tok: Token)
    requires Consistent(z, last) && ZipperWellFormed(z) && ProperToken(tok)
    requires Step(z, last, tok).Some?
    ensures var z' := Step(z, last, tok).value;
            ZipperWellFormed(z') && Consumed(z') == Consumed(z) + [tok]
  {
    var a, y, w := BelowYield(z.below), Yield(z.top), Words(z.header);
    Assoc3(a, y, w, [tok]);
    match tok.kind
    case Normal =>
      WordsAppend(z.header, [tok.value]);
      assert Words([tok.value]) == [tok];
    case StatementEnd =>
      YieldSnoc(z.top, Simple(z.header));
      assert y + (w + [tok]) + [] == y + (w + [tok]);
    case StartBlock =>
      assert a + (y + (w + [tok])) + ([] + []) == a + (y + (w + [tok]));
    case EndBlock => StepClose(z, last);
    case _ =>
  }

  lemma Uncons<T>(a: seq<T>, b: seq<T>)
    requires b != []
    ensures a + b == a + [b[0]] + b[1..]
  {
  }

  lemma {:induction false} RunSound(z: Zipper, last: TokenType, input: Tokens)
    requires Consistent(z, last) && ZipperWellFormed(z) && Proper(input.toks)
    requires Run(z, last, input).ok
    ensures input.clean
    ensures var t := Run(z, last, input).tree; WellFormed(t) && Yield(t) == Consumed(z) + input.toks
    decreases |input.toks|
  {
    if input.toks != [] {
      var tok, rest := input.toks[0], input.toks[1..];
      StepSound(z, last, tok);
      assert Proper(rest);
      RunSound(Step(z, last, tok).value, tok.kind, Tokens(rest, input.clean));
      Uncons(Consumed(z), input.toks);
    } else {
      NoWords(Yield(z.top));
      assert [] + Yield(z.top) == Yield(z.top);
      assert Consumed(z) + [] == Consumed(z);
    }
  }

  // ---- Completeness: the yield of a tree rebuilds it on top of any zipper ----

  function EndKind(t: Stmt): TokenType {
    if t.Simple? then StatementEnd else EndBlock
  }

  ghost function LastKind(ts: seq<Stmt>, last: TokenType): (r: TokenType)
    ensures ts != [] ==> r == StatementEnd || r == EndBlock
  {
    if ts == [] then last else LastKind(ts[1..], EndKind(ts[0]))
  }

  predicate BetweenStatements(last: TokenType) {
    last in {TokenType.Start, StatementEnd, StartBlock, EndBlock}
  }

  datatype Config = Config(z: Zipper, last: TokenType)

  /** The machine over tokens that all lead somewhere. */
  ghost function Steps(c: Config, toks: seq<Token>): Option<Config>
    requires Consistent(c.z, c.last)
    decreases |toks|
  {
    if toks == [] then Some(c)
    else
      var z' := Step(c.z, c.last, toks[0]);
      if z'.None? then None else Steps(Config(z'.value, toks[0].kind), toks[1..])
  }

  ghost predicate Leads(c: Config, toks: seq<Token>, d: Config) {
    Consistent(c.z, c.last) && Consistent(d.z, d.last) && Steps(c, toks) == Some(d)
  }

  lemma {:induction false} LeadsOn(c: Config, a: seq<Token>, d: Config, b: seq<Token>, e: Config)
    requires Leads(c, a, d) && Leads(d, b, e)
    ensures Leads(c, a + b, e)
    decreases |a|
  {
    if a == [] {
      assert a + b == b;
    } else {
      var c1 := Config(Step(c.z, c.last, a[0]).value, a[0].kind);
      assert (a + b)[1..] == a[1..] + b;
      LeadsOn(c1, a[1..], d, b, e);
    }
  }

  lemma {:induction false} LeadsToRun(c: Config, toks: seq<Token>, d: Config, clean: bool)
    requires Leads(c, toks, d)
    ensures Run(c.z, c.last, Tokens(toks, clean)) == Run(d.z, d.last, Tokens([], clean))
    decreases |toks|
  {
    if toks != [] {
      LeadsToRun(Config(Step(c.z, c.last, toks[0]).value, toks[0].kind), toks[1..], d, clean);
    }
  }

  lemma {:induction false} WordsLead(z: Zipper, last: TokenType, words: seq<string>)
    requires Consistent(z, last) && words != []
    ensures Leads(Config(z, last), Words(words), Config(z.(header := z.header + words), Normal))
    decreases |words|
  {
    var z1 := z.(header := z.header + [words[0]]);
    assert words == [words[0]] + words[1..];
    assert Words(words)[1..] == Words(words[1..]);
    if |words| == 1 {
      assert words == [words[0]];
    } else {
      WordsLead(z1, Normal, words[1..]);
      assert z1.header + words[1..] == z.header + words;
    }
  }

  lemma OneLeads(c: Config, tok: Token)
    requires Consistent(c.z, c.last) && Step(c.z, c.last, tok).Some?
    ensures Leads(c, [tok], Config(Step(c.z, c.last, tok).value, tok.kind))
  {
    assert [tok][1..] == [];
  }

  lemma {:induction false} StmtLeads(z: Zipper, last: TokenType, t: Stmt)
    requires BetweenStatements(last) && z.header == [] && WellFormedStmt(t)
    ensures Leads(Config(z, last), YieldStmt(t), Config(z.(top := z.top + [t]), EndKind(t)))
    decreases t
  {
    var c, c1, d := Config(z, last), Config(z.(header := t.tokens), Normal), Config(z.(top := z.top + [t]), EndKind(t));
    WordsLead(z, last, t.tokens);
    assert [] + t.tokens == t.tokens;
    if t.Simple? {
      OneLeads(c1, SEMICOLON);
      LeadsOn(c, Words(t.tokens), c1, [SEMICOLON], d);
    } else {
      var z2 := Zipper(Open(z.below, z.top, t.tokens), [], []);
      OneLeads(c1, OPEN);
      YieldLeads(z2, StartBlock, t.body);
      assert [] + t.body == t.body;
      var c2, c3 := Config(z2, StartBlock), Config(z2.(top := t.body), LastKind(t.body, StartBlock));
      OneLeads(c3, CLOSE);
      LeadsOn(c1, [OPEN], c2, Yield(t.body), c3);
      LeadsOn(c1, [OPEN] + Yield(t.body), c3, [CLOSE], d);
      LeadsOn(c, Words(t.tokens), c1, [OPEN] + Yield(t.body) + [CLOSE], d);
    }
  }

  lemma {:induction false} YieldLeads(z: Zipper, last: TokenType, ts: seq<Stmt>)
    requires BetweenStatements(last) && z.header == [] && WellFormed(ts)
    ensures Leads(Config(z, last), Yield(ts), Config(z.(top := z.top + ts), LastKind(ts, last)))
    decreases ts
  {
    if ts == [] {
      assert z.top + ts == z.top;
    } else {
      var z1 := z.(top := z.top + [ts[0]]);
      StmtLeads(z, last, ts[0]);
      YieldLeads(z1, EndKind(ts[0]), ts[1..]);
      assert z1.top + ts[1..] == z.top + ts;
      LeadsOn(Config(z, last), YieldStmt(ts[0]), Config(z1, EndKind(ts[0])), Yield(ts[1..]),
              Config(z.(top := z.top + ts), LastKind(ts, last)));
    }
  }

  /** Every derivation is found. */
  lemma RunYield(ts: seq<Stmt>)
    requires WellFormed(ts)
    ensures Run(Zipper(Bottom, [], []), TokenType.Start, Tokens(Yield(ts), true)) == Outcome(true, ts)
  {
    var z := Zipper(Bottom, [], []);
    YieldLeads(z, TokenType.Start, ts);
    assert [] + ts == ts;
    LeadsToRun(Config(z, TokenType.Start), Yield(ts), Config(z.(top := ts), LastKind(ts, TokenType.Start)), true);
  }

  // ---- The grammar ----

  lemma {:induction false} TokenizeProper(s: string)
    ensures Proper(Tokenize(s).toks)
    decreases |s|
  {
    var l := Lex(s);
    if l.kind != Eof && l.kind != Error {
      TokenizeProper(l.rest);
      PunctuationValue(s);
    }
  }

  lemma {:induction false} PunctuationValue(s: string)
    ensures ProperToken(Token(Lex(s).kind, Lex(s).value))
    decreases |s|
  {
    if s != "" {
      if IsBlank(s[0]) {
        PunctuationValue(s[1..]);
      } else if s[0] == '#' {
        NeverPunctuation(InComment, "#", s[1..]);
      } else if s[0] == '\'' {
        NeverPunctuation(InQuote(Single), "'", s[1..]);
      } else if s[0] == '"' {
        NeverPunctuation(InQuote(Double), "\"", s[1..]);
      } else if s[0] !in {'{', '}', ';'} {
        NeverPunctuation(InNormal, "" + [s[0]], s[1..]);
      }
    }
  }

  lemma {:induction false} NeverPunctuation(st: LexState, v: string, s: string)
    requires !st.InitialWhitespace?
    ensures Scan(st, v, s).kind in {Normal, Comment, Eof, Error}
    decreases |s|
  {
    if s != "" {
      var r := s[1..];
      match st
      case InNormal => NeverPunctuation(InNormal, v + [s[0]], r);
      case InComment => NeverPunctuation(InComment, v + [s[0]], r);
      case InEscape(q) => NeverPunctuation(InQuote(q), v + [s[0]], r);
      case InQuote(q) =>
        NeverPunctuation(InQuote(q), v + [s[0]], r);
        NeverPunctuation(InEscape(q), v, r);
      case InitialWhitespace =>
    }
  }

  /** `Parse` accepts with tree t exactly when the tokens end cleanly and t is a derivation of them. */
  lemma GrammarIff(s: string, t: seq<Stmt>)
    ensures ParseText(s) == Outcome(true, t)
            <==> Tokenize(s).clean && WellFormed(t) && Yield(t) == Tokenize(s).toks
  {
    var z := Zipper(Bottom, [], []);
    if ParseText(s) == Outcome(true, t) {
      TokenizeProper(s);
      RunSound(z, TokenType.Start, Tokenize(s));
      assert Consumed(z) == [];
    }
    if Tokenize(s).clean && WellFormed(t) && Yield(t) == Tokenize(s).toks {
      RunYield(t);
    }
  }

  /** An input has at most one derivation, and is accepted exactly when it has one. */
  lemma AcceptsIff(s: string)
    ensures ParseText(s).ok <==> Tokenize(s).clean && exists t :: WellFormed(t) && Yield(t) == Tokenize(s).toks
  {
    GrammarIff(s, ParseText(s).tree);
    forall t | WellFormed(t) && Yield(t) == Tokenize(s).toks && Tokenize(s).clean
      ensures ParseText(s).ok
    {
      GrammarIff(s, t);
    }
  }

  lemma YieldInjective(t: seq<Stmt>, u: seq<Stmt>)
    requires WellFormed(t) && WellFormed(u) && Yield(t) == Yield(u)
    ensures t == u
  {
    RunYield(t);
    RunYield(u);
  }

  // ---- Every statement has a token, also in the tree of a failed parse ----

  lemma {:induction false} PlugWellFormed(below: Stack, block: seq<Stmt>)
    requires BelowWellFormed(below) && WellFormed(block)
    ensures WellFormed(Plug(below, block))
  {
    if below.Open? {
      YieldSnoc(below.done, Block(below.header, block));
      PlugWellFormed(below.below, below.done + [Block(below.header, block)]);
    }
  }

  lemma {:induction false} RunWellFormed(z: Zipper, last: TokenType, input: Tokens)
    requires Consistent(z, last) && ZipperWellFormed(z) && Proper(input.toks)
    ensures WellFormed(Run(z, last, input).tree)
    decreases |input.toks|
  {
    if input.toks != [] && Step(z, last, input.toks[0]).Some? {
      StepSound(z, last, input.toks[0]);
      RunWellFormed(Step(z, last, input.toks[0]).value, input.toks[0].kind, Tokens(input.toks[1..], input.clean));
    } else {
      YieldSnoc(z.top, Simple(z.header));
      PlugWellFormed(z.below, TopBlock(z));
    }
  }

  /** Whatever the input and the verdict, the first token of every stored statement exists. */
  lemma StoredStatementsHaveTokens(before: seq<Stmt>, s: string)
    requires WellFormed(before)
    ensures WellFormed(ParseOnto(before, s).tree)
  {
    TokenizeProper(s);
    RunWellFormed(Zipper(Bottom, before, []), TokenType.Start, Tokenize(s));
  }

  // ---- Parsing onto a config that is not empty ----

  /** The same open blocks over a root block that already holds `before`. */
  ghost function Under(before: seq<Stmt>, below: Stack): Stack {
    match below
    case Bottom => Bottom
    case Open(b, done, header) => Open(Under(before, b), if b.Bottom? then before + done else done, header)
  }

  ghost function ZipperUnder(before: seq<Stmt>, z: Zipper): Zipper {
    Zipper(Under(before, z.below), if z.below.Bottom? then before + z.top else z.top, z.header)
  }

  lemma {:induction false} PlugUnder(before: seq<Stmt>, below: Stack, block: seq<Stmt>)
    ensures Plug(Under(before, below), if below.Bottom? then before + block else block) == before + Plug(below, block)
  {
    if below.Open? {
      var t := Block(below.header, block);
      PlugUnder(before, below.below, below.done + [t]);
      assert before + (below.done + [t]) == before + below.done + [t];
    }
  }

  lemma StepUnder(before: seq<Stmt>, z: Zipper, last: TokenType, tok: Token)
    requires Consistent(z, last)
    ensures var z', b' := Step(z, last, tok), Step(ZipperUnder(before, z), last, tok);
            b'.Some? == z'.Some? && (z'.Some? ==> b'.value == ZipperUnder(before, z'.value))
  {
    assert before + (z.top + [Simple(z.header)]) == before + z.top + [Simple(z.header)];
    if z.below.Open? {
      var t := Block(z.below.header, z.top);
      assert before + (z.below.done + [t]) == before + z.below.done + [t];
    }
  }

  lemma {:induction false} RunUnder(before: seq<Stmt>, z: Zipper, last: TokenType, input: Tokens)
    requires Consistent(z, last)
    ensures Run(ZipperUnder(before, z), last, input)
            == Outcome(Run(z, last, input).ok, before + Run(z, last, input).tree)
    decreases |input.toks|
  {
    PlugUnder(before, z.below, TopBlock(z));
    assert before + (z.top + [Simple(z.header)]) == before + z.top + [Simple(z.header)];
    if input.toks != [] {
      StepUnder(before, z, last, input.toks[0]);
      var z' := Step(z, last, input.toks[0]);
      if z'.Some? {
        RunUnder(before, z'.value, input.toks[0].kind, Tokens(input.toks[1..], input.clean));
      }
    }
  }

  /** `Parse` appends: what the config held stays in front and changes neither verdict nor tree. */
  lemma ParseAppends(before: seq<Stmt>, s: string)
    ensures ParseOnto(before, s) == Outcome(ParseText(s).ok, before + ParseText(s).tree)
  {
    assert before + [] == before;
    RunUnder(before, Zipper(Bottom, [], []), TokenType.Start, Tokenize(s));
  }
}
