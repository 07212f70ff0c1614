/**
 What a rejected input leaves in the config (src/config_parser.cc:183-260): `Parse` stops at the first token after which no
 input can be accepted, and keeps what it has read until then.
 */
module ConfigFailure {
  import opened Options
  import opened ConfigLexer
  import opened ConfigTree
  import opened ConfigMachine
  import opened ConfigGrammar

  /** One closing brace for each open block. */
  function Closes(below: Stack): seq<Token> {
    if below.Bottom? then [] else [CLOSE] + Closes(below.below)
  }

  function Depth(below: Stack): nat {
    if below.Bottom? then 0 else 1 + Depth(below.below)
  }

  lemma {:induction false} ClosesAre(below: Stack)
    ensures Closes(below) == seq(Depth(below), _ => CLOSE)
  {
    if below.Open? {
      ClosesAre(below.below);
    }
  }

  /** What would end the statement being read and all open blocks. */
  function Completion(z: Zipper): seq<Token> {
    (if z.header == [] then [] else [SEMICOLON]) + Closes(z.below)
  }

  lemma Nested<T>(a: seq<T>, y: seq<T>, w: seq<T>, o: seq<T>, b: seq<T>, c: seq<T>, e: seq<T>)
    ensures a + (y + (w + (o + b + c))) + e == a + (y + (w + o)) + b + (c + e)
  {
    Regroup(a, y, w, o, b, c);
    assert a + (y + (w + o)) + b + (c + e) == a + (y + (w + o)) + b + c + e;
  }

  lemma {:induction false} PlugYield(below: Stack, block: seq<Stmt>)
    ensures Yield(Plug(below, block)) == BelowYield(below) + Yield(block) + Closes(below)
  {
    if below.Bottom? {
      assert [] + Yield(block) + [] == Yield(block);
    } else {
      var t := Block(below.header, block);
      PlugYield(below.below, below.done + [t]);
      YieldSnoc(below.done, t);
      Nested(BelowYield(below.below), Yield(below.done), Words(below.header), [OPEN], Yield(block), [CLOSE], Closes(below.below));
    }
  }

  /** The tree that is left stands for the tokens read, completed. */
  lemma LeftYield(z: Zipper)
    ensures Yield(Plug(z.below, TopBlock(z))) == Consumed(z) + Completion(z)
  {
    PlugYield(z.below, TopBlock(z));
    var a, y, w, c := BelowYield(z.below), Yield(z.top), Words(z.header), Closes(z.below);
    if z.header == [] {
      assert a + y + c == a + (y + []) + ([] + c);
    } else {
      YieldSnoc(z.top, Simple(z.header));
      assert a + (y + (w + [SEMICOLON])) + c == a + (y + w) + ([SEMICOLON] + c);
    }
  }

  lemma {:induction false} StepsPrefix(c: Config, a: seq<Token>, b: seq<Token>)
    requires Consistent(c.z, c.last) && Steps(c, a + b).Some?
    ensures Steps(c, a).Some?
    decreases |a|
  {
    if a != [] {
      assert (a + b)[0] == a[0] && (a + b)[1..] == a[1..] + b;
      StepsPrefix(Config(Step(c.z, c.last, a[0]).value, a[0].kind), a[1..], b);
    }
  }

  lemma {:induction false} StepsStuck(c: Config, a: seq<Token>, d: Config, t: Token)
    requires Leads(c, a, d) && Step(d.z, d.last, t).None?
    ensures Steps(c, a + [t]) == None
    decreases |a|
  {
    if a == [] {
      assert a + [t] == [t];
    } else {
      assert (a + [t])[0] == a[0] && (a + [t])[1..] == a[1..] + [t];
      StepsStuck(Config(Step(c.z, c.last, a[0]).value, a[0].kind), a[1..], d, t);
    }
  }

  /** Where the loop stops: after n tokens, at the end or at a token without a step. */
  lemma {:induction false} RunStops(c: Config, input: Tokens) returns (n: nat, d: Config)
    requires Consistent(c.z, c.last) && ZipperWellFormed(c.z) && Proper(input.toks)
    ensures n <= |input.toks| && Leads(c, input.toks[..n], d) && Consumed(d.z) == Consumed(c.z) + input.toks[..n]
    ensures n < |input.toks| ==> Step(d.z, d.last, input.toks[n]).None?
    ensures Run(c.z, c.last, input).tree == Plug(d.z.below, TopBlock(d.z))
    decreases |input.toks|
  {
    n, d := 0, c;
    assert Consumed(c.z) + [] == Consumed(c.z) && input.toks[..0] == [];
    if input.toks != [] && Step(c.z, c.last, input.toks[0]).Some? {
      var tok, rest := input.toks[0], input.toks[1..];
      StepSound(c.z, c.last, tok);
      assert Proper(rest);
      n, d := RunStops(Config(Step(c.z, c.last, tok).value, tok.kind), Tokens(rest, input.clean));
      FirstAndMore(Consumed(c.z), input.toks, n);
      n := n + 1;
    }
  }

  lemma FirstAndMore(a: seq<Token>, b: seq<Token>, n: nat)
    requires b != [] && n < |b|
    ensures b[..n + 1][0] == b[0] && b[..n + 1][1..] == b[1..][..n]
    ensures a + b[..n + 1] == a + [b[0]] + b[1..][..n]
  {
    assert b[..n + 1] == [b[0]] + b[1..][..n];
  }

  /** No input that begins with these tokens is accepted. */
  ghost predicate DeadEnd(toks: seq<Token>) {
    forall u :: WellFormed(u) ==> !(toks <= Yield(u))
  }

  lemma StuckIsDead(toks: seq<Token>, n: nat, d: Config)
    requires n < |toks| && Leads(Config(Zipper(Bottom, [], []), TokenType.Start), toks[..n], d)
    requires Step(d.z, d.last, toks[n]).None?
    ensures DeadEnd(toks[..n + 1])
  {
    var c := Config(Zipper(Bottom, [], []), TokenType.Start);
    StepsStuck(c, toks[..n], d, toks[n]);
    assert toks[..n] + [toks[n]] == toks[..n + 1];
    forall u | WellFormed(u)
      ensures !(toks[..n + 1] <= Yield(u))
    {
      YieldLeads(c.z, c.last, u);
      if toks[..n + 1] <= Yield(u) {
        var rest := Yield(u)[n + 1..];
        assert Yield(u) == toks[..n + 1] + rest;
        StepsPrefix(c, toks[..n + 1], rest);
      }
    }
  }

  /** The tokens that a rejected input leaves in the tree are the longest that some accepted input begins with, completed by a
      semicolon if a statement was being read and by a closing brace for each open block. */
  lemma RejectedTree(s: string) returns (n: nat, reading: bool, open: nat)
    requires !ParseText(s).ok
    ensures var toks := Tokenize(s).toks;
            && n <= |toks|
            && Yield(ParseText(s).tree)
               == toks[..n] + ((if reading then [Token(StatementEnd, ";")] else []) + seq(open, _ => Token(EndBlock, "}")))
            && WellFormed(ParseText(s).tree)
            && (n < |toks| ==> DeadEnd(toks[..n + 1]))
  {
    var c := Config(Zipper(Bottom, [], []), TokenType.Start);
    TokenizeProper(s);
    var d;
    n, d := RunStops(c, Tokenize(s));
    var z := d.z;
    reading, open := z.header != [], Depth(z.below);
    ClosesAre(z.below);
    assert Consumed(c.z) == [] && [] + Tokenize(s).toks[..n] == Tokenize(s).toks[..n];
    LeftYield(z);
    StoredStatementsHaveTokens([], s);
    if n < |Tokenize(s).toks| {
      StuckIsDead(Tokenize(s).toks, n, d);
    }
  }
}
