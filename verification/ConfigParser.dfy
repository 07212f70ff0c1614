/**
 `NginxConfigParser::Parse` (src/config_parser.cc:183-260): the token loop, the stack of pointers into the tree
 it is building, and the tree built in place.

 The ghost `Progress` names the objects the parser holds.
 */
module ConfigParser {
  import opened Options
  import opened ConfigLexer
  import opened Lexemes
  import opened ConfigTree
  import opened ConfigMachine
  import opened ConfigObjects

  method EmplaceStatement(top: NginxConfig, ghost g: Progress) returns (ghost g': Progress)
    requires HoldsAll(g) && g.r.Nothing? && top == g.top
    modifies top
    ensures g'.r.Reading? && g'.r.tokens == [] && fresh(g'.r.stmt)
    ensures HoldsAll(g') && g' == g.(r := g'.r, reach := g.reach + {g'.r.stmt})
  {
    var stmt := new NginxConfigStatement();
    top.statements := top.statements + [stmt];
    g' := g.(r := Reading(stmt, []), reach := g.reach + {stmt});
  }

  method PushToken(top: NginxConfig, token: string, ghost g: Progress) returns (ghost g': Progress)
    requires HoldsAll(g) && g.r.Reading? && top == g.top
    modifies g.r.stmt
    ensures HoldsAll(g') && g' == g.(r := Reading(g.r.stmt, g.r.tokens + [token]))
  {
    var stmt := top.statements[|top.statements| - 1];
    stmt.tokens := stmt.tokens + [token];
    g' := g.(r := Reading(stmt, g.r.tokens + [token]));
  }

  /** A NORMAL token: a new statement unless one is being read, and the token at its end. */
  method TakeWord(top: NginxConfig, last: TokenType, token: string, ghost g: Progress) returns (ghost g': Progress)
    requires HoldsAll(g) && top == g.top && (last == Normal <==> g.r.Reading?)
    modifies g.reach
    ensures HoldsAll(g') && fresh(g'.reach - g.reach)
    ensures g'.r.Reading? && g'.r.tokens == Header(g.r) + [token] && g' == g.(r := g'.r, reach := g'.reach)
  {
    g' := g;
    if last != Normal {
      g' := EmplaceStatement(top, g);
    }
    g' := PushToken(top, token, g');
  }

  method OpenBlock(top: NginxConfig, ghost g: Progress) returns (newConfig: NginxConfig, ghost g': Progress)
    requires HoldsAll(g) && g.r.Reading? && top == g.top
    modifies g.r.stmt
    ensures fresh(newConfig) && HoldsAll(g')
    ensures g' == Progress(Above(g.p, top, g.done, g.r.stmt, g.r.tokens), newConfig, [], Nothing, g.reach + {newConfig})
  {
    newConfig := new NginxConfig();
    var stmt := top.statements[|top.statements| - 1];
    stmt.childBlock := newConfig;
    g' := Progress(Above(g.p, top, g.done, g.r.stmt, g.r.tokens), newConfig, [], Nothing, g.reach + {newConfig});
  }

  lemma ClosedStep(g: Progress, last: TokenType, token: string)
    requires Consistent(ZipperValue(g), last) && g.p.Above? && g.r.Nothing?
    requires last in {StatementEnd, StartBlock, EndBlock}
    ensures Step(ZipperValue(g), last, Token(EndBlock, token)) == Some(ZipperValue(Closed(g)))
  {
    Snoc(g.p.done, Branch(g.p.stmt, g.p.tokens, g.top, g.done));
  }

  lemma ClosedStack(g: Progress)
    requires g.p.Above?
    ensures StackOf(Closed(g)) == StackOf(g)[..|StackOf(g)| - 1]
    ensures RootOf(Closed(g).p, Closed(g).top) == RootOf(g.p, g.top)
  {
  }

  /** A closing brace: the block below is on top again, if there is one. */
  method CloseBlock(configStack: seq<NginxConfig>, last: TokenType, token: string, ghost g: Progress)
    returns (bad: bool, configStack': seq<NginxConfig>, ghost g': Progress)
    requires HoldsAll(g) && configStack == StackOf(g)
    requires Consistent(ZipperValue(g), last) && (last == Normal <==> g.r.Reading?)
    ensures HoldsAll(g') && RootOf(g'.p, g'.top) == RootOf(g.p, g.top) && g'.reach == g.reach
    ensures bad ==> g' == g && Step(ZipperValue(g), last, Token(EndBlock, token)).None?
    ensures !bad ==>
              && configStack' == StackOf(g') && g'.r.Nothing?
              && Step(ZipperValue(g), last, Token(EndBlock, token)) == Some(ZipperValue(g'))
  {
    bad, configStack', g' := true, configStack, g;
    if last != StatementEnd && last != StartBlock && last != EndBlock {
      return;
    }
    configStack' := configStack[..|configStack| - 1];
    if |configStack'| == 0 {
      return;
    }
    Close(g);
    ClosedStep(g, last, token);
    ClosedStack(g);
    g' := Closed(g);
    bad := false;
  }

  /** The loop body for a token that is neither a comment nor the end: the new stack, or a bad transition. */
  method Consume(configStack: seq<NginxConfig>, last: TokenType, kind: TokenType, token: string, ghost g: Progress)
    returns (bad: bool, configStack': seq<NginxConfig>, ghost g': Progress)
    requires HoldsAll(g) && configStack == StackOf(g)
    requires Consistent(ZipperValue(g), last) && (last == Normal <==> g.r.Reading?)
    requires IsToken(kind) && kind != Comment
    modifies g.reach
    ensures HoldsAll(g') && RootOf(g'.p, g'.top) == RootOf(g.p, g.top) && fresh(g'.reach - g.reach)
    ensures bad ==> g' == g && Step(ZipperValue(g), last, Token(kind, token)).None?
    ensures !bad ==>
              && configStack' == StackOf(g') && (kind == Normal <==> g'.r.Reading?)
              && Step(ZipperValue(g), last, Token(kind, token)) == Some(ZipperValue(g'))
  {
    bad, configStack', g' := false, configStack, g;
    var top := configStack[|configStack| - 1];
    if kind == Normal {
      g' := TakeWord(top, last, token, g);
    } else if kind == StatementEnd {
      if last != Normal {
        bad := true;
        return;
      }
      Finish(g);
      g' := Finished(g);
    } else if kind == StartBlock {
      if last != Normal {
        bad := true;
        return;
      }
      var newConfig;
      newConfig, g' := OpenBlock(top, g);
      configStack' := configStack + [newConfig];
    } else {
      bad, configStack', g' := CloseBlock(configStack, last, token, g);
    }
  }

  /** What the tokens ahead are when `kind` has just been read. */
  ghost predicate Took(kind: TokenType, token: string, ahead: Tokens, ahead': Tokens) {
    && (kind == Eof ==> ahead == Tokens([], true))
    && (kind == Error ==> ahead == Tokens([], false))
    && (kind == Comment ==> ahead' == ahead)
    && (IsToken(kind) && kind != Comment ==> ahead == ahead'.Prepend([Token(kind, token)]))
    && (IsToken(kind) || kind == Eof || kind == Error)
  }

  /** Reads the next token and takes it off the tokens that are still to come. */
  method ReadToken(input: Stream, ghost ahead: Tokens) returns (kind: TokenType, token: string, ghost ahead': Tokens)
    requires input.Valid() && ahead == Tokenize(input.Rest())
    modifies input
    ensures input.Valid() && ahead' == Tokenize(input.Rest()) && Took(kind, token, ahead, ahead')
    ensures IsToken(kind) ==> |input.Rest()| < old(|input.Rest()|)
  {
    var _, _ := LexBack(input.Rest());
    kind, token := ParseToken(input, "");
    ahead' := Tokenize(input.Rest());
  }

  /** The state at the head of the loop: the objects, and what is left to be done on the tokens ahead. */
  ghost predicate Parsing(config: NginxConfig, configStack: seq<NginxConfig>, last: TokenType, g: Progress,
                          ahead: Tokens, result: Outcome)
    reads g.reach
  {
    && HoldsAll(g) && configStack == StackOf(g) && RootOf(g.p, g.top) == config
    && Consistent(ZipperValue(g), last) && (last == Normal <==> g.r.Reading?)
    && Run(ZipperValue(g), last, ahead) == result
  }

  datatype Verdict = Proceed | Accept | Reject

  method React(config: NginxConfig, configStack: seq<NginxConfig>, last: TokenType, kind: TokenType, token: string,
               ghost g: Progress, ghost ahead: Tokens, ghost ahead': Tokens, ghost result: Outcome)
    returns (verdict: Verdict, configStack': seq<NginxConfig>, ghost g': Progress, ghost nodes: seq<Node>)
    requires Parsing(config, configStack, last, g, ahead, result)
    requires Took(kind, token, ahead, ahead') && kind != Comment
    modifies g.reach
    ensures fresh(g'.reach - g.reach)
    ensures verdict.Proceed? ==> Parsing(config, configStack', kind, g', ahead', result) && IsToken(kind)
    ensures !verdict.Proceed? ==> Represents(config, nodes) && {config} + Footprint(nodes) == g'.reach
    ensures !verdict.Proceed? ==> result == Outcome(verdict.Accept?, Value(nodes))
  {
    verdict, configStack', g', nodes := Reject, configStack, g, [];
    if kind == Error {
    } else if kind == Eof {
      if last != StatementEnd && last != EndBlock && last != TokenType.Start {
      } else if |configStack| > 1 {
      } else {
        verdict := Accept;
      }
    } else {
      assert ahead.toks[1..] == ahead'.toks;
      var bad;
      bad, configStack', g' := Consume(configStack, last, kind, token, g);
      verdict := if bad then Reject else Proceed;
    }
    if !verdict.Proceed? {
      nodes := PlugAll(g');
    }
  }

  /** One turn of the loop. */
  method Turn(input: Stream, config: NginxConfig, configStack: seq<NginxConfig>, last: TokenType,
              ghost g: Progress, ghost ahead: Tokens, ghost result: Outcome)
    returns (verdict: Verdict, configStack': seq<NginxConfig>, last': TokenType, ghost g': Progress, ghost ahead': Tokens,
             ghost nodes: seq<Node>)
    requires input.Valid() && input !in g.reach
    requires Parsing(config, configStack, last, g, ahead, result) && ahead == Tokenize(input.Rest())
    modifies input, g.reach
    ensures input.Valid() && fresh(g'.reach - g.reach) && input !in g'.reach
    ensures verdict.Proceed? ==> Parsing(config, configStack', last', g', ahead', result)
    ensures verdict.Proceed? ==> ahead' == Tokenize(input.Rest()) && |input.Rest()| < old(|input.Rest()|)
    ensures !verdict.Proceed? ==> Represents(config, nodes) && {config} + Footprint(nodes) == g'.reach
    ensures !verdict.Proceed? ==> result == Outcome(verdict.Accept?, Value(nodes))
  {
    var kind, token;
    kind, token, ahead' := ReadToken(input, ahead);
    if kind == Comment {
      return Proceed, configStack, last, g, ahead', [];
    }
    verdict, configStack', g', nodes := React(config, configStack, last, kind, token, g, ahead, ahead', result);
    last' := kind;
  }

  ghost function Begun(config: NginxConfig, before: seq<Node>): Progress {
    Progress(Root, config, before, Nothing, {config} + Footprint(before))
  }

  lemma Begin(config: NginxConfig, before: seq<Node>, s: seq<char>)
    requires Represents(config, before)
    ensures Parsing(config, [config], TokenType.Start, Begun(config, before), Tokenize(s), ParseOnto(Value(before), s))
  {
  }

  /** The loop, on a stack that holds the given config alone. */
  method ParseTokens(input: Stream, config: NginxConfig, ghost start: Progress, ghost tokens: Tokens, ghost result: Outcome)
    returns (ok: bool, ghost nodes: seq<Node>)
    requires input.Valid() && input !in start.reach && tokens == Tokenize(input.Rest())
    requires Parsing(config, [config], TokenType.Start, start, tokens, result)
    modifies input, start.reach
    ensures input.Valid() && Represents(config, nodes)
    ensures fresh({config} + Footprint(nodes) - start.reach)
    ensures Outcome(ok, Value(nodes)) == result
  {
    ghost var ahead, g := tokens, start;
    var configStack := [config];
    var last := TokenType.Start;
    while true
      invariant input.Valid() && input !in g.reach && fresh(g.reach - start.reach)
      invariant Parsing(config, configStack, last, g, ahead, result)
      invariant ahead == Tokenize(input.Rest())
      decreases |input.Rest()|
    {
      var verdict;
      verdict, configStack, last, g, ahead, nodes := Turn(input, config, configStack, last, g, ahead, result);
      if verdict != Proceed {
        return verdict == Accept, nodes;
      }
    }
  }

  /** `config` holds `before` and gets the new statements after it, on success and on failure. */
  method Parse(input: Stream, config: NginxConfig, ghost before: seq<Node>) returns (ok: bool, ghost nodes: seq<Node>)
    requires input.Valid() && Represents(config, before)
    modifies input, config, Footprint(before)
    ensures input.Valid()
    ensures Represents(config, nodes)
    ensures fresh(Footprint(nodes) - Footprint(before))
    ensures Outcome(ok, Value(nodes)) == ParseOnto(Value(before), old(input.Rest()))
  {
    OnlyConfigs(before, input);
    Begin(config, before, input.Rest());
    ok, nodes := ParseTokens(input, config, Begun(config, before), Tokenize(input.Rest()),
                             ParseOnto(Value(before), input.Rest()));
  }
}
