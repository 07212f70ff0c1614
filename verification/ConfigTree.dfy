/**
 Configs as values: the statement tree of src/config_parser.h, how it is printed, the token sequence it
 stands for, and the token sequence of an input.
 */
module ConfigTree {
  import opened ConfigLexer

  /** A statement without, or with, a child block. */
  datatype Stmt = Simple(tokens: seq<string>) | Block(tokens: seq<string>, body: seq<Stmt>)

  // ---- ToString ----

  function Indent(depth: int): string
    decreases depth
  {
    if depth <= 0 then "" else Indent(depth - 1) + "  "
  }

  /** Each token with a space before it. */
  function SpacedOut(tokens: seq<string>): string {
    if tokens == [] then "" else " " + tokens[0] + SpacedOut(tokens[1..])
  }

  function Join(tokens: seq<string>): string {
    if tokens == [] then "" else tokens[0] + SpacedOut(tokens[1..])
  }

  function Ending(t: Stmt, depth: int): string
    decreases t, 0
  {
    if t.Simple? then ";\n" else " {\n" + Print(t.body, depth + 1) + Indent(depth) + "}\n"
  }

  function PrintStmt(t: Stmt, depth: int): string
    decreases t, 1
  {
    Indent(depth) + Join(t.tokens) + Ending(t, depth)
  }

  function Print(ts: seq<Stmt>, depth: int): string
    decreases ts
  {
    if ts == [] then "" else PrintStmt(ts[0], depth) + Print(ts[1..], depth)
  }

  // ---- Tokens ----

  datatype Token = Token(kind: TokenType, value: string)

  const OPEN := Token(StartBlock, "{")
  const CLOSE := Token(EndBlock, "}")
  const SEMICOLON := Token(StatementEnd, ";")

  /** The tokens of an input without comments, and whether they end at the end of the input rather than in an error. */
  datatype Tokens = Tokens(toks: seq<Token>, clean: bool) {
    function Prepend(pre: seq<Token>): Tokens {
      Tokens(pre + toks, clean)
    }
  }

  function Tokenize(s: string): Tokens
    decreases |s|
  {
    var l := Lex(s);
    match l.kind
    case Eof => Tokens([], true)
    case Error => Tokens([], false)
    case Comment => Tokenize(l.rest)
    case _ => Tokenize(l.rest).Prepend([Token(l.kind, l.value)])
  }

  function Words(tokens: seq<string>): seq<Token> {
    if tokens == [] then [] else [Token(Normal, tokens[0])] + Words(tokens[1..])
  }

  /** The yield of a derivation of config ::= (NORMAL+ (';' | '{' config '}'))*. */
  function Yield(ts: seq<Stmt>): seq<Token>
    decreases ts
  {
    if ts == [] then [] else YieldStmt(ts[0]) + Yield(ts[1..])
  }

  function YieldStmt(t: Stmt): seq<Token>
    decreases t
  {
    Words(t.tokens) + if t.Simple? then [SEMICOLON] else [OPEN] + Yield(t.body) + [CLOSE]
  }

  /** The grammar's NORMAL+: every statement has at least one token. */
  predicate WellFormed(ts: seq<Stmt>)
    decreases ts
  {
    ts == [] || (WellFormedStmt(ts[0]) && WellFormed(ts[1..]))
  }

  predicate WellFormedStmt(t: Stmt)
    decreases t
  {
    t.tokens != [] && (t.Block? ==> WellFormed(t.body))
  }

  // ---- Sequences grow at the end ----

  lemma {:induction false} WordsAppend(a: seq<string>, b: seq<string>)
    ensures Words(a + b) == Words(a) + Words(b)
  {
    if a == [] {
      assert a + b == b;
    } else {
      assert (a + b)[1..] == a[1..] + b;
      WordsAppend(a[1..], b);
    }
  }

  lemma {:induction false} YieldAppend(a: seq<Stmt>, b: seq<Stmt>)
    ensures Yield(a + b) == Yield(a) + Yield(b)
    decreases |a|
  {
    if a == [] {
      assert a + b == b;
    } else {
      assert (a + b)[1..] == a[1..] + b;
      YieldAppend(a[1..], b);
    }
  }

  lemma {:induction false} WellFormedAppend(a: seq<Stmt>, b: seq<Stmt>)
    ensures WellFormed(a + b) <==> WellFormed(a) && WellFormed(b)
    decreases |a|
  {
    if a == [] {
      assert a + b == b;
    } else {
      assert (a + b)[1..] == a[1..] + b;
      WellFormedAppend(a[1..], b);
    }
  }

  lemma YieldSnoc(a: seq<Stmt>, t: Stmt)
    ensures Yield(a + [t]) == Yield(a) + YieldStmt(t)
    ensures WellFormed(a + [t]) <==> WellFormed(a) && WellFormedStmt(t)
  {
    YieldAppend(a, [t]);
    WellFormedAppend(a, [t]);
    assert Yield([t]) == YieldStmt(t) + Yield([]);
    assert WellFormed([t]) <==> WellFormedStmt(t) && WellFormed([]);
  }
}
