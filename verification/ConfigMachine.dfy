/**
 The stack machine of `NginxConfigParser::Parse` (src/config_parser.cc:183-260) on values, and the grammar it
 implements although it remembers only the type of the last token.

 The stack of pointers of the source is a zipper: every block below the top is open, and its last statement is
 the header of the block above it.
 */
module ConfigMachine {
  import opened Options
  import opened ConfigLexer
  import opened ConfigTree

  /** The open blocks below the top: the statements finished in each, and the tokens of the statement whose child
      block is the next one up. */
  datatype Stack = Bottom | Open(below: Stack, done: seq<Stmt>, header: seq<string>)

  /** The top block's finished statements, and the tokens of the statement being read; no tokens, no such statement. */
  datatype Zipper = Zipper(below: Stack, top: seq<Stmt>, header: seq<string>)

  datatype Outcome = Outcome(ok: bool, tree: seq<Stmt>)

  /** The last token type decides whether a statement is being read: the source keeps nothing else. */
  predicate Consistent(z: Zipper, last: TokenType) {
    && last !in {Comment, Eof, Error}
    && (last == Normal <==> z.header != [])
  }

  /** One iteration of the loop for a token that is not EOF; None is one of the error breaks. */
  function Step(z: Zipper, last: TokenType, tok: Token): (z': Option<Zipper>)
    requires Consistent(z, last)
    ensures z'.Some? ==> Consistent(z'.value, tok.kind)
  {
    match tok.kind
    case Normal => Some(z.(header := z.header + [tok.value]))
    case StatementEnd => if last != Normal then None else Some(Zipper(z.below, z.top + [Simple(z.header)], []))
    case StartBlock => if last != Normal then None else Some(Zipper(Open(z.below, z.top, z.header), [], []))
    case EndBlock =>
      if last !in {StatementEnd, StartBlock, EndBlock} || z.below.Bottom? then None
      else Some(Zipper(z.below.below, z.below.done + [Block(z.below.header, z.top)], []))
    case _ => None
  }

  predicate AcceptsEof(z: Zipper, last: TokenType) {
    last in {StatementEnd, EndBlock, TokenType.Start} && z.below.Bottom?
  }

  /** The statements of the top block, with the one being read. */
  function TopBlock(z: Zipper): seq<Stmt> {
    if z.header == [] then z.top else z.top + [Simple(z.header)]
  }

  /** The tree of the root config when `block` is the content of the top block. */
  function Plug(below: Stack, block: seq<Stmt>): seq<Stmt> {
    if below.Bottom? then block else Plug(below.below, below.done + [Block(below.header, block)])
  }

  function Run(z: Zipper, last: TokenType, input: Tokens): Outcome
    requires Consistent(z, last)
    decreases |input.toks|
  {
    if input.toks == [] then Outcome(input.clean && AcceptsEof(z, last), Plug(z.below, TopBlock(z)))
    else
      var z' := Step(z, last, input.toks[0]);
      if z'.None? then Outcome(false, Plug(z.below, TopBlock(z)))
      else Run(z'.value, input.toks[0].kind, Tokens(input.toks[1..], input.clean))
  }

  /** What `Parse` makes of an input, for a config that already holds `before`. */
  function ParseOnto(before: seq<Stmt>, s: string): Outcome {
    Run(Zipper(Bottom, before, []), TokenType.Start, Tokenize(s))
  }

  function ParseText(s: string): Outcome {
    ParseOnto([], s)
  }
}
