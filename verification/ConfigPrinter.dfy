/** `NginxConfig::ToString` and `NginxConfigStatement::ToString` (src/config_parser.cc:18-49) on the objects. */
module ConfigPrinter {
  import opened ConfigTree
  import opened ConfigObjects

  method AppendIndent(text: string, depth: int) returns (s: string)
    ensures s == text + Indent(depth)
  {
    s := text;
    var i := 0;
    assert text + Indent(0) == text;
    while i < depth
      invariant 0 <= i && (i <= depth || i == 0)
      invariant s == text + Indent(i)
    {
      s := s + "  ";
      i := i + 1;
    }
    assert depth <= 0 ==> Indent(depth) == "";
  }

  lemma NextToken(s: string, tokens: seq<string>, i: nat)
    requires i < |tokens|
    ensures s + SpacedOut(tokens[i..]) == s + " " + tokens[i] + SpacedOut(tokens[i + 1..])
    ensures i == 0 ==> s + Join(tokens) == s + tokens[i] + SpacedOut(tokens[i + 1..])
  {
    assert tokens[i..][0] == tokens[i] && tokens[i..][1..] == tokens[i + 1..];
    var rest := SpacedOut(tokens[i + 1..]);
    assert s + (" " + tokens[i] + rest) == s + " " + tokens[i] + rest;
    assert s + (tokens[i] + rest) == s + tokens[i] + rest;
  }

  method AppendTokens(text: string, tokens: seq<string>) returns (s: string)
    ensures s == text + Join(tokens)
  {
    s := text;
    var i := 0;
    while i < |tokens|
      invariant 0 <= i <= |tokens|
      invariant s + (if i == 0 then Join(tokens) else SpacedOut(tokens[i..])) == text + Join(tokens)
    {
      NextToken(s, tokens, i);
      if i != 0 {
        s := s + " ";
      }
      s := s + tokens[i];
      i := i + 1;
    }
  }

  lemma Pieces(a: string, b: string, c: string)
    ensures a + " {\n" + b + c + "}" + "\n" == a + (" {\n" + b + c + "}\n")
  {
  }

  /** `reach` is any set of objects that holds the statement's. */
  method StatementToString(stmt: NginxConfigStatement, depth: int, ghost n: Node, ghost reach: set<object>) returns (s: string)
    requires HoldsOne(n) && n.stmt == stmt && FootprintOf(n) <= reach
    ensures s == PrintStmt(ValueOf(n), depth)
    decreases n, 1
  {
    s := AppendIndent("", depth);
    assert s == Indent(depth);
    s := AppendTokens(s, stmt.tokens);
    s := AppendEnding(s, stmt, depth, n, reach);
  }

  method AppendEnding(text: string, stmt: NginxConfigStatement, depth: int, ghost n: Node, ghost reach: set<object>)
    returns (s: string)
    requires HoldsOne(n) && n.stmt == stmt && FootprintOf(n) <= reach
    ensures s == text + Ending(ValueOf(n), depth)
    decreases n, 0
  {
    s := text;
    if stmt.childBlock != null {
      s := s + " {\n";
      var inner := ToString(stmt.childBlock, depth + 1, n.body, reach);
      s := s + inner;
      s := AppendIndent(s, depth);
      s := s + "}";
      Pieces(text, inner, Indent(depth));
    } else {
      s := s + ";";
    }
    s := s + "\n";
  }

  lemma NextStatement(s: string, ts: seq<Stmt>, i: nat, depth: int)
    requires i < |ts|
    ensures s + Print(ts[i..], depth) == s + PrintStmt(ts[i], depth) + Print(ts[i + 1..], depth)
  {
    assert ts[i..][0] == ts[i] && ts[i..][1..] == ts[i + 1..];
    Together(s, PrintStmt(ts[i], depth), Print(ts[i + 1..], depth));
  }

  lemma Together(a: string, b: string, c: string)
    ensures a + (b + c) == a + b + c
  {
  }

  method ToString(config: NginxConfig, depth: int, ghost nodes: seq<Node>, ghost reach: set<object>) returns (s: string)
    requires Represents(config, nodes) && Footprint(nodes) <= reach
    ensures s == Print(Value(nodes), depth)
    decreases nodes
  {
    s := "";
    for i := 0 to |config.statements|
      invariant Represents(config, nodes)
      invariant s + Print(Value(nodes)[i..], depth) == Print(Value(nodes), depth)
    {
      At(nodes, i);
      var text := StatementToString(config.statements[i], depth, nodes[i], reach);
      NextStatement(s, Value(nodes), i, depth);
      s := s + text;
    }
  }
}
