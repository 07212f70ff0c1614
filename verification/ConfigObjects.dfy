/**
 The config as the source keeps it: statement and config objects that point to each other
 (src/config_parser.h:12-28).

 `Node` lists the objects of a tree; `Represents` says that the heap holds that tree with no object shared.
 `Pending` is the parser's stack of pointers: every config on it is the child block of the last statement of the
 config below.
 */
module ConfigObjects {
  import opened ConfigTree
  import opened ConfigMachine

  class NginxConfigStatement {
    var tokens: seq<string>
    var childBlock: NginxConfig?

    constructor ()
      ensures tokens == [] && childBlock == null
    {
      tokens := [];
      childBlock := null;
    }
  }

  class NginxConfig {
    var statements: seq<NginxConfigStatement>

    constructor ()
      ensures statements == []
    {
      statements := [];
    }
  }

  datatype Node =
    | Leaf(stmt: NginxConfigStatement, tokens: seq<string>)
    | Branch(stmt: NginxConfigStatement, tokens: seq<string>, config: NginxConfig, body: seq<Node>)

  // ---- A finished tree ----

  ghost function Value(nodes: seq<Node>): (ts: seq<Stmt>)
    ensures |ts| == |nodes|
    decreases nodes
  {
    if nodes == [] then [] else Value(nodes[..|nodes| - 1]) + [ValueOf(nodes[|nodes| - 1])]
  }

  ghost function ValueOf(n: Node): Stmt
    decreases n
  {
    if n.Leaf? then Simple(n.tokens) else Block(n.tokens, Value(n.body))
  }

  ghost function Objects(nodes: seq<Node>): (os: seq<NginxConfigStatement>)
    ensures |os| == |nodes|
  {
    if nodes == [] then [] else Objects(nodes[..|nodes| - 1]) + [nodes[|nodes| - 1].stmt]
  }

  ghost function Footprint(nodes: seq<Node>): set<object>
    decreases nodes
  {
    if nodes == [] then {} else Footprint(nodes[..|nodes| - 1]) + FootprintOf(nodes[|nodes| - 1])
  }

  ghost function FootprintOf(n: Node): set<object>
    decreases n
  {
    {n.stmt} + if n.Leaf? then {} else {n.config} + Footprint(n.body)
  }

  ghost predicate Holds(nodes: seq<Node>)
    reads Footprint(nodes)
    decreases nodes
  {
    nodes == [] ||
    var rest, n := nodes[..|nodes| - 1], nodes[|nodes| - 1];
    Footprint(rest) !! FootprintOf(n) && Holds(rest) && HoldsOne(n)
  }

  ghost predicate HoldsOne(n: Node)
    reads FootprintOf(n)
    decreases n
  {
    && n.stmt.tokens == n.tokens
    && (n.Leaf? ==> n.stmt.childBlock == null)
    && (n.Branch? ==>
          && n.stmt.childBlock == n.config
          && n.config.statements == Objects(n.body)
          && n.stmt !in Footprint(n.body) && n.config !in Footprint(n.body)
          && Holds(n.body))
  }

  ghost predicate Represents(config: NginxConfig, nodes: seq<Node>)
    reads {config} + Footprint(nodes)
  {
    config !in Footprint(nodes) && config.statements == Objects(nodes) && Holds(nodes)
  }

  // ---- The parser's stack ----

  datatype Pending =
    | Root
    | Above(below: Pending, config: NginxConfig, done: seq<Node>, stmt: NginxConfigStatement, tokens: seq<string>)

  /** The statement that the last NORMAL tokens went to. */
  datatype Reading = Nothing | Reading(stmt: NginxConfigStatement, tokens: seq<string>)

  ghost function StackValue(p: Pending): Stack {
    if p.Root? then Bottom else Open(StackValue(p.below), Value(p.done), p.tokens)
  }

  ghost function Pointers(p: Pending): seq<NginxConfig> {
    if p.Root? then [] else Pointers(p.below) + [p.config]
  }

  ghost function PendingFootprint(p: Pending): set<object> {
    if p.Root? then {} else PendingFootprint(p.below) + ({p.config} + (Footprint(p.done) + {p.stmt}))
  }

  /** The zipper: the child block of each pending statement is the next config up, at last `top`. */
  ghost predicate HoldsPending(p: Pending, top: NginxConfig)
    reads PendingFootprint(p)
  {
    p.Above? ==>
      && PendingFootprint(p.below) !! {p.config} + (Footprint(p.done) + {p.stmt})
      && p.config !in Footprint(p.done) && p.stmt !in Footprint(p.done)
      && p.config.statements == Objects(p.done) + [p.stmt]
      && p.stmt.tokens == p.tokens && p.stmt.childBlock == top
      && Holds(p.done)
      && HoldsPending(p.below, p.config)
  }

  ghost function RootOf(p: Pending, top: NginxConfig): NginxConfig {
    if p.Root? then top else RootOf(p.below, p.config)
  }

  ghost function TopFootprint(top: NginxConfig, done: seq<Node>, r: Reading): set<object> {
    {top} + (Footprint(done) + if r.Nothing? then {} else {r.stmt})
  }

  ghost predicate HoldsTop(top: NginxConfig, done: seq<Node>, r: Reading)
    reads TopFootprint(top, done, r)
  {
    && top !in Footprint(done)
    && Holds(done)
    && (r.Nothing? ==> top.statements == Objects(done))
    && (r.Reading? ==>
          && r.stmt !in Footprint(done)
          && top.statements == Objects(done) + [r.stmt]
          && r.stmt.tokens == r.tokens && r.stmt.childBlock == null)
  }

  ghost function Header(r: Reading): seq<string> {
    if r.Nothing? then [] else r.tokens
  }

  /** All that the parser holds: the pending blocks, the top block with the statement it is reading, and the set of
      all their objects. */
  datatype Progress = Progress(p: Pending, top: NginxConfig, done: seq<Node>, r: Reading, reach: set<object>)

  ghost function Reached(g: Progress): set<object> {
    PendingFootprint(g.p) + TopFootprint(g.top, g.done, g.r)
  }

  ghost predicate HoldsAll(g: Progress)
    reads g.reach
  {
    && g.reach == Reached(g)
    && PendingFootprint(g.p) !! TopFootprint(g.top, g.done, g.r)
    && HoldsPending(g.p, g.top)
    && HoldsTop(g.top, g.done, g.r)
  }

  ghost function ZipperValue(g: Progress): Zipper {
    Zipper(StackValue(g.p), Value(g.done), Header(g.r))
  }

  /** The source's config_stack. */
  ghost function StackOf(g: Progress): seq<NginxConfig> {
    Pointers(g.p) + [g.top]
  }

  /** Each config on the stack is the child block of the last statement of the config below it. */
  lemma {:induction false} StackIsZipper(p: Pending, top: NginxConfig, i: nat)
    requires HoldsPending(p, top) && i < |Pointers(p)|
    ensures var c, up := Pointers(p)[i], (Pointers(p) + [top])[i + 1];
            c.statements != [] && c.statements[|c.statements| - 1].childBlock == up
  {
    if i < |Pointers(p.below)| {
      StackIsZipper(p.below, p.config, i);
    }
  }

  // ---- Finishing statements and blocks ----

  lemma Snoc(nodes: seq<Node>, n: Node)
    ensures Value(nodes + [n]) == Value(nodes) + [ValueOf(n)]
    ensures Objects(nodes + [n]) == Objects(nodes) + [n.stmt]
    ensures Footprint(nodes + [n]) == Footprint(nodes) + FootprintOf(n)
    ensures Holds(nodes + [n]) <==> Footprint(nodes) !! FootprintOf(n) && Holds(nodes) && HoldsOne(n)
  {
    assert (nodes + [n])[..|nodes + [n]| - 1] == nodes;
  }

  ghost function Finished(g: Progress): Progress
    requires g.r.Reading?
  {
    Progress(g.p, g.top, g.done + [Leaf(g.r.stmt, g.r.tokens)], Nothing, g.reach)
  }

  /** At ';' the statement being read joins the finished ones. */
  lemma Finish(g: Progress)
    requires HoldsAll(g) && g.r.Reading?
    ensures HoldsAll(Finished(g))
    ensures Value(Finished(g).done) == Value(g.done) + [Simple(g.r.tokens)]
  {
    Snoc(g.done, Leaf(g.r.stmt, g.r.tokens));
  }

  ghost function Closed(g: Progress): Progress
    requires g.p.Above?
  {
    Progress(g.p.below, g.p.config, g.p.done + [Branch(g.p.stmt, g.p.tokens, g.top, g.done)], Nothing, g.reach)
  }

  /** At '}' the top block becomes the child of the pending statement below. */
  lemma Close(g: Progress)
    requires HoldsAll(g) && g.p.Above? && g.r.Nothing?
    ensures HoldsAll(Closed(g))
    ensures Value(Closed(g).done) == Value(g.p.done) + [Block(g.p.tokens, Value(g.done))]
  {
    Snoc(g.p.done, Branch(g.p.stmt, g.p.tokens, g.top, g.done));
  }

  /** Whatever the parser holds is a tree below the config it was given. */
  lemma {:induction false} CloseAll(g: Progress) returns (nodes: seq<Node>)
    requires HoldsAll(g) && g.r.Nothing?
    ensures Represents(RootOf(g.p, g.top), nodes)
    ensures Value(nodes) == Plug(StackValue(g.p), Value(g.done))
    ensures {RootOf(g.p, g.top)} + Footprint(nodes) == g.reach
    decreases g.p
  {
    if g.p.Root? {
      nodes := g.done;
    } else {
      Close(g);
      nodes := CloseAll(Closed(g));
    }
  }

  lemma PlugAll(g: Progress) returns (nodes: seq<Node>)
    requires HoldsAll(g)
    requires g.r.Reading? ==> g.r.tokens != []
    ensures Represents(RootOf(g.p, g.top), nodes)
    ensures Value(nodes) == Plug(StackValue(g.p), TopBlock(ZipperValue(g)))
    ensures {RootOf(g.p, g.top)} + Footprint(nodes) == g.reach
  {
    if g.r.Nothing? {
      nodes := CloseAll(g);
    } else {
      Finish(g);
      nodes := CloseAll(Finished(g));
    }
  }

  // ---- No stream is part of a config ----

  lemma {:induction false} OnlyConfigs(nodes: seq<Node>, x: object)
    requires !(x is NginxConfig) && !(x is NginxConfigStatement)
    ensures x !in Footprint(nodes)
    decreases nodes
  {
    if nodes != [] {
      var n := nodes[|nodes| - 1];
      OnlyConfigs(nodes[..|nodes| - 1], x);
      if n.Branch? {
        OnlyConfigs(n.body, x);
      }
    }
  }

  // ---- One statement of a finished tree ----

  lemma {:induction false} At(nodes: seq<Node>, i: nat)
    requires Holds(nodes) && i < |nodes|
    ensures HoldsOne(nodes[i]) && Objects(nodes)[i] == nodes[i].stmt && Value(nodes)[i] == ValueOf(nodes[i])
    ensures FootprintOf(nodes[i]) <= Footprint(nodes)
    decreases |nodes|
  {
    if i < |nodes| - 1 {
      At(nodes[..|nodes| - 1], i);
    }
  }
}
