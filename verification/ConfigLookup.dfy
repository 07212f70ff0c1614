/**
 `get_config_port`, `get_auth_time` and `get_credentials` (src/config_parser.cc:275-343): the loops over the objects,
 and which statement of a nested config they find.
 */
module ConfigLookup {
  import opened Options
  import opened Text
  import opened ConfigTree
  import opened ConfigObjects

  // ---- Numbers: `port` and `timer` ----

  predicate InRange(n: int) {
    0 <= n <= 0xffff
  }

  predicate Names(t: Stmt, name: string) {
    t.Simple? && |t.tokens| == 2 && t.tokens[0] == name
  }

  /** The value of the first childless two-token statement of that name. */
  function First(name: string, ts: seq<Stmt>): Option<int> {
    if ts == [] then None
    else if Names(ts[0], name) then Some(Atoi(ts[0].tokens[1]))
    else First(name, ts[1..])
  }

  function Lookup(name: string, ts: seq<Stmt>): (n: int)
    ensures n == -1 || InRange(n)
    decreases ts, 1
  {
    match First(name, ts)
    case Some(n) => if InRange(n) then n else -1
    case None => LookupBelow(name, ts)
  }

  function LookupBelow(name: string, ts: seq<Stmt>): (n: int)
    ensures n == -1 || InRange(n)
    decreases ts, 0
  {
    if ts == [] then -1
    else
      var n := if ts[0].Block? then Lookup(name, ts[0].body) else -1;
      if n != -1 then n else LookupBelow(name, ts[1..])
  }

  /** The source has this function twice, for "port" and for "timer". */
  method GetNumber(config: NginxConfig, name: string, ghost nodes: seq<Node>, ghost reach: set<object>) returns (n: int)
    requires Represents(config, nodes) && Footprint(nodes) <= reach
    ensures n == Lookup(name, Value(nodes))
    decreases nodes
  {
    ghost var ts := Value(nodes);
    for i := 0 to |config.statements|
      invariant Represents(config, nodes)
      invariant First(name, ts[i..]) == First(name, ts)
    {
      At(nodes, i);
      assert ts[i..][1..] == ts[i + 1..];
      var stmt := config.statements[i];
      if stmt.childBlock == null {
        if |stmt.tokens| == 2 && stmt.tokens[0] == name {
          n := Atoi(stmt.tokens[1]);
          return if n >= 0 && n <= 0xffff then n else -1;
        }
      }
    }
    for i := 0 to |config.statements|
      invariant Represents(config, nodes)
      invariant LookupBelow(name, ts[i..]) == LookupBelow(name, ts)
    {
      At(nodes, i);
      assert ts[i..][1..] == ts[i + 1..];
      var stmt := config.statements[i];
      if stmt.childBlock != null {
        n := GetNumber(stmt.childBlock, name, nodes[i].body, reach);
        if n != -1 {
          return n;
        }
      }
    }
    return -1;
  }

  // ---- Which block answers ----

  /** The block reached through the child blocks of the statements with these indexes. */
  ghost function BlockAt(ts: seq<Stmt>, path: seq<nat>): Option<seq<Stmt>>
    decreases |path|
  {
    if path == [] then Some(ts)
    else if path[0] < |ts| && ts[path[0]].Block? then BlockAt(ts[path[0]].body, path[1..])
    else None
  }

  /** A block that would answer: its first value is in range, and no block around it has one at all. */
  ghost predicate Answers(name: string, ts: seq<Stmt>, path: seq<nat>, n: int)
    decreases |path|
  {
    if path == [] then First(name, ts) == Some(n) && InRange(n)
    else First(name, ts) == None && path[0] < |ts| && ts[path[0]].Block? && Answers(name, ts[path[0]].body, path[1..], n)
  }

  /** `Answers` read through block addresses. */
  lemma {:induction false} AnswersIff(name: string, ts: seq<Stmt>, path: seq<nat>, n: int)
    ensures Answers(name, ts, path, n) <==>
              && InRange(n)
              && BlockAt(ts, path).Some? && First(name, BlockAt(ts, path).value) == Some(n)
              && forall k :: 0 <= k < |path| ==> BlockAt(ts, path[..k]).Some? && First(name, BlockAt(ts, path[..k]).value) == None
    decreases |path|
  {
    if path != [] {
      assert BlockAt(ts, path[..0]) == Some(ts);
      if path[0] < |ts| && ts[path[0]].Block? {
        var body := ts[path[0]].body;
        AnswersIff(name, body, path[1..], n);
        forall k | 0 < k <= |path|
          ensures BlockAt(ts, path[..k]) == BlockAt(body, path[1..][..k - 1])
        {
          assert path[..k][1..] == path[1..][..k - 1];
        }
        assert path[..|path|] == path && path[1..][..|path| - 1] == path[1..];
        assert forall k :: 0 <= k < |path| - 1 ==> BlockAt(body, path[1..][..k]) == BlockAt(ts, path[..k + 1]);
      }
    }
  }

  /** Earlier in the file: at the first difference the smaller index. */
  predicate Before(p: seq<nat>, q: seq<nat>) {
    p != [] && q != [] && (p[0] < q[0] || (p[0] == q[0] && Before(p[1..], q[1..])))
  }

  lemma {:induction false} FindAnswer(name: string, ts: seq<Stmt>) returns (path: seq<nat>)
    ensures Lookup(name, ts) != -1 ==> Answers(name, ts, path, Lookup(name, ts))
    ensures forall p: seq<nat>, n :: Answers(name, ts, p, n) ==> Lookup(name, ts) != -1 && (p == path || Before(path, p))
    decreases ts, 1
  {
    path := [];
    if First(name, ts) == None {
      var i := 0;
      while i < |ts| && (ts[i].Simple? || Lookup(name, ts[i].body) == -1)
        invariant 0 <= i <= |ts| && LookupBelow(name, ts[i..]) == LookupBelow(name, ts)
        invariant forall p: seq<nat>, n :: Answers(name, ts, p, n) ==> p != [] && i <= p[0]
      {
        assert ts[i..][1..] == ts[i + 1..];
        if ts[i].Block? {
          var _ := FindAnswer(name, ts[i].body);
        }
        i := i + 1;
      }
      if i < |ts| {
        var rest := FindAnswer(name, ts[i].body);
        path := [i] + rest;
        assert path[1..] == rest;
        forall p: seq<nat>, n | Answers(name, ts, p, n)
          ensures p == path || Before(path, p)
        {
          assert p != [] && i <= p[0] && p == [p[0]] + p[1..];
          assert p[0] == i ==> Answers(name, ts[i].body, p[1..], n);
        }
      }
    }
  }

  /** The block at `path` answers n, and every other block that would answer comes later in the file. */
  ghost predicate FirstAnswer(name: string, ts: seq<Stmt>, path: seq<nat>, n: int) {
    Answers(name, ts, path, n) && forall p: seq<nat>, m :: Answers(name, ts, p, m) ==> p == path || Before(path, p)
  }

  ghost predicate Answered(name: string, ts: seq<Stmt>) {
    exists p: seq<nat>, m :: Answers(name, ts, p, m)
  }

  /** The lookup returns n exactly when n is the first answer; -1 means that no block would answer. */
  lemma LookupIff(name: string, ts: seq<Stmt>, n: int)
    ensures Lookup(name, ts) == n && n != -1 <==> exists path: seq<nat> :: FirstAnswer(name, ts, path, n)
    ensures Lookup(name, ts) == -1 <==> !Answered(name, ts)
  {
    var path := FindAnswer(name, ts);
    if Lookup(name, ts) != -1 {
      assert Answered(name, ts) && FirstAnswer(name, ts, path, Lookup(name, ts));
    }
    forall p: seq<nat> | FirstAnswer(name, ts, p, n)
      ensures Lookup(name, ts) == n && n != -1
    {
      NotBoth(p, path);
      OneAnswer(name, ts, path, Lookup(name, ts), n);
      AnswersIff(name, ts, p, n);
    }
  }

  lemma {:induction false} NotBoth(p: seq<nat>, q: seq<nat>)
    ensures !(Before(p, q) && Before(q, p))
    decreases |p|
  {
    if p != [] && q != [] {
      NotBoth(p[1..], q[1..]);
    }
  }

  lemma {:induction false} OneAnswer(name: string, ts: seq<Stmt>, p: seq<nat>, m: int, n: int)
    requires Answers(name, ts, p, m)
    ensures Answers(name, ts, p, n) ==> m == n
    decreases |p|
  {
    if p != [] {
      OneAnswer(name, ts[p[0]].body, p[1..], m, n);
    }
  }

  // ---- What the source's comment promises ----

  /** The value of the first childless two-token statement of that name whose value is in range. */
  function FirstValid(name: string, ts: seq<Stmt>): Option<int> {
    if ts == [] then None
    else if Names(ts[0], name) && InRange(Atoi(ts[0].tokens[1])) then Some(Atoi(ts[0].tokens[1]))
    else FirstValid(name, ts[1..])
  }

  /** The block at `path` has first valid value n, and no block around it has a valid one. */
  ghost predicate Outermost(name: string, ts: seq<Stmt>, path: seq<nat>, n: int) {
    && BlockAt(ts, path).Some? && FirstValid(name, BlockAt(ts, path).value) == Some(n)
    && forall k :: 0 <= k < |path| ==> BlockAt(ts, path[..k]).Some? && FirstValid(name, BlockAt(ts, path[..k]).value) == None
  }

  /** "The first outer-most valid one if there are many": n, at `path`. */
  ghost predicate Promised(name: string, ts: seq<Stmt>, path: seq<nat>, n: int) {
    Outermost(name, ts, path, n) && forall p: seq<nat>, m :: Outermost(name, ts, p, m) ==> p == path || Before(path, p)
  }

  ghost predicate AnyValid(name: string, ts: seq<Stmt>) {
    exists p: seq<nat>, m :: Outermost(name, ts, p, m)
  }

  /** The first statement of that name, if there is one, has a valid value. */
  ghost predicate NotInvalid(name: string, block: Option<seq<Stmt>>) {
    block.Some? ==> First(name, block.value) == None || InRange(First(name, block.value).value)
  }

  lemma {:induction false} FirstAndValid(name: string, ts: seq<Stmt>)
    ensures First(name, ts) == None ==> FirstValid(name, ts) == None
    ensures First(name, ts).Some? && InRange(First(name, ts).value) ==> FirstValid(name, ts) == First(name, ts)
    ensures FirstValid(name, ts).Some? ==> InRange(FirstValid(name, ts).value)
  {
    if ts != [] {
      FirstAndValid(name, ts[1..]);
    }
  }

  lemma AnswerIsOutermost(name: string, ts: seq<Stmt>, path: seq<nat>, n: int)
    requires Answers(name, ts, path, n)
    ensures Outermost(name, ts, path, n)
  {
    AnswersIff(name, ts, path, n);
    FirstAndValid(name, BlockAt(ts, path).value);
    forall k | 0 <= k < |path|
      ensures BlockAt(ts, path[..k]).Some? && FirstValid(name, BlockAt(ts, path[..k]).value) == None
    {
      FirstAndValid(name, BlockAt(ts, path[..k]).value);
    }
  }

  lemma OutermostAnswers(name: string, ts: seq<Stmt>, path: seq<nat>, n: int)
    requires Outermost(name, ts, path, n)
    requires forall k :: 0 <= k <= |path| ==> NotInvalid(name, BlockAt(ts, path[..k]))
    ensures Answers(name, ts, path, n)
  {
    assert path[..|path|] == path;
    FirstAndValid(name, BlockAt(ts, path).value);
    forall k | 0 <= k < |path|
      ensures BlockAt(ts, path[..k]).Some? && First(name, BlockAt(ts, path[..k]).value) == None
    {
      FirstAndValid(name, BlockAt(ts, path[..k]).value);
      assert NotInvalid(name, BlockAt(ts, path[..k]));
    }
    AnswersIff(name, ts, path, n);
  }

  /**
   The lookup takes the promised value from the promised place exactly when, from the outermost block down to that place,
   no block's first statement of that name has a value out of range.
   */
  lemma PromisedIff(name: string, ts: seq<Stmt>, path: seq<nat>, n: int)
    requires Promised(name, ts, path, n)
    ensures FirstAnswer(name, ts, path, n) <==> forall k :: 0 <= k <= |path| ==> NotInvalid(name, BlockAt(ts, path[..k]))
  {
    forall p: seq<nat>, m | Answers(name, ts, p, m)
      ensures p == path || Before(path, p)
    {
      AnswerIsOutermost(name, ts, p, m);
    }
    if forall k :: 0 <= k <= |path| ==> NotInvalid(name, BlockAt(ts, path[..k])) {
      OutermostAnswers(name, ts, path, n);
    }
    if FirstAnswer(name, ts, path, n) {
      AnswersIff(name, ts, path, n);
      assert path[..|path|] == path;
    }
  }

  lemma OutermostBelow(name: string, ts: seq<Stmt>, path: seq<nat>, n: int)
    requires path != []
    ensures Outermost(name, ts, path, n) <==>
              && FirstValid(name, ts) == None && path[0] < |ts| && ts[path[0]].Block?
              && Outermost(name, ts[path[0]].body, path[1..], n)
  {
    assert BlockAt(ts, path[..0]) == Some(ts);
    if path[0] < |ts| && ts[path[0]].Block? {
      var body := ts[path[0]].body;
      forall k | 0 < k <= |path|
        ensures BlockAt(ts, path[..k]) == BlockAt(body, path[1..][..k - 1])
      {
        assert path[..k][1..] == path[1..][..k - 1];
      }
      assert path[..|path|] == path && path[1..][..|path| - 1] == path[1..];
      assert forall k :: 0 <= k < |path| - 1 ==> BlockAt(body, path[1..][..k]) == BlockAt(ts, path[..k + 1]);
    }
  }

  /** The promise names one place whenever there is a valid value at all. */
  lemma {:induction false} SomePromised(name: string, ts: seq<Stmt>) returns (path: seq<nat>, n: int)
    ensures Promised(name, ts, path, n) || !AnyValid(name, ts)
    decreases ts
  {
    path, n := [], 0;
    if FirstValid(name, ts).Some? {
      n := FirstValid(name, ts).value;
      forall p: seq<nat>, m | Outermost(name, ts, p, m)
        ensures p == []
      {
        if p != [] {
          OutermostBelow(name, ts, p, m);
        }
      }
      assert Outermost(name, ts, [], n);
    } else {
      var i := 0;
      while i < |ts|
        invariant 0 <= i <= |ts|
        invariant forall p: seq<nat>, m :: Outermost(name, ts, p, m) ==> p != [] && i <= p[0]
      {
        if ts[i].Block? && AnyValid(name, ts[i].body) {
          var rest;
          rest, n := SomePromised(name, ts[i].body);
          path := [i] + rest;
          FoundBelow(name, ts, i, rest, n);
          return;
        }
        forall p: seq<nat>, m | Outermost(name, ts, p, m)
          ensures p != [] && i + 1 <= p[0]
        {
          OutermostBelow(name, ts, p, m);
        }
        i := i + 1;
      }
      forall p: seq<nat>, m | Outermost(name, ts, p, m)
        ensures false
      {
        OutermostBelow(name, ts, p, m);
      }
    }
  }

  lemma FoundBelow(name: string, ts: seq<Stmt>, i: nat, rest: seq<nat>, n: int)
    requires i < |ts| && ts[i].Block? && FirstValid(name, ts) == None && Promised(name, ts[i].body, rest, n)
    requires forall p: seq<nat>, m :: Outermost(name, ts, p, m) ==> p != [] && i <= p[0]
    ensures Promised(name, ts, [i] + rest, n)
  {
    var path := [i] + rest;
    assert path[1..] == rest;
    OutermostBelow(name, ts, path, n);
    forall p: seq<nat>, m | Outermost(name, ts, p, m)
      ensures p == path || Before(path, p)
    {
      OutermostBelow(name, ts, p, m);
      assert p == [p[0]] + p[1..];
    }
  }

  /** "-1 on error": without a valid value anywhere the lookup returns -1. */
  lemma NoneIsMinusOne(name: string, ts: seq<Stmt>)
    requires !AnyValid(name, ts)
    ensures Lookup(name, ts) == -1
  {
    forall p: seq<nat>, m | Answers(name, ts, p, m)
      ensures false
    {
      AnswerIsOutermost(name, ts, p, m);
    }
    LookupIff(name, ts, -1);
  }

  function Setting(name: string, value: nat): Stmt {
    Simple([name, Decimal(value)])
  }

  lemma SettingValue(name: string, value: nat, rest: seq<Stmt>)
    ensures First(name, [Setting(name, value)] + rest) == Some(value)
    ensures FirstValid(name, [Setting(name, value)] + rest) == if InRange(value) then Some(value) else FirstValid(name, rest)
  {
    AtoiDecimal(value);
    var ts := [Setting(name, value)] + rest;
    assert ts[0] == Setting(name, value) && ts[1..] == rest;
  }

  /** `port 70000; port 80;` is one of the inputs for which the promise is not kept. */
  lemma HiddenBeside()
    ensures var ts := [Setting("port", 70000), Setting("port", 80)];
            Promised("port", ts, [], 80) && Lookup("port", ts) == -1
  {
    var ts := [Setting("port", 70000), Setting("port", 80)];
    assert ts == [ts[0]] + [ts[1]] && [ts[1]] == [ts[1]] + [];
    SettingValue("port", 80, []);
    SettingValue("port", 70000, [ts[1]]);
    assert Outermost("port", ts, [], 80);
    forall p: seq<nat>, m | Outermost("port", ts, p, m)
      ensures p == []
    {
      if p != [] {
        OutermostBelow("port", ts, p, m);
      }
    }
  }

  /** `port 70000; server { port 80; }` is another. */
  lemma HiddenBelow()
    ensures var ts := [Setting("port", 70000), Block(["server"], [Setting("port", 80)])];
            Promised("port", ts, [1], 80) && Lookup("port", ts) == -1
  {
    var inner := [Setting("port", 80)];
    var server := Block(["server"], inner);
    var ts := [Setting("port", 70000), server];
    assert ts == [ts[0]] + [server] && inner == inner + [];
    SettingValue("port", 80, []);
    SettingValue("port", 70000, [server]);
    assert [server][1..] == [];
    assert FirstValid("port", [server]) == None;
    assert [1][1..] == [];
    assert Outermost("port", inner, [], 80);
    OutermostBelow("port", ts, [1], 80);
    forall p: seq<nat>, m | Outermost("port", ts, p, m)
      ensures p == [1]
    {
      OneBlock(ts, p, m, inner);
    }
  }

  lemma OneBlock(ts: seq<Stmt>, p: seq<nat>, m: int, inner: seq<Stmt>)
    requires |ts| == 2 && ts[0].Simple? && ts[1] == Block(["server"], inner) && FirstValid("port", ts) == None
    requires inner == [Setting("port", 80)] && FirstValid("port", inner) == Some(80)
    requires Outermost("port", ts, p, m)
    ensures p == [1]
  {
    assert p != [];
    OutermostBelow("port", ts, p, m);
    if |p| > 1 {
      OutermostBelow("port", inner, p[1..], m);
    }
  }
}
