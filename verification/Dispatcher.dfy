/**
 Routing (src/request_handler_dispatcher.cc): the handlers registered from the config, and the one that a target
 is given to.
 */
module Dispatcher {
  import opened Options
  import opened ConfigTree
  import opened ConfigObjects

  datatype Handler =
    | StaticHandler(root: string, path: string)
    | EchoHandler
    | ApiHandler(root: string, path: string)
    | HealthHandler
    | SleepHandler
    | NotFoundHandler

  // ---- Trailing slashes ----

  predicate IsNormal(path: string) {
    |path| <= 1 || path[|path| - 1] != '/'
  }

  /** Slashes at the end go, all but one that stands alone. */
  function Normalise(path: string): (n: string)
    ensures IsNormal(n) && n <= path && (path != "" ==> n != "")
  {
    if IsNormal(path) then path else Normalise(path[..|path| - 1])
  }

  predicate AllSlashes(s: string) {
    forall i :: 0 <= i < |s| ==> s[i] == '/'
  }

  /** More slashes at the end of a path make no difference. */
  lemma {:induction false} NormaliseSlashes(path: string, slashes: string)
    requires path != "" && AllSlashes(slashes)
    ensures Normalise(path + slashes) == Normalise(path)
    decreases |slashes|
  {
    if slashes == "" {
      assert path + slashes == path;
    } else {
      var shorter := slashes[..|slashes| - 1];
      assert (path + slashes)[..|path + slashes| - 1] == path + shorter;
      assert (path + slashes)[|path + slashes| - 1] == slashes[|slashes| - 1];
      NormaliseSlashes(path, shorter);
    }
  }

  // ---- Which handler ----

  /** The longest prefix of the target that is a key, looked for from the whole target down. */
  ghost function Longest(handlers: map<string, Handler>, uri: string): Option<string> {
    if uri == "" then None
    else if uri in handlers then Some(uri)
    else Longest(handlers, uri[..|uri| - 1])
  }

  ghost predicate Matches(handlers: map<string, Handler>, uri: string, key: string) {
    key in handlers && key != "" && key <= uri
  }

  /** `Longest` finds the one key that is a prefix and as long as any other. */
  lemma {:induction false} LongestIff(handlers: map<string, Handler>, uri: string, key: string)
    ensures Longest(handlers, uri) == Some(key)
            <==> Matches(handlers, uri, key) && forall k :: Matches(handlers, uri, k) ==> |k| <= |key|
    ensures Longest(handlers, uri) == None <==> forall k :: !Matches(handlers, uri, k)
    decreases |uri|
  {
    if uri != "" {
      if uri in handlers {
        assert Matches(handlers, uri, uri);
        assert forall k :: Matches(handlers, uri, k) && |k| == |uri| ==> k == uri;
      } else {
        var shorter := uri[..|uri| - 1];
        assert forall k :: Matches(handlers, uri, k) <==> Matches(handlers, shorter, k) by {
          forall k | Matches(handlers, uri, k)
            ensures Matches(handlers, shorter, k)
          {
            assert k == uri[..|k|] && k != uri;
          }
        }
        LongestIff(handlers, shorter, key);
      }
    }
  }

  ghost function HandlerFor(handlers: map<string, Handler>, target: string): Option<Handler> {
    var key := Longest(handlers, Normalise(target));
    if key.Some? && key.value in handlers then Some(handlers[key.value]) else None
  }

  /** With a handler for "/", every target that starts with a slash has a handler. */
  lemma RootCatchesAll(handlers: map<string, Handler>, target: string)
    requires "/" in handlers && "/" <= target
    ensures HandlerFor(handlers, target).Some?
  {
    var uri := Normalise(target);
    assert "/" <= uri;
    assert Matches(handlers, uri, "/");
    LongestIff(handlers, uri, "/");
    if Longest(handlers, uri).Some? {
      LongestIff(handlers, uri, Longest(handlers, uri).value);
    }
  }

  // ---- Registration ----

  /** The last two-token `root` statement, "/" if there is none. */
  function RootSetting(ts: seq<Stmt>, root: string): string {
    if ts == [] then root
    else RootSetting(ts[1..], if |ts[0].tokens| == 2 && ts[0].tokens[0] == "root" then ts[0].tokens[1] else root)
  }

  function MakeHandler(path: string, kind: string, body: seq<Stmt>): Option<Handler> {
    if kind == "StaticHandler" then Some(StaticHandler(RootSetting(body, "/"), path))
    else if kind == "EchoHandler" then Some(EchoHandler)
    else if kind == "APIHandler" then Some(ApiHandler(RootSetting(body, "/"), path))
    else if kind == "HealthHandler" then Some(HealthHandler)
    else if kind == "SleepHandler" then Some(SleepHandler)
    else None
  }

  predicate IsLocation(t: Stmt) {
    t.tokens != [] && t.tokens[0] == "location"
  }

  /** What the source dereferences of a statement in the server block. */
  predicate UsableLocation(t: Stmt) {
    t.tokens != [] && (IsLocation(t) ==> |t.tokens| >= 3 && t.Block? && WellFormed(t.body))
  }

  function Path(t: Stmt): string
    requires IsLocation(t) && UsableLocation(t)
  {
    Normalise(t.tokens[1])
  }

  function HandlerOf(t: Stmt): Option<Handler>
    requires IsLocation(t) && UsableLocation(t)
  {
    MakeHandler(Path(t), t.tokens[2], t.body)
  }

  predicate UsableServer(ts: seq<Stmt>) {
    forall i :: 0 <= i < |ts| ==> UsableLocation(ts[i])
  }

  /** A location counts if its path is free and its type is known. */
  function Register(handlers: map<string, Handler>, t: Stmt): map<string, Handler>
    requires UsableLocation(t)
  {
    if IsLocation(t) && Path(t) !in handlers && HandlerOf(t).Some? then handlers[Path(t) := HandlerOf(t).value]
    else handlers
  }

  function RegisterAll(handlers: map<string, Handler>, ts: seq<Stmt>): map<string, Handler>
    requires UsableServer(ts)
    decreases |ts|
  {
    if ts == [] then handlers else RegisterAll(Register(handlers, ts[0]), ts[1..])
  }

  predicate IsServer(t: Stmt) {
    t.tokens == ["server"]
  }

  /** What the source dereferences up to the first one-token `server` statement. */
  predicate UsableConfig(ts: seq<Stmt>) {
    ts == [] ||
    (ts[0].tokens != [] && if IsServer(ts[0]) then ts[0].Block? && UsableServer(ts[0].body) else UsableConfig(ts[1..]))
  }

  function ServerBlock(ts: seq<Stmt>): seq<Stmt>
    requires UsableConfig(ts)
    ensures UsableServer(ServerBlock(ts))
  {
    if ts == [] then [] else if IsServer(ts[0]) then ts[0].body else ServerBlock(ts[1..])
  }

  lemma NextServer(ts: seq<Stmt>, i: nat)
    requires i < |ts| && UsableConfig(ts[i..])
    ensures ts[i].tokens != []
    ensures IsServer(ts[i]) ==> ts[i].Block? && ServerBlock(ts[i..]) == ts[i].body && UsableServer(ts[i].body)
    ensures !IsServer(ts[i]) ==> UsableConfig(ts[i + 1..]) && ServerBlock(ts[i + 1..]) == ServerBlock(ts[i..])
  {
    assert ts[i..][1..] == ts[i + 1..] && ts[i..][0] == ts[i];
  }

  lemma StatementAt(config: NginxConfig, nodes: seq<Node>, i: nat)
    requires Represents(config, nodes) && i < |nodes|
    ensures |config.statements| == |nodes| && config.statements[i] in Footprint(nodes)
    ensures config.statements[i].tokens == Value(nodes)[i].tokens
    ensures Value(nodes)[i].Block? ==>
              && nodes[i].Branch? && config.statements[i].childBlock == nodes[i].config
              && Represents(nodes[i].config, nodes[i].body) && Value(nodes)[i].body == Value(nodes[i].body)
              && Footprint(nodes[i].body) <= Footprint(nodes)
  {
    At(nodes, i);
    assert nodes[i].stmt in FootprintOf(nodes[i]);
  }

  /** The map after `initRequestHandlers`. */
  function Initialised(handlers: map<string, Handler>, ts: seq<Stmt>): map<string, Handler>
    requires UsableConfig(ts)
  {
    var h := RegisterAll(handlers, ServerBlock(ts));
    if "/" in h then h else h["/" := NotFoundHandler]
  }

  // ---- What registration leaves behind ----

  predicate Offers(t: Stmt, path: string) {
    UsableLocation(t) && IsLocation(t) && Path(t) == path && HandlerOf(t).Some?
  }

  ghost predicate FirstOffer(ts: seq<Stmt>, i: int, path: string) {
    0 <= i < |ts| && Offers(ts[i], path) && forall j :: 0 <= j < i ==> !Offers(ts[j], path)
  }

  /** A path taken before keeps its handler; any other gets that of the first location with this path and a known
      type, if there is one. */
  lemma {:induction false} RegisterAllIff(handlers: map<string, Handler>, ts: seq<Stmt>, path: string)
    requires UsableServer(ts)
    ensures var h := RegisterAll(handlers, ts);
            && (path in handlers ==> path in h && h[path] == handlers[path])
            && (path !in handlers ==>
                  if path in h then exists i :: FirstOffer(ts, i, path) && Some(h[path]) == HandlerOf(ts[i])
                  else forall i :: 0 <= i < |ts| ==> !Offers(ts[i], path))
    decreases |ts|
  {
    if ts != [] {
      var h1, rest := Register(handlers, ts[0]), ts[1..];
      RegisterAllIff(h1, rest, path);
      var h := RegisterAll(h1, rest);
      if path !in handlers && path in h {
        if Offers(ts[0], path) {
          assert FirstOffer(ts, 0, path);
        } else {
          var i :| FirstOffer(rest, i, path) && Some(h[path]) == HandlerOf(rest[i]);
          assert FirstOffer(ts, i + 1, path);
        }
      } else if path !in handlers {
        assert !Offers(ts[0], path);
      }
    }
  }

  lemma {:induction false} KeysStayNormal(handlers: map<string, Handler>, ts: seq<Stmt>)
    requires UsableServer(ts) && forall k :: k in handlers ==> IsNormal(k)
    ensures forall k :: k in RegisterAll(handlers, ts) ==> IsNormal(k)
    decreases |ts|
  {
    if ts != [] {
      KeysStayNormal(Register(handlers, ts[0]), ts[1..]);
    }
  }

  /** After initialisation every key is normal, and every target that starts with a slash has a handler, the same
      with any number of slashes after it. */
  lemma InitialisedServesAll(ts: seq<Stmt>, target: string, slashes: string)
    requires UsableConfig(ts) && "/" <= target && AllSlashes(slashes)
    ensures var h := Initialised(map[], ts);
            && (forall k :: k in h ==> IsNormal(k))
            && HandlerFor(h, target).Some? && HandlerFor(h, target + slashes) == HandlerFor(h, target)
  {
    KeysStayNormal(map[], ServerBlock(ts));
    RootCatchesAll(Initialised(map[], ts), target);
    NormaliseSlashes(target, slashes);
  }

  // ---- The code ----

  class RequestHandlerDispatcher {
    var handlers: map<string, Handler>

    constructor ()
      ensures handlers == map[]
    {
      handlers := map[];
    }

    /** The keys are taken in any order. */
    method GetRequestHandler(target: string) returns (handler: Option<Handler>)
      ensures handler == HandlerFor(handlers, target)
    {
      var uri := target;
      while |uri| > 1 && uri[|uri| - 1] == '/'
        invariant Normalise(uri) == Normalise(target)
      {
        uri := uri[..|uri| - 1];
      }
      var matched := "";
      handler := None;
      var rest := handlers.Keys;
      while rest != {}
        invariant rest <= handlers.Keys
        invariant if matched == "" then handler == None else Matches(handlers, uri, matched) && handler == Some(handlers[matched])
        invariant forall k :: Matches(handlers, uri, k) && k !in rest ==> |k| <= |matched|
        decreases |rest|
      {
        var key :| key in rest;
        if |key| <= |uri| && uri[..|key|] == key {
          if |key| > |matched| {
            matched := key;
            handler := Some(handlers[key]);
          }
        }
        rest := rest - {key};
      }
      LongestIff(handlers, uri, matched);
    }

    method RegisterPath(pathUri: string, kind: string, config: NginxConfig, ghost nodes: seq<Node>, ghost reach: set<object>)
      returns (done: bool)
      requires Represents(config, nodes) && Footprint(nodes) <= reach && WellFormed(Value(nodes))
      modifies this
      ensures var path := Normalise(pathUri);
              var handler := MakeHandler(path, kind, Value(nodes));
              && (done <==> path !in old(handlers) && handler.Some?)
              && handlers == if done then old(handlers)[path := handler.value] else old(handlers)
    {
      var path := pathUri;
      while |path| > 1 && path[|path| - 1] == '/'
        invariant Normalise(path) == Normalise(pathUri)
      {
        path := path[..|path| - 1];
      }
      if path in handlers {
        return false;
      }
      if kind == "StaticHandler" {
        var root := FindRoot(config, nodes, reach);
        handlers := handlers[path := StaticHandler(root, path)];
      } else if kind == "EchoHandler" {
        handlers := handlers[path := EchoHandler];
      } else if kind == "APIHandler" {
        var root := FindRoot(config, nodes, reach);
        handlers := handlers[path := ApiHandler(root, path)];
      } else if kind == "HealthHandler" {
        handlers := handlers[path := HealthHandler];
      } else if kind == "SleepHandler" {
        handlers := handlers[path := SleepHandler];
      } else {
        return false;
      }
      return true;
    }

    /** The loop that the source repeats for both handlers with a root. */
    method FindRoot(config: NginxConfig, ghost nodes: seq<Node>, ghost reach: set<object>) returns (root: string)
      requires Represents(config, nodes) && Footprint(nodes) <= reach && WellFormed(Value(nodes))
      ensures root == RootSetting(Value(nodes), "/")
    {
      root := "/";
      ghost var ts := Value(nodes);
      for i := 0 to |config.statements|
        invariant Represents(config, nodes) && WellFormed(ts[i..])
        invariant RootSetting(ts[i..], root) == RootSetting(ts, "/")
      {
        At(nodes, i);
        assert ts[i..][1..] == ts[i + 1..];
        var statement := config.statements[i];
        if statement.tokens[0] == "root" && |statement.tokens| == 2 {
          root := statement.tokens[1];
        }
      }
    }

    method RegisterLocations(block: NginxConfig, ghost nodes: seq<Node>, ghost reach: set<object>) returns (numRegistered: nat)
      requires Represents(block, nodes) && Footprint(nodes) <= reach && UsableServer(Value(nodes))
      modifies this
      ensures handlers == RegisterAll(old(handlers), Value(nodes))
      ensures |handlers| == |old(handlers)| + numRegistered
    {
      OnlyConfigs(nodes, this);
      numRegistered := 0;
      ghost var ts := Value(nodes);
      for i := 0 to |block.statements|
        invariant Represents(block, nodes)
        invariant RegisterAll(handlers, ts[i..]) == RegisterAll(old(handlers), ts)
        invariant |handlers| == |old(handlers)| + numRegistered
      {
        At(nodes, i);
        assert ts[i..][1..] == ts[i + 1..] && ts[i..][0] == ts[i];
        var child := block.statements[i];
        if child.tokens[0] == "location" {
          var done := RegisterPath(child.tokens[1], child.tokens[2], child.childBlock, nodes[i].body, reach);
          if done {
            numRegistered := numRegistered + 1;
          }
        }
      }
    }

    /** The loop over the top level: the locations of the first one-token server block. */
    method RegisterServer(config: NginxConfig, ghost nodes: seq<Node>, ghost reach: set<object>)
      returns (numRegistered: nat)
      requires Represents(config, nodes) && Footprint(nodes) <= reach && UsableConfig(Value(nodes))
      modifies this
      ensures handlers == RegisterAll(old(handlers), ServerBlock(Value(nodes)))
      ensures |handlers| == |old(handlers)| + numRegistered
    {
      OnlyConfigs(nodes, this);
      ghost var ts := Value(nodes);
      for i := 0 to |config.statements|
        invariant Represents(config, nodes) && handlers == old(handlers)
        invariant UsableConfig(ts[i..]) && ServerBlock(ts[i..]) == ServerBlock(ts)
      {
        StatementAt(config, nodes, i);
        NextServer(ts, i);
        var statement := config.statements[i];
        if statement.tokens[0] == "server" {
          if |statement.tokens| != 1 {
            assert !IsServer(ts[i]);
            continue;
          }
          assert IsServer(ts[i]);
          numRegistered := RegisterLocations(statement.childBlock, nodes[i].body, reach);
          return;
        }
      }
      return 0;
    }

    method InitRequestHandlers(config: NginxConfig, ghost nodes: seq<Node>, ghost reach: set<object>)
      returns (numRegistered: nat)
      requires Represents(config, nodes) && Footprint(nodes) <= reach && UsableConfig(Value(nodes))
      modifies this
      ensures handlers == Initialised(old(handlers), Value(nodes))
      ensures numRegistered == |RegisterAll(old(handlers), ServerBlock(Value(nodes)))| - |old(handlers)|
    {
      numRegistered := RegisterServer(config, nodes, reach);
      if "/" !in handlers {
        handlers := handlers["/" := NotFoundHandler];
      }
    }
  }
}
