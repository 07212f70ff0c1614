/** Registration with its words written out: which statement makes which handler, and with which root. */
module DispatcherLaws {
  import opened Options
  import opened ConfigTree
  import opened ConfigLaws
  import opened Dispatcher

  /** The path that is registered or looked up: slashes at its end are gone, but a path of slashes alone keeps one. */
  lemma {:induction false} NormaliseIs(path: string)
    ensures var n := Normalise(path);
            && n <= path && (forall i :: |n| <= i < |path| ==> path[i] == '/')
            && (|n| > 1 ==> n[|n| - 1] != '/') && (n == "" <==> path == "")
    decreases |path|
  {
    if |path| > 1 && path[|path| - 1] == '/' {
      NormaliseIs(path[..|path| - 1]);
    }
  }

  // ---- Roots ----

  predicate IsRoot(t: Stmt) {
    |t.tokens| == 2 && t.tokens[0] == "root"
  }

  /** The second token of the last two-token `root` statement, or "/" without one. */
  ghost predicate RootIs(ts: seq<Stmt>, root: string) {
    || (root == "/" && forall i :: 0 <= i < |ts| ==> !IsRoot(ts[i]))
    || (exists i :: LastRoot(ts, i) && root == ts[i].tokens[1])
  }

  ghost predicate LastRoot(ts: seq<Stmt>, i: int) {
    0 <= i < |ts| && IsRoot(ts[i]) && forall j :: i < j < |ts| ==> !IsRoot(ts[j])
  }

  lemma {:induction false} RootOf(ts: seq<Stmt>, root: string)
    ensures || (RootSetting(ts, root) == root && forall i :: 0 <= i < |ts| ==> !IsRoot(ts[i]))
            || (exists i :: LastRoot(ts, i) && RootSetting(ts, root) == ts[i].tokens[1])
    decreases |ts|
  {
    if ts != [] {
      RootOf(ts[1..], if IsRoot(ts[0]) then ts[0].tokens[1] else root);
      if i :| LastRoot(ts[1..], i) && RootSetting(ts, root) == ts[1..][i].tokens[1] {
        assert LastRoot(ts, i + 1);
      } else if IsRoot(ts[0]) {
        assert LastRoot(ts, 0);
      }
    }
  }

  // ---- Handlers ----

  predicate IsKnown(kind: string) {
    kind in {"StaticHandler", "EchoHandler", "APIHandler", "HealthHandler", "SleepHandler"}
  }

  /** The handler that a type name makes for a path, with the root of the block for the two that have one. */
  ghost predicate Makes(kind: string, path: string, body: seq<Stmt>, h: Handler) {
    match h
    case StaticHandler(root, p) => kind == "StaticHandler" && p == path && RootIs(body, root)
    case EchoHandler => kind == "EchoHandler"
    case ApiHandler(root, p) => kind == "APIHandler" && p == path && RootIs(body, root)
    case HealthHandler => kind == "HealthHandler"
    case SleepHandler => kind == "SleepHandler"
    case NotFoundHandler => false
  }

  lemma MadeIs(path: string, kind: string, body: seq<Stmt>)
    ensures MakeHandler(path, kind, body).Some? <==> IsKnown(kind)
    ensures MakeHandler(path, kind, body).Some? ==> Makes(kind, path, body, MakeHandler(path, kind, body).value)
  {
    RootOf(body, "/");
  }

  /** A location with that path and a known type. */
  predicate Registers(t: Stmt, path: string) {
    |t.tokens| >= 3 && t.tokens[0] == "location" && Normalise(t.tokens[1]) == path && IsKnown(t.tokens[2])
  }

  ghost predicate FirstToRegister(ts: seq<Stmt>, i: int, path: string) {
    0 <= i < |ts| && Registers(ts[i], path) && forall j :: 0 <= j < i ==> !Registers(ts[j], path)
  }

  lemma OffersIff(t: Stmt, path: string)
    requires UsableLocation(t)
    ensures Offers(t, path) <==> Registers(t, path)
    ensures Offers(t, path) ==> t.Block? && Makes(t.tokens[2], path, t.body, HandlerOf(t).value)
  {
    if IsLocation(t) {
      MadeIs(Path(t), t.tokens[2], t.body);
    }
  }

  /** A path has a handler exactly when some location registers it, and it is that which the first of them makes. */
  lemma RegisteredIff(ts: seq<Stmt>, path: string)
    requires UsableServer(ts)
    ensures var h := RegisterAll(map[], ts);
            && (path in h <==> exists i :: FirstToRegister(ts, i, path))
            && (forall i :: FirstToRegister(ts, i, path) ==>
                  path in h && ts[i].Block? && Makes(ts[i].tokens[2], path, ts[i].body, h[path]))
  {
    RegisterAllIff(map[], ts, path);
    var h := RegisterAll(map[], ts);
    forall i | 0 <= i < |ts|
      ensures Offers(ts[i], path) <==> Registers(ts[i], path)
      ensures Offers(ts[i], path) ==> ts[i].Block? && Makes(ts[i].tokens[2], path, ts[i].body, HandlerOf(ts[i]).value)
    {
      OffersIff(ts[i], path);
    }
    if path in h {
      var i :| FirstOffer(ts, i, path) && Some(h[path]) == HandlerOf(ts[i]);
      assert FirstToRegister(ts, i, path);
      assert forall j :: FirstToRegister(ts, j, path) ==> j == i;
    }
  }

  // ---- The server block ----

  ghost predicate IsFirstServer(ts: seq<Stmt>, i: int) {
    0 <= i < |ts| && ts[i].tokens == ["server"] && forall j :: 0 <= j < i ==> ts[j].tokens != ["server"]
  }

  lemma {:induction false} ServerBlockIs(ts: seq<Stmt>)
    requires UsableConfig(ts)
    ensures forall i :: IsFirstServer(ts, i) ==> ts[i].Block? && ServerBlock(ts) == ts[i].body
    ensures (forall i :: 0 <= i < |ts| ==> ts[i].tokens != ["server"]) ==> ServerBlock(ts) == []
    decreases |ts|
  {
    if ts != [] {
      if IsServer(ts[0]) {
        assert IsFirstServer(ts, 0);
        assert forall i :: IsFirstServer(ts, i) ==> i == 0;
      } else {
        ServerBlockIs(ts[1..]);
        forall i | IsFirstServer(ts, i)
          ensures ts[i].Block? && ServerBlock(ts) == ts[i].body
        {
          assert i > 0 && IsFirstServer(ts[1..], i - 1);
        }
      }
    }
  }

  /** After initialisation the paths are those that the locations of the first server block register, and "/", which is
      answered with "not found" unless a location registers it. */
  lemma InitialisedIs(ts: seq<Stmt>, path: string)
    requires UsableConfig(ts)
    ensures var h, block := Initialised(map[], ts), ServerBlock(ts);
            && (path in h <==> path == "/" || exists i :: FirstToRegister(block, i, path))
            && (forall i :: FirstToRegister(block, i, path) ==>
                  path in h && block[i].Block? && Makes(block[i].tokens[2], path, block[i].body, h[path]))
            && ((forall i :: !FirstToRegister(block, i, "/")) ==> "/" in h && h["/"] == NotFoundHandler)
  {
    RegisteredIff(ServerBlock(ts), path);
    RegisteredIff(ServerBlock(ts), "/");
  }

  /** What the source needs of a location. */
  predicate IsSoundLocation(t: Stmt) {
    t.tokens != [] && t.tokens[0] == "location" ==> |t.tokens| >= 3 && t.Block?
  }

  lemma {:induction false} UsableIff(ts: seq<Stmt>)
    requires WellFormed(ts)
    ensures UsableConfig(ts) <==>
              forall i :: IsFirstServer(ts, i) ==>
                ts[i].Block? && forall j :: 0 <= j < |ts[i].body| ==> IsSoundLocation(ts[i].body[j])
    decreases |ts|
  {
    WellFormedEach(ts);
    if ts != [] {
      if IsServer(ts[0]) {
        assert IsFirstServer(ts, 0);
        assert forall i :: IsFirstServer(ts, i) ==> i == 0;
        if ts[0].Block? {
          UsableServerIff(ts[0].body);
        }
      } else {
        UsableIff(ts[1..]);
        assert forall i :: IsFirstServer(ts, i) ==> IsFirstServer(ts[1..], i - 1) && ts[1..][i - 1] == ts[i];
        assert forall i :: IsFirstServer(ts[1..], i) ==> IsFirstServer(ts, i + 1) && ts[1..][i] == ts[i + 1];
      }
    }
  }

  lemma UsableServerIff(ts: seq<Stmt>)
    requires WellFormed(ts)
    ensures UsableServer(ts) <==> forall j :: 0 <= j < |ts| ==> IsSoundLocation(ts[j])
  {
    WellFormedEach(ts);
    assert forall j :: 0 <= j < |ts| ==> (UsableLocation(ts[j]) <==> IsSoundLocation(ts[j]));
  }

  // ---- Targets ----

  /** The key is not empty, begins the target, and is at least as long as every other such key. */
  ghost predicate IsLongest(handlers: map<string, Handler>, uri: string, key: string) {
    && key in handlers && key != "" && key <= uri
    && forall k :: k in handlers && k != "" && k <= uri ==> |k| <= |key|
  }

  /** A target has the handler h exactly when h is the handler of the longest key that begins it without its last slashes. */
  lemma HandlerForIff(handlers: map<string, Handler>, target: string, h: Handler)
    ensures HandlerFor(handlers, target) == Some(h)
            <==> exists key :: IsLongest(handlers, Normalise(target), key) && handlers[key] == h
  {
    var uri := Normalise(target);
    forall key: string
      ensures Longest(handlers, uri) == Some(key) <==> IsLongest(handlers, uri, key)
    {
      LongestIff(handlers, uri, key);
      assert forall k :: Matches(handlers, uri, k) <==> k in handlers && k != "" && k <= uri;
    }
  }
}
