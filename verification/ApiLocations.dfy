/** API locations as configured: which requests come to them, and when they find what they stored. */
module ApiLocations {
  import opened Options
  import opened Text
  import opened ConfigTree
  import opened Dispatcher
  import FileStorage
  import CrudHandler
  import ApiHandler
  import ApiRefinement
  import ApiRuns

  // ---- The slash at the end ----

  lemma LocationSettings(t: Stmt, root: string, prefix: string)
    requires UsableLocation(t) && IsLocation(t) && HandlerOf(t) == Some(ApiHandler(root, prefix))
    ensures prefix == Path(t) && root == RootSetting(t.body, "/")
  {
  }

  lemma NormalSlash(prefix: string, root: string)
    requires IsNormal(prefix)
    ensures ApiRefinement.SlashesAgree(prefix, root) <==> prefix == "/" || FileStorage.EndsWithSlash(root)
  {
  }

  /** A location's API handler finds what it stored exactly when its root setting ends with a slash or its path is "/",
      since registration has taken the slashes from the end of the path. */
  lemma LocationFindsIff(t: Stmt, root: string, prefix: string, e: string, body: string)
    requires UsableLocation(t) && IsLocation(t) && HandlerOf(t) == Some(ApiHandler(root, prefix))
    requires FileStorage.IsName(e)
    ensures var (_, files) := ApiHandler.Handle(prefix, root, map[], ApiRefinement.Ask(prefix, ApiRefinement.Create(e, body)));
            ApiHandler.Handle(prefix, root, files, ApiRefinement.Ask(prefix, ApiRefinement.Fetch(e, 1))).0
            == ApiHandler.Reply(ApiHandler.OK, ApiHandler.Content(body))
            <==> prefix == "/" || FileStorage.EndsWithSlash(RootSetting(t.body, "/"))
  {
    LocationSettings(t, root, prefix);
    NormalSlash(prefix, root);
    ApiRuns.SlashNeeded(prefix, root, e, body);
  }

  // ---- From the target to the location ----

  /** The i-th statement of the server block is the first that registers its path, as an API location. */
  ghost predicate IsApiLocation(ts: seq<Stmt>, i: int, root: string, prefix: string) {
    && UsableConfig(ts) && FirstOffer(ServerBlock(ts), i, prefix)
    && HandlerOf(ServerBlock(ts)[i]) == Some(ApiHandler(root, prefix))
  }

  lemma Registered(ts: seq<Stmt>, i: int, root: string, prefix: string)
    requires IsApiLocation(ts, i, root, prefix)
    ensures var h := Initialised(map[], ts); prefix in h && h[prefix] == ApiHandler(root, prefix)
  {
    var block := ServerBlock(ts);
    RegisterAllIff(map[], block, prefix);
    var h := RegisterAll(map[], block);
    assert Offers(block[i], prefix);
    var j :| FirstOffer(block, j, prefix) && Some(h[prefix]) == HandlerOf(block[j]);
    assert i == j;
  }

  /** No longer path of the config is a prefix of the target. */
  ghost predicate NoLongerPath(ts: seq<Stmt>, target: string, prefix: string)
    requires UsableConfig(ts)
  {
    forall k :: Matches(Initialised(map[], ts), Normalise(target), k) ==> |k| <= |prefix|
  }

  /** The dispatcher takes the location's path for a target exactly when it is a prefix of the target and no longer path is;
      then the target goes to the location's handler. */
  lemma LocationReachedIff(ts: seq<Stmt>, i: int, root: string, prefix: string, target: string)
    requires IsApiLocation(ts, i, root, prefix) && prefix != ""
    ensures Longest(Initialised(map[], ts), Normalise(target)) == Some(prefix)
            <==> prefix <= Normalise(target) && NoLongerPath(ts, target, prefix)
    ensures prefix <= Normalise(target) && NoLongerPath(ts, target, prefix)
            ==> HandlerFor(Initialised(map[], ts), target) == Some(ApiHandler(root, prefix))
  {
    Registered(ts, i, root, prefix);
    LongestIff(Initialised(map[], ts), Normalise(target), prefix);
  }

  /** A request for an entity, or for one of its ids, keeps its target. */
  lemma AskedTarget(prefix: string, op: ApiRefinement.Operation)
    requires ApiRefinement.CanAsk(op)
    ensures var target := ApiRefinement.Ask(prefix, op).target; Normalise(target) == target && prefix <= target
  {
    var e := op.entity;
    assert e[|e| - 1] in e;
    var root := ApiRefinement.Slashed(prefix) + e;
    assert prefix <= root && root[|root| - 1] == e[|e| - 1];
    if op.Fetch? || op.Replace? || op.Remove? {
      EndsInDigit(root, op.id);
    }
  }

  lemma EndsInDigit(root: string, id: int)
    ensures var target := root + "/" + DecimalInt(id); IsNormal(target) && root <= target
  {
    var d := DecimalInt(id);
    DecimalHasNo(id, '/');
    assert d[|d| - 1] in d;
    var target := root + "/" + d;
    assert target[|target| - 1] == d[|d| - 1];
  }

  /** An API location as configured: its requests come to it, and any run of them does to a plain map what it says, if the
      root setting ends with a slash or the path is "/". */
  lemma LocationServes(ts: seq<Stmt>, i: int, root: string, prefix: string, fs: seq<CrudHandler.Files>,
                       reqs: seq<ApiHandler.Request>, replies: seq<ApiHandler.Reply>, ops: seq<ApiRefinement.Operation>,
                       m: ApiRefinement.Store)
    returns (ms: seq<ApiRefinement.Store>, answers: seq<ApiRefinement.Answer>)
    requires IsApiLocation(ts, i, root, prefix) && prefix != ""
    requires prefix == "/" || FileStorage.EndsWithSlash(RootSetting(ServerBlock(ts)[i].body, "/"))
    requires ApiRuns.Asked(prefix, ops, reqs) && ApiRuns.Served(prefix, root, fs, reqs, replies)
    requires forall k :: 0 <= k < |reqs| ==> NoLongerPath(ts, reqs[k].target, prefix)
    requires ApiRefinement.Holds(root, fs[0], m)
    ensures forall k :: 0 <= k < |reqs| ==>
              HandlerFor(Initialised(map[], ts), reqs[k].target) == Some(ApiHandler(root, prefix))
    ensures ApiRuns.Run(ms, ops, answers) && ms[0] == m
    ensures ApiRuns.HoldAll(root, fs, ms) && ApiRuns.Told(ops, replies, answers)
  {
    forall k | 0 <= k < |reqs|
      ensures HandlerFor(Initialised(map[], ts), reqs[k].target) == Some(ApiHandler(root, prefix))
    {
      AskedTarget(prefix, ops[k]);
      LocationReachedIff(ts, i, root, prefix, reqs[k].target);
    }
    LocationSettings(ServerBlock(ts)[i], root, prefix);
    NormalSlash(prefix, root);
    ms, answers := ApiRuns.RunRefines(prefix, root, fs, reqs, replies, ops, m);
  }
}
