/** `NginxConfig::get_credentials` (src/config_parser.cc:321-343): where the users and passwords come from. */
module ConfigCredentials {
  import opened Options
  import opened Text
  import opened ConfigTree
  import opened ConfigObjects
  import opened ConfigLookup

  predicate IsCredentials(t: Stmt) {
    t.tokens != [] && t.tokens[0] == "credentials"
  }

  /** The source dereferences the first token of every statement it looks at and the child block of a
      `credentials` statement. */
  predicate Defined(ts: seq<Stmt>)
    decreases ts
  {
    ts == [] ||
    (ts[0].tokens != [] &&
      if IsCredentials(ts[0]) then ts[0].Block?
      else if ts[0].Block? then Defined(ts[0].body)
      else Defined(ts[1..]))
  }

  /** A one-token statement user:password, split at the first colon. */
  predicate IsEntry(t: Stmt) {
    |t.tokens| == 1 && ':' in t.tokens[0]
  }

  function User(t: Stmt): (u: string)
    requires IsEntry(t)
    ensures ':' !in u
  {
    t.tokens[0][..IndexOf(t.tokens[0], ':')]
  }

  function Password(t: Stmt): string
    requires IsEntry(t)
  {
    t.tokens[0][IndexOf(t.tokens[0], ':') + 1..]
  }

  function Collect(ts: seq<Stmt>, m: map<string, string>): map<string, string> {
    if ts == [] then m
    else Collect(ts[1..], if IsEntry(ts[0]) then m[User(ts[0]) := Password(ts[0])] else m)
  }

  /** The block whose entries count: that of the first `credentials` statement in the first child block of the
      first child block and so on. */
  function CredentialBlock(ts: seq<Stmt>): seq<Stmt>
    requires Defined(ts)
    decreases ts
  {
    if ts == [] then []
    else if IsCredentials(ts[0]) then ts[0].body
    else if ts[0].Block? then CredentialBlock(ts[0].body)
    else CredentialBlock(ts[1..])
  }

  function Credentials(ts: seq<Stmt>): map<string, string>
    requires Defined(ts)
  {
    Collect(CredentialBlock(ts), map[])
  }

  method GetCredentials(config: NginxConfig, ghost nodes: seq<Node>, ghost reach: set<object>)
    returns (credentials: map<string, string>)
    requires Represents(config, nodes) && Footprint(nodes) <= reach && Defined(Value(nodes))
    ensures credentials == Credentials(Value(nodes))
    decreases nodes
  {
    credentials := map[];
    ghost var ts := Value(nodes);
    for i := 0 to |config.statements|
      invariant Represents(config, nodes)
      invariant credentials == map[]
      invariant Defined(ts[i..]) && CredentialBlock(ts[i..]) == CredentialBlock(ts)
    {
      At(nodes, i);
      assert ts[i..][1..] == ts[i + 1..];
      var stmt := config.statements[i];
      if stmt.tokens[0] == "credentials" {
        credentials := CollectFrom(stmt.childBlock, nodes[i].body, reach);
        return;
      }
      if stmt.childBlock != null {
        credentials := GetCredentials(stmt.childBlock, nodes[i].body, reach);
        return;
      }
    }
  }

  lemma CollectNext(ts: seq<Stmt>, i: nat, m: map<string, string>)
    requires i < |ts|
    ensures !IsEntry(ts[i]) ==> Collect(ts[i..], m) == Collect(ts[i + 1..], m)
    ensures IsEntry(ts[i]) ==> Collect(ts[i..], m) == Collect(ts[i + 1..], m[User(ts[i]) := Password(ts[i])])
  {
    assert ts[i..][1..] == ts[i + 1..] && ts[i..][0] == ts[i];
  }

  /** The inner loop over the statements of the `credentials` block. */
  method CollectFrom(block: NginxConfig, ghost nodes: seq<Node>, ghost reach: set<object>)
    returns (credentials: map<string, string>)
    requires Represents(block, nodes) && Footprint(nodes) <= reach
    ensures credentials == Collect(Value(nodes), map[])
  {
    credentials := map[];
    ghost var ts := Value(nodes);
    for i := 0 to |block.statements|
      invariant Represents(block, nodes)
      invariant Collect(ts[i..], credentials) == Collect(ts, map[])
    {
      At(nodes, i);
      CollectNext(ts, i, credentials);
      var child := block.statements[i];
      if |child.tokens| == 1 {
        var credential := child.tokens[0];
        var delimiter := IndexOf(credential, ':');
        if delimiter != |credential| {
          credentials := credentials[credential[..delimiter] := credential[delimiter + 1..]];
        }
      }
    }
  }

  // ---- Which users and passwords ----

  ghost predicate EntryAt(ts: seq<Stmt>, i: int, u: string) {
    0 <= i < |ts| && IsEntry(ts[i]) && User(ts[i]) == u
  }

  /** The last entry of u, at i. */
  ghost predicate LastEntry(ts: seq<Stmt>, i: int, u: string) {
    EntryAt(ts, i, u) && forall j :: EntryAt(ts, j, u) ==> j <= i
  }

  /** The last entry of u is the text u:p. */
  ghost predicate EntryFor(ts: seq<Stmt>, u: string, p: string) {
    exists i :: LastEntry(ts, i, u) && ts[i].tokens[0] == u + ":" + p
  }

  lemma LastEntryNext(ts: seq<Stmt>, i: int, u: string)
    requires ts != [] && LastEntry(ts[1..], i, u)
    ensures LastEntry(ts, i + 1, u) && ts[i + 1] == ts[1..][i]
  {
    assert EntryAt(ts[1..], i, u);
    forall j | EntryAt(ts, j, u)
      ensures j <= i + 1
    {
      assert j > 0 ==> EntryAt(ts[1..], j - 1, u);
    }
  }

  lemma NoEntryNext(ts: seq<Stmt>, u: string)
    requires ts != [] && forall i :: !EntryAt(ts[1..], i, u)
    ensures forall j :: EntryAt(ts, j, u) ==> j == 0
    ensures EntryAt(ts, 0, u) ==> LastEntry(ts, 0, u)
  {
    var rest := ts[1..];
    assert forall j :: j != 0 ==> EntryAt(ts, j, u) == EntryAt(rest, j - 1, u);
  }

  lemma {:induction false} CollectFinds(ts: seq<Stmt>, m: map<string, string>, u: string)
    ensures var c := Collect(ts, m);
            || (exists i :: LastEntry(ts, i, u) && u in c && c[u] == Password(ts[i]))
            || ((forall i :: !EntryAt(ts, i, u)) && (u in c <==> u in m) && (u in m ==> c[u] == m[u]))
    decreases |ts|
  {
    if ts != [] {
      var m1 := if IsEntry(ts[0]) then m[User(ts[0]) := Password(ts[0])] else m;
      var rest := ts[1..];
      CollectFinds(rest, m1, u);
      if i :| LastEntry(rest, i, u) && u in Collect(rest, m1) && Collect(rest, m1)[u] == Password(rest[i]) {
        LastEntryNext(ts, i, u);
        assert LastEntry(ts, i + 1, u) && ts[i + 1] == rest[i];
      } else {
        NoEntryNext(ts, u);
      }
    }
  }

  lemma CollectIff(ts: seq<Stmt>, u: string, p: string)
    ensures var c := Collect(ts, map[]); (u in c && c[u] == p) <==> EntryFor(ts, u, p)
  {
    CollectFinds(ts, map[], u);
    var c := Collect(ts, map[]);
    if i :| LastEntry(ts, i, u) && u in c && c[u] == Password(ts[i]) {
      EntryText(ts[i], u, p);
      assert forall k :: LastEntry(ts, k, u) ==> EntryAt(ts, k, u) && k == i;
    } else {
      assert forall k :: LastEntry(ts, k, u) ==> EntryAt(ts, k, u);
    }
  }

  /** (u, p) is in the map exactly when the last entry for u in the credentials block is u:p. */
  lemma CredentialsIff(ts: seq<Stmt>, u: string, p: string)
    requires Defined(ts)
    ensures u in Credentials(ts) && Credentials(ts)[u] == p <==> EntryFor(CredentialBlock(ts), u, p)
  {
    CollectIff(CredentialBlock(ts), u, p);
  }

  lemma CutAt(s: string, i: nat)
    requires i < |s| && s[i] == ':'
    ensures s == s[..i] + ":" + s[i + 1..]
  {
  }

  lemma AfterColon(u: string, p: string)
    ensures |u + ":" + p| > |u| && (u + ":" + p)[|u| + 1..] == p
  {
  }

  lemma EntryText(t: Stmt, u: string, p: string)
    requires IsEntry(t) && User(t) == u
    ensures t.tokens[0] == u + ":" + p <==> Password(t) == p
  {
    var i := IndexOf(t.tokens[0], ':');
    CutAt(t.tokens[0], i);
    AfterColon(u, p);
    AfterColon(u, Password(t));
  }

  /** No user name holds a colon. */
  lemma UsersHaveNoColon(ts: seq<Stmt>, u: string)
    requires Defined(ts) && u in Credentials(ts)
    ensures ':' !in u
  {
    CollectFinds(CredentialBlock(ts), map[], u);
  }

  // ---- Which block of the config ----

  /** The search goes on behind such a statement. */
  predicate IsPassed(t: Stmt) {
    t.Simple? && !IsCredentials(t)
  }

  /** `path` leads to a `credentials` statement, through child blocks of other statements. */
  ghost predicate CredentialsAt(ts: seq<Stmt>, path: seq<nat>) {
    path != [] &&
    forall k :: 0 <= k < |path| ==>
      var level := BlockAt(ts, path[..k]);
      && level.Some? && path[k] < |level.value| && level.value[path[k]].Block?
      && (IsCredentials(level.value[path[k]]) <==> k == |path| - 1)
  }

  /** On no level of the way does a child block or a `credentials` statement come before. */
  ghost predicate Unobstructed(ts: seq<Stmt>, path: seq<nat>) {
    forall k :: 0 <= k < |path| ==>
      var level := BlockAt(ts, path[..k]);
      level.Some? ==> forall i :: 0 <= i < path[k] && i < |level.value| ==> IsPassed(level.value[i])
  }

  ghost predicate InUse(ts: seq<Stmt>, path: seq<nat>) {
    CredentialsAt(ts, path) && Unobstructed(ts, path)
  }

  ghost predicate AnyInUse(ts: seq<Stmt>) {
    exists path: seq<nat> :: InUse(ts, path)
  }

  /** The first level of a path, and the path from the block below. */
  lemma Levels(ts: seq<Stmt>, path: seq<nat>)
    requires path != [] && path[0] < |ts| && ts[path[0]].Block?
    ensures BlockAt(ts, path[..0]) == Some(ts) && BlockAt(ts, path) == BlockAt(ts[path[0]].body, path[1..])
    ensures forall k :: 0 <= k < |path| - 1 ==>
              BlockAt(ts, path[..k + 1]) == BlockAt(ts[path[0]].body, path[1..][..k]) && path[k + 1] == path[1..][k]
  {
    forall k | 0 <= k < |path| - 1
      ensures BlockAt(ts, path[..k + 1]) == BlockAt(ts[path[0]].body, path[1..][..k])
    {
      assert path[..k + 1][1..] == path[1..][..k];
    }
  }

  /** Where the search on one level stops: the first statement that is not passed. */
  ghost predicate StopsAt(ts: seq<Stmt>, i: nat) {
    i <= |ts| && (forall j :: 0 <= j < i ==> IsPassed(ts[j])) && (i < |ts| ==> !IsPassed(ts[i]))
  }

  lemma {:induction false} SkipPassed(ts: seq<Stmt>) returns (i: nat)
    requires Defined(ts)
    ensures StopsAt(ts, i) && Defined(ts[i..])
    ensures CredentialBlock(ts) == CredentialBlock(ts[i..])
  {
    i := 0;
    if ts != [] && IsPassed(ts[0]) {
      var n := SkipPassed(ts[1..]);
      i := n + 1;
      assert ts[1..][n..] == ts[i..];
      assert forall j :: 0 < j < |ts| ==> ts[j] == ts[1..][j - 1];
    } else {
      assert ts[0..] == ts;
    }
  }

  lemma InUseStarts(ts: seq<Stmt>, i: nat, path: seq<nat>)
    requires StopsAt(ts, i) && InUse(ts, path)
    ensures path[0] == i < |ts| && ts[i].Block? && (IsCredentials(ts[i]) <==> path == [i])
  {
    assert path[..0] == [] && BlockAt(ts, path[..0]) == Some(ts);
    assert !IsPassed(ts[path[0]]);
    assert |path| == 1 ==> path == [path[0]];
  }

  lemma InUseHere(ts: seq<Stmt>, i: nat)
    requires StopsAt(ts, i) && i < |ts| && IsCredentials(ts[i]) && ts[i].Block?
    ensures InUse(ts, [i]) && BlockAt(ts, [i]) == Some(ts[i].body)
  {
    assert [i][..0] == [] && [i][1..] == [];
  }

  lemma InUseBelow(ts: seq<Stmt>, i: nat, path: seq<nat>)
    requires StopsAt(ts, i) && i < |ts| && ts[i].Block? && !IsCredentials(ts[i]) && path != [] && path[0] == i
    ensures InUse(ts, path) <==> InUse(ts[i].body, path[1..])
  {
    Levels(ts, path);
    var body, rest := ts[i].body, path[1..];
    if InUse(ts, path) {
      forall k | 0 <= k < |rest|
        ensures BlockAt(body, rest[..k]) == BlockAt(ts, path[..k + 1]) && rest[k] == path[k + 1]
      {
      }
    }
    if InUse(body, rest) {
      forall k | 0 < k < |path|
        ensures BlockAt(ts, path[..k]) == BlockAt(body, rest[..k - 1]) && path[k] == rest[k - 1]
      {
        assert path[..(k - 1) + 1] == path[..k];
      }
    }
  }

  /** At most one block is in use; the source takes its entries from there, and has none without it. */
  lemma {:induction false} FindInUse(ts: seq<Stmt>) returns (path: seq<nat>)
    requires Defined(ts)
    ensures forall p :: InUse(ts, p) ==> p == path
    ensures InUse(ts, path) ==> BlockAt(ts, path) == Some(CredentialBlock(ts))
    ensures !InUse(ts, path) ==> CredentialBlock(ts) == []
    decreases ts
  {
    var i := SkipPassed(ts);
    path := [];
    if i < |ts| {
      assert ts[i..][0] == ts[i];
      if IsCredentials(ts[i]) {
        path := [i];
        InUseHere(ts, i);
      } else {
        var rest := FindInUse(ts[i].body);
        path := [i] + rest;
        assert path[1..] == rest;
        Levels(ts, path);
        InUseBelow(ts, i, path);
      }
    }
    forall p | InUse(ts, p)
      ensures p == path
    {
      InUseStarts(ts, i, p);
      if !IsCredentials(ts[i]) {
        InUseBelow(ts, i, p);
        assert p == [i] + p[1..];
      }
    }
  }

  /** The block in use has u:p as its last entry for u. */
  ghost predicate EntryInUse(ts: seq<Stmt>, path: seq<nat>, u: string, p: string) {
    InUse(ts, path) && BlockAt(ts, path).Some? && EntryFor(BlockAt(ts, path).value, u, p)
  }

  /** u has password p exactly when the last entry for u is u:p in a `credentials` block that nothing obstructs. */
  lemma UserIff(ts: seq<Stmt>, u: string, p: string)
    requires Defined(ts)
    ensures u in Credentials(ts) && Credentials(ts)[u] == p <==> exists path :: EntryInUse(ts, path, u, p)
  {
    CredentialsIff(ts, u, p);
    var path := FindInUse(ts);
    if EntryFor(CredentialBlock(ts), u, p) {
      assert CredentialBlock(ts) != [];
      assert EntryInUse(ts, path, u, p);
    }
  }

  lemma NoneInUse(ts: seq<Stmt>)
    requires Defined(ts) && !AnyInUse(ts)
    ensures Credentials(ts) == map[]
  {
    var path := FindInUse(ts);
  }

  /** A config's only `credentials` block counts exactly when nothing obstructs it; otherwise nobody has a password. */
  lemma OnlyBlock(ts: seq<Stmt>, path: seq<nat>)
    requires Defined(ts) && CredentialsAt(ts, path) && forall q :: CredentialsAt(ts, q) ==> q == path
    ensures BlockAt(ts, path).Some?
    ensures Credentials(ts) == if Unobstructed(ts, path) then Collect(BlockAt(ts, path).value, map[]) else map[]
  {
    var used := FindInUse(ts);
    Leads(ts, path);
    assert InUse(ts, path) <==> Unobstructed(ts, path);
    assert InUse(ts, used) ==> CredentialsAt(ts, used);
  }

  lemma {:induction false} Leads(ts: seq<Stmt>, path: seq<nat>)
    requires forall k :: 0 <= k < |path| ==>
               var level := BlockAt(ts, path[..k]);
               level.Some? && path[k] < |level.value| && level.value[path[k]].Block?
    ensures BlockAt(ts, path).Some?
    decreases |path|
  {
    if path != [] {
      assert path[..0] == [] && BlockAt(ts, path[..0]) == Some(ts);
      Levels(ts, path);
      forall k | 0 <= k < |path| - 1
        ensures BlockAt(ts[path[0]].body, path[1..][..k]) == BlockAt(ts, path[..k + 1]) && path[1..][k] == path[k + 1]
      {
      }
      Leads(ts[path[0]].body, path[1..]);
    }
  }

  function Server(ts: seq<Stmt>): Stmt {
    Block(["server"], ts)
  }

  function CredentialsOf(entry: string): Stmt {
    Block(["credentials"], [Simple([entry])])
  }

  /** The first block hides all that comes after it. */
  lemma BlockFirst(ts: seq<Stmt>)
    requires ts != [] && ts[0].Block? && ts[0].tokens != [] && !IsCredentials(ts[0]) && Defined(ts[0].body)
    ensures Defined(ts) && Credentials(ts) == Credentials(ts[0].body)
  {
  }

  /** `server { } credentials { u:p; }`: nobody has a password. */
  lemma HiddenByBlock(entry: string)
    ensures var ts := [Server([]), CredentialsOf(entry)];
            CredentialsAt(ts, [1]) && Defined(ts) && Credentials(ts) == map[]
  {
    var ts := [Server([]), CredentialsOf(entry)];
    assert [1][..0] == [];
    BlockFirst(ts);
  }

  /** `server { location /x EchoHandler { } credentials { u:p; } }` likewise: the order inside the block matters. */
  lemma HiddenByLocation(entry: string)
    ensures var ts := [Server([Block(["location", "/x", "EchoHandler"], []), CredentialsOf(entry)])];
            CredentialsAt(ts, [0, 1]) && Defined(ts) && Credentials(ts) == map[]
  {
    var inner := [Block(["location", "/x", "EchoHandler"], []), CredentialsOf(entry)];
    var ts := [Server(inner)];
    assert [0, 1][..0] == [] && [0, 1][..1] == [0] && [0][1..] == [];
    assert BlockAt(ts, [0]) == Some(inner);
    assert inner[0].tokens[0] == "location";
    BlockFirst(inner);
    BlockFirst(ts);
  }
}
