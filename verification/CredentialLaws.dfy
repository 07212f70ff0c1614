/** Which entries of a `credentials` block count, and which configs `get_credentials` can be asked about at all. */
module CredentialLaws {
  import opened Options
  import opened Text
  import opened ConfigTree
  import opened ConfigLookup
  import opened ConfigCredentials

  // ---- Entries ----

  /** A statement of the one token u:..., with or without a block. */
  predicate IsEntryOf(t: Stmt, u: string) {
    |t.tokens| == 1 && ':' !in u && u + ":" <= t.tokens[0]
  }

  /** The last entry of u is u:p. */
  ghost predicate WinsAt(ts: seq<Stmt>, i: int, u: string, p: string) {
    && 0 <= i < |ts| && ts[i].tokens == [u + ":" + p] && ':' !in u
    && forall j :: i < j < |ts| ==> !IsEntryOf(ts[j], u)
  }

  lemma Begins(s: string, u: string)
    requires u + ":" <= s
    ensures |u| < |s| && s[|u|] == ':' && s[..|u|] == u
  {
    assert s[|u|] == (u + ":")[|u|];
    assert s[..|u|] == (u + ":")[..|u|];
  }

  lemma Continues(s: string, i: nat)
    requires i < |s| && s[i] == ':'
    ensures s[..i] + ":" <= s
  {
    assert s[..i + 1] == s[..i] + ":";
  }

  lemma UpToColon(s: string, u: string)
    ensures var i := IndexOf(s, ':'); (i < |s| && s[..i] == u) <==> ':' !in u && u + ":" <= s
  {
    var i := IndexOf(s, ':');
    if ':' !in u && u + ":" <= s {
      Begins(s, u);
      FirstColon(s, i, |u|);
    }
    if i < |s| && s[..i] == u {
      Continues(s, i);
    }
  }

  lemma EntryAtIs(ts: seq<Stmt>, i: int, u: string)
    ensures EntryAt(ts, i, u) <==> 0 <= i < |ts| && IsEntryOf(ts[i], u)
  {
    if 0 <= i < |ts| && |ts[i].tokens| == 1 {
      UpToColon(ts[i].tokens[0], u);
    }
  }

  /** The entries of a block give u the password p exactly when the last entry of u is u:p. */
  lemma LastEntryWins(ts: seq<Stmt>, u: string, p: string)
    ensures var c := Collect(ts, map[]); (u in c && c[u] == p) <==> exists i :: WinsAt(ts, i, u, p)
  {
    CollectIff(ts, u, p);
    forall i: int
      ensures EntryAt(ts, i, u) <==> 0 <= i < |ts| && IsEntryOf(ts[i], u)
    {
      EntryAtIs(ts, i, u);
    }
    if i :| LastEntry(ts, i, u) && ts[i].tokens[0] == u + ":" + p {
      assert EntryAt(ts, i, u) && ts[i].tokens == [u + ":" + p];
      assert WinsAt(ts, i, u, p);
    }
    if i :| WinsAt(ts, i, u, p) {
      assert IsEntryOf(ts[i], u);
      assert EntryAt(ts, i, u) && LastEntry(ts, i, u);
    }
  }

  // ---- Where the source looks ----

  /** The search comes to the statement at `path`: through child blocks of statements other than `credentials`, and past
      childless ones. */
  ghost predicate Visited(ts: seq<Stmt>, path: seq<nat>) {
    path != [] &&
    forall k :: 0 <= k < |path| ==>
      var level := BlockAt(ts, path[..k]);
      && level.Some? && path[k] < |level.value|
      && (forall i :: 0 <= i < path[k] ==> level.value[i].Simple? && !IsCredentials(level.value[i]))
      && (k < |path| - 1 ==> level.value[path[k]].Block? && !IsCredentials(level.value[path[k]]))
  }

  ghost function VisitedStmt(ts: seq<Stmt>, path: seq<nat>): Stmt
    requires Visited(ts, path)
  {
    BlockAt(ts, path[..|path| - 1]).value[path[|path| - 1]]
  }

  /** What the source dereferences there is there. */
  predicate IsSound(t: Stmt) {
    t.tokens != [] && (t.tokens[0] == "credentials" ==> t.Block?)
  }

  lemma VisitedHere(ts: seq<Stmt>, i: nat)
    requires i < |ts| && forall j :: 0 <= j < i ==> IsPassed(ts[j])
    ensures Visited(ts, [i]) && VisitedStmt(ts, [i]) == ts[i]
  {
    assert [i][..0] == [];
  }

  lemma VisitedFirst(ts: seq<Stmt>, path: seq<nat>)
    requires Visited(ts, path)
    ensures path[0] < |ts| && forall j :: 0 <= j < path[0] ==> IsPassed(ts[j])
    ensures |path| == 1 ==> VisitedStmt(ts, path) == ts[path[0]]
    ensures |path| > 1 ==> ts[path[0]].Block? && !IsCredentials(ts[path[0]])
  {
    assert path[..0] == [] && BlockAt(ts, path[..0]) == Some(ts);
  }

  lemma VisitedBelow(ts: seq<Stmt>, path: seq<nat>)
    requires |path| > 1 && path[0] < |ts| && ts[path[0]].Block? && !IsCredentials(ts[path[0]])
    requires forall j :: 0 <= j < path[0] ==> IsPassed(ts[j])
    ensures Visited(ts, path) <==> Visited(ts[path[0]].body, path[1..])
    ensures Visited(ts, path) ==> VisitedStmt(ts, path) == VisitedStmt(ts[path[0]].body, path[1..])
  {
    Levels(ts, path);
    var body, rest := ts[path[0]].body, path[1..];
    forall k | 0 <= k < |rest|
      ensures BlockAt(body, rest[..k]) == BlockAt(ts, path[..k + 1]) && rest[k] == path[k + 1]
    {
    }
    if Visited(body, rest) {
      forall k | 0 < k < |path|
        ensures BlockAt(ts, path[..k]) == BlockAt(body, rest[..k - 1]) && path[k] == rest[k - 1]
      {
        assert path[..(k - 1) + 1] == path[..k];
      }
    }
    if Visited(ts, path) {
      assert rest[..|rest| - 1] == path[1..][..|path| - 2] && path[..(|path| - 2) + 1] == path[..|path| - 1];
    }
  }

  lemma {:induction false} DefinedVisited(ts: seq<Stmt>, path: seq<nat>)
    requires Defined(ts) && Visited(ts, path)
    ensures IsSound(VisitedStmt(ts, path))
    decreases |path|
  {
    VisitedFirst(ts, path);
    DefinedPast(ts, path[0]);
    if |path| > 1 {
      VisitedBelow(ts, path);
      DefinedVisited(ts[path[0]].body, path[1..]);
    }
  }

  lemma {:induction false} DefinedPast(ts: seq<Stmt>, i: nat)
    requires Defined(ts) && i < |ts| && forall j :: 0 <= j < i ==> IsPassed(ts[j])
    ensures IsSound(ts[i]) && (ts[i].Block? && !IsCredentials(ts[i]) ==> Defined(ts[i].body))
  {
    if i > 0 {
      DefinedPast(ts[1..], i - 1);
    }
  }

  lemma {:induction false} PastDefined(ts: seq<Stmt>, i: nat)
    requires i <= |ts| && (forall j :: 0 <= j < i ==> IsPassed(ts[j]) && ts[j].tokens != [])
    requires Defined(ts[i..])
    ensures Defined(ts)
    decreases i
  {
    if i > 0 {
      assert ts[i - 1..][0] == ts[i - 1] && ts[i - 1..][1..] == ts[i..];
      OnePast(ts[i - 1..]);
      PastDefined(ts, i - 1);
    } else {
      assert ts[0..] == ts;
    }
  }

  lemma OnePast(ts: seq<Stmt>)
    requires ts != [] && IsPassed(ts[0]) && ts[0].tokens != [] && Defined(ts[1..])
    ensures Defined(ts)
  {
  }

  lemma {:induction false} VisitedDefined(ts: seq<Stmt>)
    requires forall path: seq<nat> :: Visited(ts, path) ==> IsSound(VisitedStmt(ts, path))
    ensures Defined(ts)
    decreases ts
  {
    var i := 0;
    while i < |ts| && IsPassed(ts[i])
      invariant 0 <= i <= |ts| && forall j :: 0 <= j < i ==> IsPassed(ts[j]) && ts[j].tokens != []
    {
      VisitedHere(ts, i);
      i := i + 1;
    }
    if i < |ts| {
      VisitedHere(ts, i);
      if ts[i].Block? && !IsCredentials(ts[i]) {
        forall path: seq<nat> | Visited(ts[i].body, path)
          ensures IsSound(VisitedStmt(ts[i].body, path))
        {
          assert ([i] + path)[1..] == path;
          VisitedBelow(ts, [i] + path);
        }
        VisitedDefined(ts[i].body);
      }
      assert ts[i..][0] == ts[i];
    }
    PastDefined(ts, i);
  }

  /** The source can be asked for the credentials exactly when each statement that the search comes to has a token, and has a
      block if it is a `credentials` statement. */
  lemma DefinedIff(ts: seq<Stmt>)
    ensures Defined(ts) <==> forall path: seq<nat> :: Visited(ts, path) ==> IsSound(VisitedStmt(ts, path))
  {
    if Defined(ts) {
      forall path: seq<nat> | Visited(ts, path)
        ensures IsSound(VisitedStmt(ts, path))
      {
        DefinedVisited(ts, path);
      }
    }
    if forall path: seq<nat> :: Visited(ts, path) ==> IsSound(VisitedStmt(ts, path)) {
      VisitedDefined(ts);
    }
  }
}
