/** Runs of the REST interface: what its clients can rely on, whatever is asked in between. */
module ApiRuns {
  import opened Text
  import opened FileStorage
  import opened CrudHandler
  import opened ApiHandler
  import opened ApiRefinement

  // ---- Runs ----

  /** `reqs` are served one after the other, on files that go through `fs`. */
  ghost predicate Served(prefix: string, base: string, fs: seq<Files>, reqs: seq<Request>, replies: seq<Reply>) {
    && |fs| == |reqs| + 1 && |replies| == |reqs|
    && forall i :: 0 <= i < |reqs| ==> Handle(prefix, base, fs[i], reqs[i]) == (replies[i], fs[i + 1])
  }

  ghost predicate Run(ms: seq<Store>, ops: seq<Operation>, answers: seq<Answer>) {
    && |ms| == |ops| + 1 && |answers| == |ops|
    && forall i :: 0 <= i < |ops| ==> Allowed(ms[i], ops[i], answers[i], ms[i + 1])
  }

  ghost predicate Asked(prefix: string, ops: seq<Operation>, reqs: seq<Request>) {
    |reqs| == |ops| && forall i :: 0 <= i < |ops| ==> CanAsk(ops[i]) && reqs[i] == Ask(prefix, ops[i])
  }

  ghost predicate Told(ops: seq<Operation>, replies: seq<Reply>, answers: seq<Answer>) {
    |replies| == |ops| == |answers| && forall i :: 0 <= i < |ops| ==> Says(replies[i], ops[i], answers[i])
  }

  ghost predicate HoldAll(base: string, fs: seq<Files>, ms: seq<Store>) {
    |fs| == |ms| && forall i :: 0 <= i < |fs| ==> Holds(base, fs[i], ms[i])
  }

  lemma ServedInit(prefix: string, base: string, fs: seq<Files>, reqs: seq<Request>, replies: seq<Reply>)
    requires Served(prefix, base, fs, reqs, replies) && reqs != []
    ensures Served(prefix, base, fs[..|reqs|], reqs[..|reqs| - 1], replies[..|reqs| - 1])
  {
  }

  lemma RunSnoc(ms: seq<Store>, ops: seq<Operation>, answers: seq<Answer>, a: Answer, m': Store)
    requires ops != [] && Run(ms, ops[..|ops| - 1], answers) && Allowed(ms[|ops| - 1], ops[|ops| - 1], a, m')
    ensures Run(ms + [m'], ops, answers + [a])
  {
    var n := |ops| - 1;
    forall i | 0 <= i < |ops|
      ensures Allowed((ms + [m'])[i], ops[i], (answers + [a])[i], (ms + [m'])[i + 1])
    {
      if i < n {
        assert ops[i] == ops[..n][i];
      }
    }
  }

  lemma ToldSnoc(ops: seq<Operation>, replies: seq<Reply>, answers: seq<Answer>, a: Answer)
    requires ops != [] && |replies| == |ops| && Told(ops[..|ops| - 1], replies[..|ops| - 1], answers)
    requires Says(replies[|ops| - 1], ops[|ops| - 1], a)
    ensures Told(ops, replies, answers + [a])
  {
    var n := |ops| - 1;
    forall i | 0 <= i < |ops|
      ensures Says(replies[i], ops[i], (answers + [a])[i])
    {
      if i < n {
        assert ops[i] == ops[..n][i] && replies[i] == replies[..n][i];
      }
    }
  }

  lemma HoldAllSnoc(base: string, fs: seq<Files>, ms: seq<Store>, m': Store)
    requires |fs| > 0 && HoldAll(base, fs[..|fs| - 1], ms) && Holds(base, fs[|fs| - 1], m')
    ensures HoldAll(base, fs, ms + [m'])
  {
    forall i | 0 <= i < |fs|
      ensures Holds(base, fs[i], (ms + [m'])[i])
    {
      if i < |fs| - 1 {
        assert fs[i] == fs[..|fs| - 1][i];
      }
    }
  }

  lemma LastServed(prefix: string, base: string, fs: seq<Files>, reqs: seq<Request>, replies: seq<Reply>,
                   ops: seq<Operation>)
    requires Asked(prefix, ops, reqs) && ops != [] && Served(prefix, base, fs, reqs, replies)
    ensures var n := |ops| - 1;
            CanAsk(ops[n]) && Handle(prefix, base, fs[n], Ask(prefix, ops[n])) == (replies[n], fs[n + 1])
  {
  }

  lemma Refined(prefix: string, base: string, files: Files, m: Store, op: Operation, a: Answer, m': Store,
                reply: Reply, files': Files)
    requires Refines(prefix, base, files, m, op, a, m')
    requires Handle(prefix, base, files, Ask(prefix, op)) == (reply, files')
    ensures Allowed(m, op, a, m') && Says(reply, op, a) && Holds(base, files', m')
  {
  }

  /** A run of requests is a run of the plain store, and the replies say its answers. */
  lemma {:induction false} RunRefines(prefix: string, base: string, fs: seq<Files>, reqs: seq<Request>,
                                      replies: seq<Reply>, ops: seq<Operation>, m: Store)
    returns (ms: seq<Store>, answers: seq<Answer>)
    requires SlashesAgree(prefix, base) && Asked(prefix, ops, reqs)
    requires Served(prefix, base, fs, reqs, replies) && Holds(base, fs[0], m)
    ensures Run(ms, ops, answers) && ms[0] == m && HoldAll(base, fs, ms) && Told(ops, replies, answers)
    decreases |ops|
  {
    if ops == [] {
      ms, answers := [m], [];
    } else {
      var n := |ops| - 1;
      ServedInit(prefix, base, fs, reqs, replies);
      ms, answers := RunRefines(prefix, base, fs[..n + 1], reqs[..n], replies[..n], ops[..n], m);
      LastServed(prefix, base, fs, reqs, replies, ops);
      var a, m' := RequestRefines(prefix, base, fs[n], ms[n], ops[n]);
      Refined(prefix, base, fs[n], ms[n], ops[n], a, m', replies[n], fs[n + 1]);
      RunSnoc(ms, ops, answers, a, m');
      ToldSnoc(ops, replies, answers, a);
      HoldAllSnoc(base, fs, ms, m');
      ms, answers := ms + [m'], answers + [a];
    }
  }

  // ---- Data stays until it is replaced or removed ----

  /** The request can change the file: a PUT or a DELETE whose target leads there. POST is never one. */
  ghost predicate Changes(prefix: string, base: string, req: Request, key: string) {
    (req.verb == Put || req.verb == Delete) && Addresses(prefix, base, req.target, key)
  }

  lemma Spares(prefix: string, base: string, files: Files, req: Request, key: string)
    requires key in files && !Changes(prefix, base, req, key)
    ensures key in Handle(prefix, base, files, req).1 && Handle(prefix, base, files, req).1[key] == files[key]
  {
  }

  lemma {:induction false} Lasts(prefix: string, base: string, fs: seq<Files>, reqs: seq<Request>, replies: seq<Reply>,
                                 key: string)
    requires Served(prefix, base, fs, reqs, replies) && key in fs[0]
    requires forall i :: 0 <= i < |reqs| ==> !Changes(prefix, base, reqs[i], key)
    ensures key in fs[|reqs|] && fs[|reqs|][key] == fs[0][key]
    decreases |reqs|
  {
    if reqs != [] {
      var n := |reqs| - 1;
      Lasts(prefix, base, fs[..n + 1], reqs[..n], replies[..n], key);
      Spares(prefix, base, fs[n], reqs[n], key);
    }
  }

  lemma At(prefix: string, base: string, fs: seq<Files>, reqs: seq<Request>, replies: seq<Reply>, i: nat)
    requires Served(prefix, base, fs, reqs, replies) && i < |reqs|
    ensures |fs| == |reqs| + 1 == |replies| + 1
    ensures Handle(prefix, base, fs[i], reqs[i]) == (replies[i], fs[i + 1])
  {
  }

  lemma LastsBetween(prefix: string, base: string, fs: seq<Files>, reqs: seq<Request>, replies: seq<Reply>, key: string)
    requires |reqs| > 1 && Served(prefix, base, fs, reqs, replies) && key in fs[1]
    requires forall i :: 0 < i < |reqs| - 1 ==> !Changes(prefix, base, reqs[i], key)
    ensures key in fs[|reqs| - 1] && fs[|reqs| - 1][key] == fs[1][key]
  {
    var n := |reqs| - 1;
    ServedMiddle(prefix, base, fs, reqs, replies);
    Lasts(prefix, base, fs[1..n + 1], reqs[1..n], replies[1..n], key);
  }

  /** What POST stored is what GET at the id in its reply's text returns, after any requests but a PUT or a DELETE at that
      id. */
  lemma CreatedIsFetched(prefix: string, base: string, fs: seq<Files>, reqs: seq<Request>, replies: seq<Reply>,
                         e: string, body: string, id: int, before: string)
    requires SlashesAgree(prefix, base) && IsName(e) && InInt(id)
    requires |reqs| > 1 && Served(prefix, base, fs, reqs, replies)
    requires reqs[0] == Ask(prefix, Create(e, body)) && BodyText(replies[0].body, before) == CreatedText(id)
    requires reqs[|reqs| - 1] == Ask(prefix, Fetch(e, id))
    requires forall i :: 0 < i < |reqs| - 1 ==> !Changes(prefix, base, reqs[i], Key(base, e, id))
    ensures replies[|reqs| - 1] == Reply(OK, Content(body))
  {
    var n, key := |reqs| - 1, Key(base, e, id);
    At(prefix, base, fs, reqs, replies, 0);
    CreateHandled(prefix, base, fs[0], e, body);
    CreatedTextInjective(NextId(fs[0], base, e), id);
    LastsBetween(prefix, base, fs, reqs, replies, key);
    At(prefix, base, fs, reqs, replies, n);
    FetchHandled(prefix, base, fs[n], e, id);
    SeenKey(prefix, base, e, id);
  }

  lemma ServedMiddle(prefix: string, base: string, fs: seq<Files>, reqs: seq<Request>, replies: seq<Reply>)
    requires Served(prefix, base, fs, reqs, replies) && |reqs| > 1
    ensures var n := |reqs| - 1; Served(prefix, base, fs[1..n + 1], reqs[1..n], replies[1..n])
  {
    var n := |reqs| - 1;
    forall i | 0 <= i < n - 1
      ensures Handle(prefix, base, fs[1..n + 1][i], reqs[1..n][i]) == (replies[1..n][i], fs[1..n + 1][i + 1])
    {
      assert Handle(prefix, base, fs[i + 1], reqs[i + 1]) == (replies[i + 1], fs[i + 2]);
    }
  }

  // ---- Without a slash in either place ----

  ghost predicate IsKeyOfName(base: string, key: string) {
    exists f: string, j: int :: IsName(f) && key == Key(base, f, j)
  }

  ghost predicate OnlyNames(base: string, files: Files) {
    forall k :: k in files ==> IsKeyOfName(base, k)
  }

  lemma NotSeen(prefix: string, base: string, files: Files, e: string, id: int)
    requires !SlashesAgree(prefix, base) && IsName(e) && OnlyNames(base, files)
    ensures Key(base, Seen(prefix, e), id) !in files
  {
    var k := Key(base, Seen(prefix, e), id);
    if k in files {
      assert IsKeyOfName(base, k);
      var f: string, j: int :| IsName(f) && k == Key(base, f, j);
      SlashKept(base, e, id, f, j);
    }
  }

  /** Then whatever is stored, all requests but POST find nothing, and only such files come about. */
  lemma NothingFound(prefix: string, base: string, files: Files, op: Operation)
    requires !SlashesAgree(prefix, base) && OnlyNames(base, files) && CanAsk(op)
    ensures var (r, files') := Handle(prefix, base, files, Ask(prefix, op));
            && OnlyNames(base, files')
            && (op.List? ==> r == Reply(OK, Listing(0)))
            && (op.Fetch? || op.Replace? || op.Remove? ==> r.status == NOT_FOUND && files' == files)
  {
    var e := op.entity;
    match op
    case Create(_, body) =>
      CreateHandled(prefix, base, files, e, body);
      assert IsKeyOfName(base, Key(base, e, NextId(files, base, e)));
    case List(_) =>
      ListHandled(prefix, base, files, e);
      NotSeen(prefix, base, files, e, 1);
      OneNextId(files, base, Seen(prefix, e), NextId(files, base, Seen(prefix, e)), 1);
    case Fetch(_, id) =>
      NotSeen(prefix, base, files, e, id);
      FetchHandled(prefix, base, files, e, id);
    case Replace(_, id, body) =>
      NotSeen(prefix, base, files, e, id);
      ReplaceHandled(prefix, base, files, e, id, body);
    case Remove(_, id) =>
      NotSeen(prefix, base, files, e, id);
      RemoveHandled(prefix, base, files, e, id);
  }

  ghost predicate LooksEmpty(op: Operation, r: Reply) {
    && (op.List? ==> r == Reply(OK, Listing(0)))
    && (op.Fetch? || op.Replace? || op.Remove? ==> r.status == NOT_FOUND)
  }

  /** In every run, however much is posted, the store looks empty. */
  lemma {:induction false} NeverFound(prefix: string, base: string, fs: seq<Files>, reqs: seq<Request>,
                                      replies: seq<Reply>, ops: seq<Operation>, k: nat)
    requires !SlashesAgree(prefix, base) && Asked(prefix, ops, reqs)
    requires Served(prefix, base, fs, reqs, replies) && OnlyNames(base, fs[0]) && k < |ops|
    ensures OnlyNames(base, fs[k]) && OnlyNames(base, fs[k + 1]) && LooksEmpty(ops[k], replies[k])
    decreases k
  {
    if k > 0 {
      NeverFound(prefix, base, fs, reqs, replies, ops, k - 1);
    }
    At(prefix, base, fs, reqs, replies, k);
    NothingFound(prefix, base, fs[k], ops[k]);
  }

  /** So a slash in one of the two places is needed, and enough, for a GET to find what was posted. */
  lemma SlashNeeded(prefix: string, base: string, e: string, body: string)
    requires IsName(e)
    ensures var (_, files) := Handle(prefix, base, map[], Ask(prefix, Create(e, body)));
            Handle(prefix, base, files, Ask(prefix, Fetch(e, 1))).0 == Reply(OK, Content(body))
            <==> SlashesAgree(prefix, base)
  {
    CreateHandled(prefix, base, map[], e, body);
    OneNextId(map[], base, e, NextId(map[], base, e), 1);
    var files: Files := map[][Key(base, e, 1) := body];
    FetchHandled(prefix, base, files, e, 1);
    if SlashesAgree(prefix, base) {
      SeenKey(prefix, base, e, 1);
    } else {
      assert IsKeyOfName(base, Key(base, e, 1));
      NotSeen(prefix, base, files, e, 1);
    }
  }
}
