/**
 The REST interface as a whole: requests as clients write them, against a plain map from entity and id to data.

 Targets are cut at the prefix and at the last slash, ids are printed and parsed, and paths are files; none of that
 shows from outside, provided that the prefix or the base path ends with a slash.
 */
module ApiRefinement {
  import opened Options
  import opened Text
  import opened FileStorage
  import opened CrudHandler
  import opened ApiHandler

  // ---- The store that clients see ----

  type Store = map<(string, int), string>

  datatype Operation =
    | Create(entity: string, body: string)
    | List(entity: string)
    | Fetch(entity: string, id: int)
    | Replace(entity: string, id: int, body: string)
    | Remove(entity: string, id: int)

  datatype Answer = Created(id: int) | Listed(count: nat) | Data(body: string) | Done | Missing

  ghost predicate IsLeastFree(m: Store, entity: string, id: int) {
    id >= 1 && (entity, id) !in m && forall j :: 1 <= j < id ==> (entity, j) in m
  }

  /** One operation on the store, with the answer that it gives. */
  ghost predicate Allowed(m: Store, op: Operation, a: Answer, m': Store) {
    match op
    case Create(e, body) => a.Created? && IsLeastFree(m, e, a.id) && m' == m[(e, a.id) := body]
    case List(e) => a.Listed? && IsLeastFree(m, e, a.count + 1) && m' == m
    case Fetch(e, id) => m' == m && a == if (e, id) in m then Data(m[(e, id)]) else Missing
    case Replace(e, id, body) =>
      if (e, id) in m then a == Done && m' == m[(e, id) := body] else a == Missing && m' == m
    case Remove(e, id) =>
      if (e, id) in m then a == Done && m' == m - {(e, id)} else a == Missing && m' == m
  }

  // ---- Requests and replies as text ----

  /** Names without slashes; only a list request cannot have a name that starts with a digit, and only an id that
      is an int, and for reading not negative, can be given in a target. */
  predicate CanAsk(op: Operation) {
    IsName(op.entity) &&
    match op
    case Create(_, _) => true
    case List(e) => !StartsWithDigit(e)
    case Fetch(_, id) => id >= 0 && InInt(id)
    case Replace(_, id, _) => InInt(id)
    case Remove(_, id) => InInt(id)
  }

  function Slashed(prefix: string): string {
    if EndsWithSlash(prefix) then prefix else prefix + "/"
  }

  function Ask(prefix: string, op: Operation): Request {
    var root := Slashed(prefix) + op.entity;
    match op
    case Create(_, body) => Request(Post, root, body, 11)
    case List(_) => Request(Get, root, "", 11)
    case Fetch(_, id) => Request(Get, root + "/" + DecimalInt(id), "", 11)
    case Replace(_, id, body) => Request(Put, root + "/" + DecimalInt(id), body, 11)
    case Remove(_, id) => Request(Delete, root + "/" + DecimalInt(id), "", 11)
  }

  /** The reply says the answer. */
  ghost predicate Says(r: Reply, op: Operation, a: Answer) {
    match a
    case Created(id) => r == Reply(OK, NewId(id))
    case Listed(n) => r == Reply(OK, Listing(n))
    case Data(body) => r == Reply(OK, Content(body))
    case Done => r == Reply(OK, if op.Replace? then Kept else Fixed(Deleted))
    case Missing => r.status == NOT_FOUND && r.body.Fixed?
  }

  /** The files under `base` hold the store. */
  ghost predicate Holds(base: string, files: Files, m: Store) {
    && (forall e: string, i: int | (e, i) in m :: IsName(e))
    && (forall e: string, i: int | IsName(e) ::
          ((e, i) in m <==> Key(base, e, i) in files) && ((e, i) in m ==> m[(e, i)] == files[Key(base, e, i)]))
  }

  /** POST takes the entity from the end of the target, the other requests from after the prefix. With neither a
      prefix nor a base path that ends with a slash the two are different files. */
  predicate SlashesAgree(prefix: string, base: string) {
    EndsWithSlash(prefix) || EndsWithSlash(base)
  }

  // ---- Targets ----

  /** What the handler takes for the entity. */
  function Seen(prefix: string, entity: string): string {
    if EndsWithSlash(prefix) then entity else "/" + entity
  }

  lemma Strip(prefix: string, rest: string)
    ensures Stripped(prefix, Slashed(prefix) + rest) == Some(Seen(prefix, rest))
  {
    assert (Slashed(prefix) + rest)[|prefix|..] == Seen(prefix, rest);
  }

  lemma NoSlash(e: string)
    requires '/' !in e
    ensures AfterLast(e, '/') == e && BeforeLast(e, '/') == e
  {
  }

  lemma TargetOfEntity(prefix: string, e: string)
    requires IsName(e)
    ensures AfterLast(Slashed(prefix) + e, '/') == e
    ensures Stripped(prefix, Slashed(prefix) + e) == Some(Seen(prefix, e))
    ensures IdOf(Seen(prefix, e)) == e
  {
    Strip(prefix, e);
    var p := Slashed(prefix);
    assert p + e == p[..|p| - 1] + ['/'] + e;
    SplitLast(p[..|p| - 1], '/', e);
    if EndsWithSlash(prefix) {
      NoSlash(e);
    } else {
      assert Seen(prefix, e) == "" + ['/'] + e;
      SplitLast("", '/', e);
    }
  }

  lemma TargetOfId(prefix: string, e: string, id: int)
    requires IsName(e)
    ensures Stripped(prefix, Slashed(prefix) + e + "/" + DecimalInt(id)) == Some(Seen(prefix, e) + "/" + DecimalInt(id))
    ensures EntityOf(Seen(prefix, e) + "/" + DecimalInt(id)) == Seen(prefix, e)
    ensures IdOf(Seen(prefix, e) + "/" + DecimalInt(id)) == DecimalInt(id)
  {
    var d := DecimalInt(id);
    Strip(prefix, e + "/" + d);
    assert Slashed(prefix) + e + "/" + d == Slashed(prefix) + (e + "/" + d);
    assert Seen(prefix, e + "/" + d) == Seen(prefix, e) + "/" + d;
    DecimalHasNo(id, '/');
    SplitLast(Seen(prefix, e), '/', d);
  }

  lemma SeenKey(prefix: string, base: string, e: string, id: int)
    requires IsName(e) && SlashesAgree(prefix, base)
    ensures Key(base, Seen(prefix, e), id) == Key(base, e, id)
  {
    if !EndsWithSlash(prefix) {
      SlashLost(base, e, id);
    }
  }

  /** The target leads a request to the file `key`. */
  ghost predicate Addresses(prefix: string, base: string, target: string, key: string) {
    var path := Stripped(prefix, target);
    && path.Some? && LexicalCast(IdOf(path.value)).Some?
    && Key(base, EntityOf(path.value), LexicalCast(IdOf(path.value)).value) == key
  }

  lemma AddressOf(prefix: string, base: string, e: string, id: int)
    requires IsName(e) && InInt(id)
    ensures Addresses(prefix, base, Slashed(prefix) + e + "/" + DecimalInt(id), Key(base, Seen(prefix, e), id))
  {
    TargetOfId(prefix, e, id);
    CastDecimal(id);
  }

  // ---- One request ----

  lemma NextIdHeld(base: string, files: Files, m: Store, e: string)
    requires Holds(base, files, m) && IsName(e)
    ensures IsLeastFree(m, e, NextId(files, base, e))
  {
    var n := NextId(files, base, e);
    forall j | 1 <= j < n
      ensures (e, j) in m
    {
      assert Used(files, base, e, j);
    }
  }

  lemma HoldsPut(base: string, files: Files, m: Store, e: string, id: int, data: string)
    requires Holds(base, files, m) && IsName(e)
    ensures Holds(base, files[Key(base, e, id) := data], m[(e, id) := data])
  {
    var files', m' := files[Key(base, e, id) := data], m[(e, id) := data];
    forall f: string, i: int | IsName(f)
      ensures ((f, i) in m' <==> Key(base, f, i) in files') && ((f, i) in m' ==> m'[(f, i)] == files'[Key(base, f, i)])
    {
      if Key(base, f, i) == Key(base, e, id) {
        KeyInjective(base, f, i, e, id);
      }
    }
  }

  lemma HoldsDrop(base: string, files: Files, m: Store, e: string, id: int)
    requires Holds(base, files, m) && IsName(e)
    ensures Holds(base, files - {Key(base, e, id)}, m - {(e, id)})
  {
    var files', m' := files - {Key(base, e, id)}, m - {(e, id)};
    forall f: string, i: int | IsName(f)
      ensures ((f, i) in m' <==> Key(base, f, i) in files') && ((f, i) in m' ==> m'[(f, i)] == files'[Key(base, f, i)])
    {
      if Key(base, f, i) == Key(base, e, id) {
        KeyInjective(base, f, i, e, id);
      }
    }
  }

  lemma ListSeen(prefix: string, base: string, files: Files, e: string)
    requires IsName(e) && SlashesAgree(prefix, base)
    ensures NextId(files, base, Seen(prefix, e)) == NextId(files, base, e)
  {
    forall j: int
      ensures Used(files, base, Seen(prefix, e), j) <==> Used(files, base, e, j)
    {
      SeenKey(prefix, base, e, j);
    }
    OneNextId(files, base, e, NextId(files, base, Seen(prefix, e)), NextId(files, base, e));
  }

  ghost predicate Refines(prefix: string, base: string, files: Files, m: Store, op: Operation, a: Answer, m': Store) {
    var (r, files') := Handle(prefix, base, files, Ask(prefix, op));
    Allowed(m, op, a, m') && Says(r, op, a) && Holds(base, files', m')
  }

  lemma Concludes(prefix: string, base: string, files: Files, m: Store, op: Operation, a: Answer, m': Store,
                  reply: Reply, files': Files)
    requires Handle(prefix, base, files, Ask(prefix, op)) == (reply, files')
    requires Allowed(m, op, a, m') && Says(reply, op, a) && Holds(base, files', m')
    ensures Refines(prefix, base, files, m, op, a, m')
  {
  }

  lemma CreateHandled(prefix: string, base: string, files: Files, e: string, body: string)
    requires IsName(e)
    ensures var id := NextId(files, base, e);
            Handle(prefix, base, files, Ask(prefix, Create(e, body))) == (Reply(OK, NewId(id)), files[Key(base, e, id) := body])
  {
    TargetOfEntity(prefix, e);
  }

  lemma CreateRefines(prefix: string, base: string, files: Files, m: Store, e: string, body: string)
    requires Holds(base, files, m) && IsName(e)
    ensures var id := NextId(files, base, e);
            Refines(prefix, base, files, m, Create(e, body), Created(id), m[(e, id) := body])
  {
    CreateHandled(prefix, base, files, e, body);
    NextIdHeld(base, files, m, e);
    HoldsPut(base, files, m, e, NextId(files, base, e), body);
  }

  lemma ListAt(prefix: string, base: string, files: Files, req: Request, path: string)
    requires req.verb == Get && Stripped(prefix, req.target) == Some(path) && !StartsWithDigit(IdOf(path))
    ensures Handle(prefix, base, files, req) == (Reply(OK, Listing(NextId(files, base, path) - 1)), files)
  {
  }

  lemma ListAsked(prefix: string, e: string)
    requires CanAsk(List(e))
    ensures var req := Ask(prefix, List(e));
            && req.verb == Get && Stripped(prefix, req.target) == Some(Seen(prefix, e))
            && !StartsWithDigit(IdOf(Seen(prefix, e)))
  {
    TargetOfEntity(prefix, e);
  }

  lemma ListHandled(prefix: string, base: string, files: Files, e: string)
    requires CanAsk(List(e))
    ensures Handle(prefix, base, files, Ask(prefix, List(e)))
            == (Reply(OK, Listing(NextId(files, base, Seen(prefix, e)) - 1)), files)
  {
    ListAsked(prefix, e);
    ListAt(prefix, base, files, Ask(prefix, List(e)), Seen(prefix, e));
  }

  lemma ListRefines(prefix: string, base: string, files: Files, m: Store, e: string)
    requires SlashesAgree(prefix, base) && Holds(base, files, m) && CanAsk(List(e))
    ensures Refines(prefix, base, files, m, List(e), Listed(NextId(files, base, e) - 1), m)
  {
    ListHandled(prefix, base, files, e);
    ListSeen(prefix, base, files, e);
    NextIdHeld(base, files, m, e);
    var n := NextId(files, base, e) - 1;
    Concludes(prefix, base, files, m, List(e), Listed(n), m, Reply(OK, Listing(n)), files);
  }

  lemma GetAt(prefix: string, base: string, files: Files, req: Request, key: string)
    requires req.verb == Get && Addresses(prefix, base, req.target, key)
    requires StartsWithDigit(IdOf(Stripped(prefix, req.target).value))
    ensures Handle(prefix, base, files, req)
            == (if key in files then Reply(OK, Content(files[key])) else Reply(NOT_FOUND, Fixed(FileNotFound)), files)
  {
  }

  lemma IdStartsWithDigit(prefix: string, e: string, id: int)
    requires IsName(e) && id >= 0
    ensures var path := Stripped(prefix, Slashed(prefix) + e + "/" + DecimalInt(id));
            path.Some? && StartsWithDigit(IdOf(path.value))
  {
    TargetOfId(prefix, e, id);
  }

  lemma FetchHandled(prefix: string, base: string, files: Files, e: string, id: int)
    requires CanAsk(Fetch(e, id))
    ensures var key := Key(base, Seen(prefix, e), id);
            Handle(prefix, base, files, Ask(prefix, Fetch(e, id)))
            == (if key in files then Reply(OK, Content(files[key])) else Reply(NOT_FOUND, Fixed(FileNotFound)), files)
  {
    AddressOf(prefix, base, e, id);
    IdStartsWithDigit(prefix, e, id);
    GetAt(prefix, base, files, Ask(prefix, Fetch(e, id)), Key(base, Seen(prefix, e), id));
  }

  lemma FetchRefines(prefix: string, base: string, files: Files, m: Store, e: string, id: int)
    requires SlashesAgree(prefix, base) && Holds(base, files, m) && CanAsk(Fetch(e, id))
    ensures Refines(prefix, base, files, m, Fetch(e, id), if (e, id) in m then Data(m[(e, id)]) else Missing, m)
  {
    FetchHandled(prefix, base, files, e, id);
    SeenKey(prefix, base, e, id);
  }

  lemma PutAt(prefix: string, base: string, files: Files, req: Request, key: string)
    requires req.verb == Put && Addresses(prefix, base, req.target, key)
    ensures Handle(prefix, base, files, req)
            == if key in files then (Reply(OK, Kept), files[key := req.body]) else (Reply(NOT_FOUND, Fixed(InvalidPut)), files)
  {
  }

  lemma DeleteAt(prefix: string, base: string, files: Files, req: Request, key: string)
    requires req.verb == Delete && Addresses(prefix, base, req.target, key)
    ensures Handle(prefix, base, files, req)
            == if key in files then (Reply(OK, Fixed(Deleted)), files - {key})
               else (Reply(NOT_FOUND, Fixed(NoEntityId)), files)
  {
  }

  lemma ReplaceHandled(prefix: string, base: string, files: Files, e: string, id: int, body: string)
    requires CanAsk(Replace(e, id, body))
    ensures var key := Key(base, Seen(prefix, e), id);
            Handle(prefix, base, files, Ask(prefix, Replace(e, id, body)))
            == if key in files then (Reply(OK, Kept), files[key := body]) else (Reply(NOT_FOUND, Fixed(InvalidPut)), files)
  {
    AddressOf(prefix, base, e, id);
    PutAt(prefix, base, files, Ask(prefix, Replace(e, id, body)), Key(base, Seen(prefix, e), id));
  }

  lemma ReplaceRefines(prefix: string, base: string, files: Files, m: Store, e: string, id: int, body: string)
    requires SlashesAgree(prefix, base) && Holds(base, files, m) && CanAsk(Replace(e, id, body))
    ensures Refines(prefix, base, files, m, Replace(e, id, body),
                    if (e, id) in m then Done else Missing, if (e, id) in m then m[(e, id) := body] else m)
  {
    ReplaceHandled(prefix, base, files, e, id, body);
    SeenKey(prefix, base, e, id);
    HoldsPut(base, files, m, e, id, body);
  }

  lemma RemoveHandled(prefix: string, base: string, files: Files, e: string, id: int)
    requires CanAsk(Remove(e, id))
    ensures var key := Key(base, Seen(prefix, e), id);
            Handle(prefix, base, files, Ask(prefix, Remove(e, id)))
            == if key in files then (Reply(OK, Fixed(Deleted)), files - {key})
               else (Reply(NOT_FOUND, Fixed(NoEntityId)), files)
  {
    AddressOf(prefix, base, e, id);
    DeleteAt(prefix, base, files, Ask(prefix, Remove(e, id)), Key(base, Seen(prefix, e), id));
  }

  lemma RemoveRefines(prefix: string, base: string, files: Files, m: Store, e: string, id: int)
    requires SlashesAgree(prefix, base) && Holds(base, files, m) && CanAsk(Remove(e, id))
    ensures Refines(prefix, base, files, m, Remove(e, id),
                    if (e, id) in m then Done else Missing, if (e, id) in m then m - {(e, id)} else m)
  {
    RemoveHandled(prefix, base, files, e, id);
    SeenKey(prefix, base, e, id);
    HoldsDrop(base, files, m, e, id);
  }

  /** Every request does what its operation does to the store, and its reply says the answer. */
  lemma RequestRefines(prefix: string, base: string, files: Files, m: Store, op: Operation)
    returns (a: Answer, m': Store)
    requires SlashesAgree(prefix, base) && Holds(base, files, m) && CanAsk(op)
    ensures Refines(prefix, base, files, m, op, a, m')
  {
    match op
    case Create(e, body) =>
      a, m' := Created(NextId(files, base, e)), m[(e, NextId(files, base, e)) := body];
      CreateRefines(prefix, base, files, m, e, body);
    case List(e) =>
      a, m' := Listed(NextId(files, base, e) - 1), m;
      ListRefines(prefix, base, files, m, e);
    case Fetch(e, id) =>
      a, m' := if (e, id) in m then Data(m[(e, id)]) else Missing, m;
      FetchRefines(prefix, base, files, m, e, id);
    case Replace(e, id, body) =>
      a, m' := if (e, id) in m then Done else Missing, if (e, id) in m then m[(e, id) := body] else m;
      ReplaceRefines(prefix, base, files, m, e, id, body);
    case Remove(e, id) =>
      a, m' := if (e, id) in m then Done else Missing, if (e, id) in m then m - {(e, id)} else m;
      RemoveRefines(prefix, base, files, m, e, id);
  }

  // ---- Replies as text ----

  lemma CreatedTextInjective(m: int, n: int)
    requires CreatedText(m) == CreatedText(n)
    ensures m == n
  {
    var open := "{\"id\": ";
    assert CreatedText(m) == open + (DecimalInt(m) + "}") && CreatedText(n) == open + (DecimalInt(n) + "}");
    SameMiddle(open, DecimalInt(m), DecimalInt(n), "}");
    DecimalInjective(m, n);
  }

  lemma SameMiddle(a: string, b: string, c: string, d: string)
    requires a + (b + d) == a + (c + d)
    ensures b == c
  {
    assert b + d == (a + (b + d))[|a|..] && c + d == (a + (c + d))[|a|..];
    assert b == (b + d)[..|b|] && c == (c + d)[..|c|];
  }

  lemma {:induction false} IdsLonger(m: nat, n: nat)
    requires m < n
    ensures |Ids(m)| < |Ids(n)|
    decreases n
  {
    DecimalHasNo(n, '/');
    if m < n - 1 {
      IdsLonger(m, n - 1);
    }
  }

  lemma ListTextInjective(m: nat, n: nat)
    requires ListText(m) == ListText(n)
    ensures m == n
  {
    assert |ListText(m)| == |Ids(m)| + 2 && |ListText(n)| == |Ids(n)| + 2;
    if m < n {
      IdsLonger(m, n);
    } else if n < m {
      IdsLonger(n, m);
    }
  }

  /** The answers that an operation can have. */
  predicate Fits(op: Operation, a: Answer) {
    match op
    case Create(_, _) => a.Created?
    case List(_) => a.Listed?
    case Fetch(_, _) => a.Data? || a.Missing?
    case Replace(_, _, _) => a.Done? || a.Missing?
    case Remove(_, _) => a.Done? || a.Missing?
  }

  lemma AllowedFits(m: Store, op: Operation, a: Answer, m': Store)
    requires Allowed(m, op, a, m')
    ensures Fits(op, a)
  {
  }

  /** A client that knows what it asked reads the answer off the status and the text of the reply, whatever the store is. */
  lemma TextTells(op: Operation, m: Store, r: Reply, a: Answer, m': Store, n: Store, s: Reply, b: Answer, n': Store,
                  before: string)
    requires Says(r, op, a) && Allowed(m, op, a, m') && Says(s, op, b) && Allowed(n, op, b, n')
    requires r.status == s.status && BodyText(r.body, before) == BodyText(s.body, before)
    ensures a == b
  {
    AllowedFits(m, op, a, m');
    AllowedFits(n, op, b, n');
    match op
    case Create(_, _) => CreatedTextInjective(a.id, b.id);
    case List(_) => ListTextInjective(a.count, b.count);
    case _ =>
  }
}
