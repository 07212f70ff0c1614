/** Every request and its reply with statuses, texts and files written out. */
module ApiLaws {
  import opened Options
  import opened Text
  import opened TextLaws
  import opened FileStorage
  import opened CrudHandler
  import opened ApiHandler
  import opened ApiRefinement
  import opened ApiRuns

  /** What follows the prefix: an entity and an id with a slash between, or one text without a slash that is taken for both. */
  predicate IsRest(rest: string, entity: string, id: string) {
    '/' !in id && (rest == entity + "/" + id || (rest == id && entity == id))
  }

  lemma RestCut(prefix: string, rest: string, entity: string, id: string)
    requires IsRest(rest, entity, id)
    ensures Stripped(prefix, prefix + rest) == Some(rest) && EntityOf(rest) == entity && IdOf(rest) == id
  {
    assert (prefix + rest)[|prefix|..] == rest;
    if rest == entity + "/" + id {
      SplitLast(entity, '/', id);
    } else {
      NoSlash(id);
    }
  }

  /** The file of an entity and an id. */
  lemma KeyIs(base: string, entity: string, n: int)
    ensures Key(base, entity, n) == Canon(base + entity + "/" + DecimalInt(n))
  {
  }

  /** A run of slashes is one slash. */
  lemma CanonCollapses(a: string, b: string)
    requires b != "" && b[0] != '/'
    ensures Canon(a + "/" + "/" + b) == Canon(a + "/" + b)
  {
    assert a + "/" + "/" + b == (a + "/" + "/") + b;
    CanonAppend(a + "/" + "/", b, |b|);
    CanonAppend(a + "/", b, |b|);
    CanonSlash(a + "/");
  }

  /** The request leads to the file of the entity and the number. */
  lemma Leads(prefix: string, base: string, target: string, rest: string, entity: string, id: string, n: int)
    requires target == prefix + rest && IsRest(rest, entity, id) && LexicalCast(id) == Some(n)
    ensures Addresses(prefix, base, target, Key(base, entity, n))
  {
    RestCut(prefix, rest, entity, id);
  }

  // ---- The fixed texts ----

  lemma PutTexts(before: string)
    ensures BodyText(Fixed(InvalidPut), before) == "Invalid Request" && BodyText(Kept, before) == before
  {
  }

  lemma DeleteTexts(before: string)
    ensures BodyText(Fixed(Deleted), before) == "successfully deleted"
    ensures BodyText(Fixed(NoEntityId), before) == "Invalid Request: entity id does not exist"
  {
  }

  lemma GetTexts(before: string)
    ensures BodyText(Fixed(FileNotFound), before) == "Invalid Request: file not found"
  {
  }

  // ---- PUT ----

  lemma PutUnread(prefix: string, base: string, files: Files, req: Request, rest: string)
    requires req.verb == Put && Stripped(prefix, req.target) == Some(rest) && LexicalCast(IdOf(rest)) == None
    ensures Handle(prefix, base, files, req) == (Reply(NOT_FOUND, Fixed(InvalidPut)), files)
  {
  }

  lemma PutRefused(prefix: string, base: string, files: Files, req: Request, rest: string, entity: string, id: string,
                   before: string)
    requires req.verb == Put && req.target == prefix + rest && IsRest(rest, entity, id) && LexicalCast(id) == None
    ensures Handle(prefix, base, files, req).1 == files
    ensures var r := Handle(prefix, base, files, req).0; r.status == 404 && BodyText(r.body, before) == "Invalid Request"
  {
    RestCut(prefix, rest, entity, id);
    PutUnread(prefix, base, files, req, rest);
  }

  /** A PUT at an id replaces the file that is there, and leaves the body of the response alone; without a file it is refused. */
  lemma PutReplies(prefix: string, base: string, files: Files, req: Request, rest: string, entity: string, id: string, n: int,
                   before: string)
    requires req.verb == Put && req.target == prefix + rest && IsRest(rest, entity, id) && LexicalCast(id) == Some(n)
    ensures var k := Key(base, entity, n);
            var (r, files') := Handle(prefix, base, files, req);
            && files' == (if k in files then files[k := req.body] else files)
            && r.status == (if k in files then 200 else 404)
            && BodyText(r.body, before) == if k in files then before else "Invalid Request"
  {
    Leads(prefix, base, req.target, rest, entity, id, n);
    PutAt(prefix, base, files, req, Key(base, entity, n));
    PutTexts(before);
  }

  // ---- DELETE ----

  lemma DeleteUnread(prefix: string, base: string, files: Files, req: Request, rest: string)
    requires req.verb == Delete && Stripped(prefix, req.target) == Some(rest) && LexicalCast(IdOf(rest)) == None
    ensures Handle(prefix, base, files, req) == (Reply(BAD_REQUEST, Fixed(IdNotParsed)), files)
  {
  }

  lemma DeleteRefused(prefix: string, base: string, files: Files, req: Request, rest: string, entity: string, id: string,
                      before: string)
    requires req.verb == Delete && req.target == prefix + rest && IsRest(rest, entity, id) && LexicalCast(id) == None
    ensures Handle(prefix, base, files, req).1 == files
    ensures var r := Handle(prefix, base, files, req).0;
            r.status == 400 && BodyText(r.body, before) == "Invalid Request: entity_id could not be parsed"
  {
    RestCut(prefix, rest, entity, id);
    DeleteUnread(prefix, base, files, req, rest);
  }

  /** A DELETE at an id removes the file that is there; without a file it is refused. */
  lemma DeleteReplies(prefix: string, base: string, files: Files, req: Request, rest: string, entity: string, id: string,
                      n: int, before: string)
    requires req.verb == Delete && req.target == prefix + rest && IsRest(rest, entity, id) && LexicalCast(id) == Some(n)
    ensures var k := Key(base, entity, n);
            var (r, files') := Handle(prefix, base, files, req);
            && files' == (if k in files then files - {k} else files)
            && r.status == (if k in files then 200 else 404)
            && BodyText(r.body, before)
               == if k in files then "successfully deleted" else "Invalid Request: entity id does not exist"
  {
    Leads(prefix, base, req.target, rest, entity, id, n);
    DeleteAt(prefix, base, files, req, Key(base, entity, n));
    DeleteTexts(before);
  }

  // ---- GET ----

  lemma GetUnread(prefix: string, base: string, files: Files, req: Request, rest: string)
    requires req.verb == Get && Stripped(prefix, req.target) == Some(rest)
    requires StartsWithDigit(IdOf(rest)) && LexicalCast(IdOf(rest)) == None
    ensures Handle(prefix, base, files, req) == (Reply(NOT_FOUND, Fixed(RetrieveFailed)), files)
  {
  }

  /** A last part that starts with a digit but is no int is refused. */
  lemma GetRefused(prefix: string, base: string, files: Files, req: Request, rest: string, entity: string, id: string,
                   before: string)
    requires req.verb == Get && req.target == prefix + rest && IsRest(rest, entity, id)
    requires id != "" && '0' <= id[0] <= '9' && LexicalCast(id) == None
    ensures Handle(prefix, base, files, req).1 == files
    ensures var r := Handle(prefix, base, files, req).0;
            r.status == 404 && BodyText(r.body, before) == "Invalid Request: retrieve failed"
  {
    RestCut(prefix, rest, entity, id);
    GetUnread(prefix, base, files, req, rest);
  }

  lemma GetReplies(prefix: string, base: string, files: Files, req: Request, rest: string, entity: string, id: string, n: int,
                   before: string)
    requires req.verb == Get && req.target == prefix + rest && IsRest(rest, entity, id)
    requires id != "" && '0' <= id[0] <= '9' && LexicalCast(id) == Some(n)
    ensures var k := Key(base, entity, n);
            var (r, files') := Handle(prefix, base, files, req);
            && files' == files && r.status == (if k in files then 200 else 404)
            && BodyText(r.body, before) == if k in files then files[k] else "Invalid Request: file not found"
  {
    DigitCut(prefix, req.target, rest, entity, id);
    Leads(prefix, base, req.target, rest, entity, id, n);
    GetAt(prefix, base, files, req, Key(base, entity, n));
    GetTexts(before);
  }

  lemma DigitCut(prefix: string, target: string, rest: string, entity: string, id: string)
    requires target == prefix + rest && IsRest(rest, entity, id) && id != "" && '0' <= id[0] <= '9'
    ensures Stripped(prefix, target).Some? && StartsWithDigit(IdOf(Stripped(prefix, target).value))
  {
    RestCut(prefix, rest, entity, id);
  }

  lemma ListCut(prefix: string, target: string, rest: string, entity: string, id: string)
    requires target == prefix + rest && IsRest(rest, entity, id) && (id == "" || !('0' <= id[0] <= '9'))
    ensures Stripped(prefix, target) == Some(rest) && !StartsWithDigit(IdOf(rest))
  {
    RestCut(prefix, rest, entity, id);
  }

  /** Any other last part makes the GET a list of the ids from 1 to the one before the least that is not used. */
  lemma ListReplies(prefix: string, base: string, files: Files, req: Request, rest: string, entity: string, id: string,
                    n: nat, before: string)
    requires req.verb == Get && req.target == prefix + rest && IsRest(rest, entity, id)
    requires (id == "" || !('0' <= id[0] <= '9')) && IsNextId(files, base, rest, n + 1)
    ensures Handle(prefix, base, files, req).1 == files
    ensures var r := Handle(prefix, base, files, req).0; r.status == 200 && BodyText(r.body, before) == ListText(n)
  {
    ListCut(prefix, req.target, rest, entity, id);
    Listed(prefix, base, files, req, rest, n);
    ListingText(n, before);
  }

  lemma Listed(prefix: string, base: string, files: Files, req: Request, rest: string, n: nat)
    requires req.verb == Get && Stripped(prefix, req.target) == Some(rest) && !StartsWithDigit(IdOf(rest))
    requires IsNextId(files, base, rest, n + 1)
    ensures Handle(prefix, base, files, req) == (Reply(OK, Listing(n)), files)
  {
    ListAt(prefix, base, files, req, rest);
    OneNextId(files, base, rest, NextId(files, base, rest), n + 1);
  }

  lemma ListingText(n: nat, before: string)
    ensures Reply(OK, Listing(n)).status == 200 && BodyText(Listing(n), before) == ListText(n)
  {
  }

  /** "[]", "[1]", "[1, 2]" and so on. */
  lemma ListTextLaws(n: nat)
    ensures ListText(0) == "[]" && ListText(1) == "[1]"
    ensures n > 0 ==> ListText(n) == "[" + Ids(n) + "]" && ListText(n + 1) == "[" + (Ids(n) + ", " + Decimal(n + 1)) + "]"
  {
    assert "[" + "" + "]" == "[]" && "[" + "1" + "]" == "[1]";
  }

  // ---- POST ----

  /** A POST stores its body at the least id that the last part of the target does not use, and replies with this id. */
  lemma PostReplies(prefix: string, base: string, files: Files, req: Request, head: string, entity: string, n: int,
                    before: string)
    requires req.verb == Post && '/' !in entity && (req.target == head + "/" + entity || req.target == entity)
    requires IsNextId(files, base, entity, n)
    ensures var (r, files') := Handle(prefix, base, files, req);
            && files' == files[Key(base, entity, n) := req.body]
            && r.status == 200 && BodyText(r.body, before) == "{\"id\": " + DecimalInt(n) + "}"
  {
    if req.target == head + "/" + entity {
      SplitLast(head, '/', entity);
    } else {
      NoSlash(entity);
    }
    OneNextId(files, base, entity, NextId(files, base, entity), n);
  }

  // ---- Other targets and other verbs ----

  lemma OtherTargets(prefix: string, base: string, files: Files, req: Request, before: string)
    requires !(prefix <= req.target) && req.verb in {Get, Put, Delete}
    ensures Handle(prefix, base, files, req).1 == files && Handle(prefix, base, files, req).0.status == 404
    ensures BodyText(Handle(prefix, base, files, req).0.body, before)
            == if req.verb == Get then "Invalid Request: get request"
               else if req.verb == Put then "Invalid Request"
               else "Invalid Request: entity does not exist"
  {
  }

  lemma OtherVerbs(prefix: string, base: string, files: Files, req: Request, before: string)
    requires req.verb == OtherVerb
    ensures Handle(prefix, base, files, req).1 == files
    ensures var r := Handle(prefix, base, files, req).0;
            r.status == 400 && BodyText(r.body, before) == "{\"error\": \"Unsupported HTTP method\"}"
  {
  }

  // ---- Ids that are refused ----

  /** With an id that is not an optional sign and digits, or whose number no int holds, PUT and DELETE change nothing and are
      refused, and so is GET if the id starts with a digit. */
  lemma BadIdRefused(prefix: string, base: string, files: Files, req: Request, rest: string, entity: string, id: string,
                     before: string)
    requires req.target == prefix + rest && IsRest(rest, entity, id)
    requires forall sign: string, digits: string, n :: IsNumeral(id, sign, digits, n) ==> !(-0x8000_0000 <= n <= 0x7fff_ffff)
    ensures req.verb in {Put, Delete} ==> Handle(prefix, base, files, req).1 == files
    ensures req.verb == Put ==> Handle(prefix, base, files, req).0.status == 404
    ensures req.verb == Delete ==> Handle(prefix, base, files, req).0.status == 400
    ensures req.verb == Get && id != "" && '0' <= id[0] <= '9' ==> Handle(prefix, base, files, req).0.status == 404
  {
    if LexicalCast(id).Some? {
      var sign, digits := CastsNumeral(id);
    }
    match req.verb
    case Put => PutRefused(prefix, base, files, req, rest, entity, id, before);
    case Delete => DeleteRefused(prefix, base, files, req, rest, entity, id, before);
    case Get =>
      if id != "" && '0' <= id[0] <= '9' {
        GetRefused(prefix, base, files, req, rest, entity, id, before);
      }
    case _ =>
  }

  // ---- Which requests change a file ----

  /** A DELETE changes a stored file exactly when the file is gone after it; a PUT exactly when the file holds the new body
      whatever that is. */
  lemma ChangesIff(prefix: string, base: string, files: Files, req: Request, key: string)
    requires key in files
    ensures req.verb == Delete ==> (Changes(prefix, base, req, key) <==> key !in Handle(prefix, base, files, req).1)
    ensures req.verb == Put && Changes(prefix, base, req, key)
            ==> key in Handle(prefix, base, files, req).1 && Handle(prefix, base, files, req).1[key] == req.body
    ensures !Changes(prefix, base, req, key)
            ==> key in Handle(prefix, base, files, req).1 && Handle(prefix, base, files, req).1[key] == files[key]
  {
    if Changes(prefix, base, req, key) {
      if req.verb == Put {
        PutAt(prefix, base, files, req, key);
      } else {
        DeleteAt(prefix, base, files, req, key);
      }
    } else {
      Spares(prefix, base, files, req, key);
    }
  }

  // ---- Requests of a client ----

  /** The operations that a client can ask for, and the requests for them. */
  lemma AskIs(prefix: string, e: string, id: int, body: string)
    ensures var root := (if prefix != "" && prefix[|prefix| - 1] == '/' then prefix else prefix + "/") + e;
            && Ask(prefix, Create(e, body)) == Request(Post, root, body, 11)
            && Ask(prefix, List(e)) == Request(Get, root, "", 11)
            && Ask(prefix, Fetch(e, id)) == Request(Get, root + "/" + DecimalInt(id), "", 11)
            && Ask(prefix, Replace(e, id, body)) == Request(Put, root + "/" + DecimalInt(id), body, 11)
            && Ask(prefix, Remove(e, id)) == Request(Delete, root + "/" + DecimalInt(id), "", 11)
  {
  }

  lemma CanAskIff(e: string, id: int, body: string)
    ensures CanAsk(Create(e, body)) <==> e != "" && '/' !in e
    ensures CanAsk(List(e)) <==> e != "" && '/' !in e && !('0' <= e[0] <= '9')
    ensures CanAsk(Fetch(e, id)) <==> e != "" && '/' !in e && 0 <= id <= 0x7fff_ffff
    ensures CanAsk(Replace(e, id, body)) <==> e != "" && '/' !in e && -0x8000_0000 <= id <= 0x7fff_ffff
    ensures CanAsk(Remove(e, id)) <==> e != "" && '/' !in e && -0x8000_0000 <= id <= 0x7fff_ffff
  {
  }

  lemma SlashesAgreeIff(prefix: string, base: string)
    ensures SlashesAgree(prefix, base)
            <==> (prefix != "" && prefix[|prefix| - 1] == '/') || (base != "" && base[|base| - 1] == '/')
  {
  }

  /** The next id is the least one from 1 up whose file is not there. */
  lemma NextIdIff(files: Files, base: string, entity: string, n: int)
    ensures NextId(files, base, entity) == n
            <==> n >= 1 && Key(base, entity, n) !in files && forall j :: 1 <= j < n ==> Key(base, entity, j) in files
  {
    var m := NextId(files, base, entity);
    assert forall j: int :: Used(files, base, entity, j) <==> Key(base, entity, j) in files;
    if n >= 1 && Key(base, entity, n) !in files && forall j :: 1 <= j < n ==> Key(base, entity, j) in files {
      OneNextId(files, base, entity, m, n);
    }
  }
}
