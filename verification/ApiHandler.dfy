/** The REST interface to the store (src/request_handler/request_handler_api.cc): targets, ids as text, and replies. */
module ApiHandler {
  import opened Options
  import opened Text
  import opened FileStorage
  import opened CrudHandler

  datatype Verb = Post | Get | Put | Delete | OtherVerb

  datatype Request = Request(verb: Verb, target: string, body: string, version: int)

  const OK := 200
  const BAD_REQUEST := 400
  const NOT_FOUND := 404

  class Response {
    var version: int
    var contentType: string
    var status: int
    var body: string

    constructor ()
      ensures body == "" && status == OK
    {
      version := 11;
      contentType := "";
      status := OK;
      body := "";
    }
  }

  // ---- What a request does ----

  /** "1, 2, ..., n" */
  function Ids(n: nat): string {
    if n == 0 then "" else if n == 1 then "1" else Ids(n - 1) + ", " + DecimalInt(n)
  }

  /** A target without the prefix. */
  function Stripped(prefix: string, target: string): Option<string> {
    if prefix <= target then Some(target[|prefix|..]) else None
  }

  function EntityOf(path: string): string {
    BeforeLast(path, '/')
  }

  function IdOf(path: string): string {
    AfterLast(path, '/')
  }

  predicate StartsWithDigit(s: string) {
    s != "" && IsDigit(s[0])
  }

  /** The fixed texts that the handler puts in a body. */
  datatype Note =
    | InvalidGet | RetrieveFailed | FileNotFound
    | InvalidPut
    | NoEntity | IdNotParsed | NoEntityId | Deleted
    | Unsupported

  function NoteText(n: Note): string {
    match n
    case InvalidGet => "Invalid Request: get request"
    case RetrieveFailed => "Invalid Request: retrieve failed"
    case FileNotFound => "Invalid Request: file not found"
    case InvalidPut => "Invalid Request"
    case NoEntity => "Invalid Request: entity does not exist"
    case IdNotParsed => "Invalid Request: entity_id could not be parsed"
    case NoEntityId => "Invalid Request: entity id does not exist"
    case Deleted => "successfully deleted"
    case Unsupported => "{\"error\": \"Unsupported HTTP method\"}"
  }

  /** The body of a response; a successful PUT leaves it as it was. */
  datatype Body = Kept | Content(text: string) | NewId(id: int) | Listing(count: nat) | Fixed(note: Note)

  function BodyText(b: Body, before: string): string {
    match b
    case Kept => before
    case Content(text) => text
    case NewId(id) => CreatedText(id)
    case Listing(count) => ListText(count)
    case Fixed(note) => NoteText(note)
  }

  datatype Reply = Reply(status: int, body: Body)

  function CreatedText(id: int): string {
    "{\"id\": " + DecimalInt(id) + "}"
  }

  function ListText(n: nat): string {
    "[" + Ids(n) + "]"
  }

  lemma NextInList(open: string, id: int)
    requires id >= 1
    ensures open + Ids(id) == open + Ids(id - 1) + (if id > 1 then ", " else "") + DecimalInt(id)
  {
    if id == 1 {
      assert open + "" + "" == open;
    } else {
      assert open + (Ids(id - 1) + ", " + DecimalInt(id)) == open + Ids(id - 1) + ", " + DecimalInt(id);
    }
  }

  ghost function HandlePost(base: string, files: Files, req: Request): (Reply, Files) {
    var entity := AfterLast(req.target, '/');
    var id := NextId(files, base, entity);
    (Reply(OK, NewId(id)), files[Key(base, entity, id) := req.body])
  }

  /** A GET whose path ends in a text that starts with a digit. */
  ghost function HandleGetId(base: string, files: Files, path: string): Reply {
    var id := LexicalCast(IdOf(path));
    if id.None? then Reply(NOT_FOUND, Fixed(RetrieveFailed))
    else
      var key := Key(base, EntityOf(path), id.value);
      if key in files then Reply(OK, Content(files[key])) else Reply(NOT_FOUND, Fixed(FileNotFound))
  }

  ghost function HandleGet(prefix: string, base: string, files: Files, req: Request): Reply {
    var path := Stripped(prefix, req.target);
    if path.None? then Reply(NOT_FOUND, Fixed(InvalidGet))
    else if !StartsWithDigit(IdOf(path.value)) then Reply(OK, Listing(NextId(files, base, path.value) - 1))
    else HandleGetId(base, files, path.value)
  }

  ghost function HandlePut(prefix: string, base: string, files: Files, req: Request): (Reply, Files) {
    var path := Stripped(prefix, req.target);
    if path.None? then (Reply(NOT_FOUND, Fixed(InvalidPut)), files)
    else
      var id := LexicalCast(IdOf(path.value));
      if id.None? then (Reply(NOT_FOUND, Fixed(InvalidPut)), files)
      else
        var key := Key(base, EntityOf(path.value), id.value);
        if key in files then (Reply(OK, Kept), files[key := req.body]) else (Reply(NOT_FOUND, Fixed(InvalidPut)), files)
  }

  ghost function HandleDelete(prefix: string, base: string, files: Files, req: Request): (Reply, Files) {
    var path := Stripped(prefix, req.target);
    if path.None? then (Reply(NOT_FOUND, Fixed(NoEntity)), files)
    else
      var id := LexicalCast(IdOf(path.value));
      if id.None? then (Reply(BAD_REQUEST, Fixed(IdNotParsed)), files)
      else
        var key := Key(base, EntityOf(path.value), id.value);
        if key in files then (Reply(OK, Fixed(Deleted)), files - {key}) else (Reply(NOT_FOUND, Fixed(NoEntityId)), files)
  }

  /** Reply and files after a request. */
  ghost function Handle(prefix: string, base: string, files: Files, req: Request): (Reply, Files) {
    match req.verb
    case Post => HandlePost(base, files, req)
    case Get => (HandleGet(prefix, base, files, req), files)
    case Put => HandlePut(prefix, base, files, req)
    case Delete => HandleDelete(prefix, base, files, req)
    case OtherVerb => (Reply(BAD_REQUEST, Fixed(Unsupported)), files)
  }

  // ---- The code ----

  class RequestHandlerAPI {
    const crud: CRUDHandler
    const prefix: string

    constructor (crud: CRUDHandler, prefix: string)
      ensures this.crud == crud && this.prefix == prefix
    {
      this.crud := crud;
      this.prefix := prefix;
    }

    method RemovePrefix(path: string) returns (ok: bool, newPath: string)
      ensures (if ok then Some(newPath) else None) == Stripped(prefix, path)
    {
      newPath := "";
      if |path| < |prefix| {
        return false, newPath;
      } else if path[..|prefix|] != prefix {
        return false, newPath;
      }
      newPath := path[|prefix|..];
      ok := true;
    }

    method ListIds(entity: string) returns (body: string)
      ensures body == ListText(NextId(crud.storage.system.files, crud.storage.basePath, entity) - 1)
    {
      ghost var files, base := crud.storage.system.files, crud.storage.basePath;
      body := "[";
      var id := 1;
      var found := crud.Exists(entity, id);
      while found
        invariant crud.storage.system.files == files
        invariant id >= 1 && forall j :: 1 <= j < id ==> Used(files, base, entity, j)
        invariant found <==> Used(files, base, entity, id)
        invariant body == "[" + Ids(id - 1)
        decreases |files| + 1 - id, found
      {
        Pigeonhole(files, base, entity, id);
        NextInList("[", id);
        if id > 1 {
          body := body + ", ";
        }
        body := body + DecimalInt(id);
        id := id + 1;
        found := crud.Exists(entity, id);
      }
      assert IsNextId(files, base, entity, id);
      OneNextId(files, base, entity, id, NextId(files, base, entity));
      body := body + "]";
    }

    method HandleRequest(req: Request, res: Response)
      modifies res, crud.storage.system
      ensures var (reply, files) := Handle(prefix, crud.storage.basePath, old(crud.storage.system.files), req);
              && res.status == reply.status && res.body == BodyText(reply.body, old(res.body))
              && crud.storage.system.files == files
      ensures res.version == req.version && res.contentType == "application/json"
    {
      res.version := req.version;
      res.contentType := "application/json";
      match req.verb {
        case Post =>
          var reply := crud.Create(AfterLast(req.target, '/'), req.body);
          res.status := OK;
          res.body := reply;
        case Get =>
          GetRequest(req, res);
        case Put =>
          PutRequest(req, res);
        case Delete =>
          DeleteRequest(req, res);
        case OtherVerb =>
          res.status := BAD_REQUEST;
          res.body := NoteText(Unsupported);
      }
    }

    method GetRequest(req: Request, res: Response)
      modifies res`status, res`body
      ensures var reply := HandleGet(prefix, crud.storage.basePath, crud.storage.system.files, req);
              res.status == reply.status && res.body == BodyText(reply.body, old(res.body))
    {
      var ok, path := RemovePrefix(req.target);
      if !ok {
        res.status := NOT_FOUND;
        res.body := NoteText(InvalidGet);
        return;
      }
      if !StartsWithDigit(IdOf(path)) {
        res.body := ListIds(path);
        res.status := OK;
      } else {
        ReadRequest(path, res);
      }
    }

    method ReadRequest(path: string, res: Response)
      modifies res`status, res`body
      ensures var reply := HandleGetId(crud.storage.basePath, crud.storage.system.files, path);
              res.status == reply.status && res.body == BodyText(reply.body, old(res.body))
    {
      var id := LexicalCast(IdOf(path));
      if id.None? {
        res.status := NOT_FOUND;
        res.body := NoteText(RetrieveFailed);
        return;
      }
      var found := crud.Exists(EntityOf(path), id.value);
      if !found {
        res.status := NOT_FOUND;
        res.body := NoteText(FileNotFound);
        return;
      }
      res.body := crud.Read(EntityOf(path), id.value);
      res.status := OK;
    }

    method PutRequest(req: Request, res: Response)
      modifies res`status, res`body, crud.storage.system
      ensures var (reply, files) := HandlePut(prefix, crud.storage.basePath, old(crud.storage.system.files), req);
              && res.status == reply.status && res.body == BodyText(reply.body, old(res.body))
              && crud.storage.system.files == files
    {
      var ok, path := RemovePrefix(req.target);
      if !ok {
        res.status := NOT_FOUND;
        res.body := NoteText(InvalidPut);
        return;
      }
      var id := LexicalCast(IdOf(path));
      if id.None? {
        res.status := NOT_FOUND;
        res.body := NoteText(InvalidPut);
        return;
      }
      ok := crud.Update(EntityOf(path), id.value, req.body);
      if !ok {
        res.status := NOT_FOUND;
        res.body := NoteText(InvalidPut);
        return;
      }
      res.status := OK;
    }

    method DeleteRequest(req: Request, res: Response)
      modifies res`status, res`body, crud.storage.system
      ensures var (reply, files) := HandleDelete(prefix, crud.storage.basePath, old(crud.storage.system.files), req);
              && res.status == reply.status && res.body == BodyText(reply.body, old(res.body))
              && crud.storage.system.files == files
    {
      var ok, path := RemovePrefix(req.target);
      if !ok {
        res.status := NOT_FOUND;
        res.body := NoteText(NoEntity);
        return;
      }
      var id := LexicalCast(IdOf(path));
      if id.None? {
        res.status := BAD_REQUEST;
        res.body := NoteText(IdNotParsed);
        return;
      }
      ok := crud.Delete(EntityOf(path), id.value);
      if !ok {
        res.status := NOT_FOUND;
        res.body := NoteText(NoEntityId);
        return;
      }
      res.status := OK;
      res.body := NoteText(Deleted);
    }
  }
}
