/** The CRUD handler and its allocation of ids (src/api/crud_handler.cc). */
module CrudHandler {
  import opened Text
  import opened FileStorage

  type Files = map<string, string>

  // ---- The least unused id ----

  ghost predicate Used(files: Files, base: string, entity: string, id: int) {
    Key(base, entity, id) in files
  }

  ghost predicate IsNextId(files: Files, base: string, entity: string, id: int) {
    id >= 1 && !Used(files, base, entity, id) && forall j :: 1 <= j < id ==> Used(files, base, entity, j)
  }

  /** n used ids take n files. */
  lemma {:induction false} Pigeonhole(files: Files, base: string, entity: string, n: nat)
    requires forall j :: 1 <= j <= n ==> Used(files, base, entity, j)
    ensures n <= |files|
    decreases n
  {
    if n > 0 {
      assert Used(files, base, entity, n);
      var k := Key(base, entity, n);
      var rest := files - {k};
      forall j | 1 <= j <= n - 1
        ensures Used(rest, base, entity, j)
      {
        assert Used(files, base, entity, j);
        if Key(base, entity, j) == k {
          KeyOfId(base, entity, j, n);
        }
      }
      Pigeonhole(rest, base, entity, n - 1);
      assert rest.Keys == files.Keys - {k};
      assert |rest.Keys| == |rest| && |files.Keys| == |files|;
    }
  }

  /** There is one, by counting: files are finite in number. */
  lemma NextIdExists(files: Files, base: string, entity: string, id: nat) returns (n: int)
    requires 1 <= id && forall j :: 1 <= j < id ==> Used(files, base, entity, j)
    ensures IsNextId(files, base, entity, n) && n <= |files| + 1
    decreases |files| + 1 - id
  {
    Pigeonhole(files, base, entity, id - 1);
    n := id;
    if Used(files, base, entity, id) {
      Pigeonhole(files, base, entity, id);
      n := NextIdExists(files, base, entity, id + 1);
    }
  }

  lemma SomeNextId(files: Files, base: string, entity: string)
    ensures exists id :: IsNextId(files, base, entity, id) && id <= |files| + 1
  {
    var n := NextIdExists(files, base, entity, 1);
  }

  ghost function NextId(files: Files, base: string, entity: string): (id: int)
    ensures IsNextId(files, base, entity, id) && id <= |files| + 1
  {
    SomeNextId(files, base, entity);
    var id :| IsNextId(files, base, entity, id) && id <= |files| + 1;
    id
  }

  lemma OneNextId(files: Files, base: string, entity: string, m: int, n: int)
    requires IsNextId(files, base, entity, m) && IsNextId(files, base, entity, n)
    ensures m == n
  {
  }

  // ---- The code ----

  class CRUDHandler {
    const storage: FileStorage

    constructor (storage: FileStorage)
      ensures this.storage == storage
    {
      this.storage := storage;
    }

    method GetNextId(entity: string) returns (id: int)
      ensures id == NextId(storage.system.files, storage.basePath, entity)
    {
      ghost var files, base := storage.system.files, storage.basePath;
      id := 1;
      var found := storage.Exists(entity, id);
      while found
        invariant storage.system.files == files
        invariant id >= 1 && forall j :: 1 <= j < id ==> Used(files, base, entity, j)
        invariant found <==> Used(files, base, entity, id)
        decreases |files| + 1 - id, found
      {
        Pigeonhole(files, base, entity, id);
        id := id + 1;
        found := storage.Exists(entity, id);
      }
      OneNextId(files, base, entity, id, NextId(files, base, entity));
    }

    method Create(entity: string, data: string) returns (reply: string)
      modifies storage.system
      ensures var id := NextId(old(storage.system.files), storage.basePath, entity);
              && storage.system.files == old(storage.system.files)[Key(storage.basePath, entity, id) := data]
              && reply == "{\"id\": " + DecimalInt(id) + "}"
    {
      var id := GetNextId(entity);
      storage.Write(entity, id, data);
      reply := "{\"id\": " + DecimalInt(id) + "}";
    }

    method Read(entity: string, id: int) returns (data: string)
      ensures var k := Key(storage.basePath, entity, id);
              data == if k in storage.system.files then storage.system.files[k] else ""
    {
      data := storage.Read(entity, id);
    }

    method Update(entity: string, id: int, data: string) returns (ok: bool)
      modifies storage.system
      ensures ok <==> Used(old(storage.system.files), storage.basePath, entity, id)
      ensures storage.system.files == if ok then old(storage.system.files)[Key(storage.basePath, entity, id) := data]
                                      else old(storage.system.files)
    {
      ok := Exists(entity, id);
      if !ok {
        return;
      }
      storage.Write(entity, id, data);
    }

    method Delete(entity: string, id: int) returns (ok: bool)
      modifies storage.system
      ensures ok <==> Used(old(storage.system.files), storage.basePath, entity, id)
      ensures storage.system.files == if ok then old(storage.system.files) - {Key(storage.basePath, entity, id)}
                                      else old(storage.system.files)
    {
      ok := Exists(entity, id);
      if !ok {
        return;
      }
      storage.Remove(entity, id);
    }

    method Exists(entity: string, id: int) returns (found: bool)
      ensures found <==> Used(storage.system.files, storage.basePath, entity, id)
    {
      found := storage.Exists(entity, id);
    }
  }
}
