/**
 The stored files (src/api/file_storage.cc). The file system is a map from paths to contents; it takes a run of slashes
 in a path for one slash.
 */
module FileStorage {
  import opened Text

  /** A path with every run of slashes replaced by one. */
  function Canon(path: string): string {
    CanonTo(path, |path|)
  }

  /** The first n characters of a path, likewise. */
  function CanonTo(path: string, n: nat): string
    requires n <= |path|
  {
    if n == 0 then ""
    else if n > 1 && path[n - 2] == '/' && path[n - 1] == '/' then CanonTo(path, n - 1)
    else CanonTo(path, n - 1) + [path[n - 1]]
  }

  function GetPath(base: string, entity: string, id: int): string {
    base + entity + "/" + DecimalInt(id)
  }

  /** The file that a path stands for. */
  function Key(base: string, entity: string, id: int): string {
    Canon(GetPath(base, entity, id))
  }

  class FileSystem {
    var files: map<string, string>

    constructor ()
      ensures files == map[]
    {
      files := map[];
    }
  }

  class FileStorage {
    const basePath: string
    const system: FileSystem

    constructor (basePath: string, system: FileSystem)
      ensures this.basePath == basePath && this.system == system
    {
      this.basePath := basePath;
      this.system := system;
    }

    method Write(entity: string, id: int, data: string)
      modifies system
      ensures system.files == old(system.files)[Key(basePath, entity, id) := data]
    {
      var path := GetPath(basePath, entity, id);
      system.files := system.files[Canon(path) := data];
    }

    /** A missing file reads as empty. */
    method Read(entity: string, id: int) returns (data: string)
      ensures data == if Key(basePath, entity, id) in system.files then system.files[Key(basePath, entity, id)] else ""
    {
      var path := Canon(GetPath(basePath, entity, id));
      data := if path in system.files then system.files[path] else "";
    }

    method Remove(entity: string, id: int)
      modifies system
      ensures system.files == old(system.files) - {Key(basePath, entity, id)}
    {
      var path := GetPath(basePath, entity, id);
      system.files := system.files - {Canon(path)};
    }

    method Exists(entity: string, id: int) returns (found: bool)
      ensures found <==> Key(basePath, entity, id) in system.files
    {
      var path := GetPath(basePath, entity, id);
      found := Canon(path) in system.files;
    }
  }

  // ---- Paths keep entities and ids apart ----

  lemma {:induction false} CanonPrefix(a: string, b: string, n: nat)
    requires n <= |a|
    ensures CanonTo(a + b, n) == CanonTo(a, n)
  {
    if n > 0 {
      CanonPrefix(a, b, n - 1);
    }
  }

  lemma {:induction false} CanonAppend(a: string, b: string, n: nat)
    requires n <= |b| && (b != "" ==> b[0] != '/')
    ensures CanonTo(a + b, |a| + n) == Canon(a) + CanonTo(b, n)
    decreases n
  {
    if n == 0 {
      CanonPrefix(a, b, |a|);
    } else {
      CanonAppend(a, b, n - 1);
      assert (a + b)[|a| + n - 1] == b[n - 1];
      assert n > 1 ==> (a + b)[|a| + n - 2] == b[n - 2];
    }
  }

  lemma {:induction false} CanonPlain(s: string, n: nat)
    requires n <= |s| && forall i :: 0 <= i < |s| - 1 ==> s[i] != '/'
    ensures CanonTo(s, n) == s[..n]
  {
    if n > 0 {
      CanonPlain(s, n - 1);
    }
  }

  lemma JoinPath(a: string, b: string)
    requires b != "" && forall i :: 0 <= i < |b| - 1 ==> b[i] != '/'
    requires b[0] != '/'
    ensures Canon(a + b) == Canon(a) + b
  {
    CanonAppend(a, b, |b|);
    CanonPlain(b, |b|);
    assert b[..|b|] == b;
  }

  lemma KeyParts(base: string, entity: string, id: int)
    ensures Key(base, entity, id) == Canon(base + entity + "/") + DecimalInt(id)
  {
    var d := DecimalInt(id);
    DecimalHasNo(id, '/');
    assert forall i :: 0 <= i < |d| ==> d[i] in d;
    JoinPath(base + entity + "/", d);
  }

  /** The ids of one entity have files of their own, whatever the entity is called. */
  lemma KeyOfId(base: string, entity: string, i: int, j: int)
    requires Key(base, entity, i) == Key(base, entity, j)
    ensures i == j
  {
    KeyParts(base, entity, i);
    KeyParts(base, entity, j);
    var p := Canon(base + entity + "/");
    assert (p + DecimalInt(i))[|p|..] == DecimalInt(i) && (p + DecimalInt(j))[|p|..] == DecimalInt(j);
    DecimalInjective(i, j);
  }

  /** The path as text determines entity and id, for all entity names and all ids. */
  lemma PathInjective(base: string, e: string, i: int, f: string, j: int)
    requires GetPath(base, e, i) == GetPath(base, f, j)
    ensures e == f && i == j
  {
    DecimalHasNo(i, '/');
    DecimalHasNo(j, '/');
    assert GetPath(base, e, i) == (base + e) + ['/'] + DecimalInt(i);
    assert GetPath(base, f, j) == (base + f) + ['/'] + DecimalInt(j);
    SplitLast(base + e, '/', DecimalInt(i));
    SplitLast(base + f, '/', DecimalInt(j));
    DecimalInjective(i, j);
    assert (base + e)[|base|..] == e && (base + f)[|base|..] == f;
  }

  /** An entity name as a request can give it in one path segment. */
  predicate IsName(e: string) {
    e != "" && '/' !in e
  }

  lemma CanonSegment(a: string, e: string)
    requires IsName(e)
    ensures Canon(a + e + "/") == Canon(a) + e + "/"
  {
    assert forall i :: 0 <= i < |e| ==> e[i] in e;
    assert a + e + "/" == a + (e + "/");
    JoinPath(a, e + "/");
  }

  /** For names the file determines entity and id as well. */
  lemma KeyInjective(base: string, e: string, i: int, f: string, j: int)
    requires IsName(e) && IsName(f) && Key(base, e, i) == Key(base, f, j)
    ensures e == f && i == j
  {
    KeyParts(base, e, i);
    KeyParts(base, f, j);
    CanonSegment(base, e);
    CanonSegment(base, f);
    var c := Canon(base);
    DecimalHasNo(i, '/');
    DecimalHasNo(j, '/');
    SplitLast(c + e, '/', DecimalInt(i));
    SplitLast(c + f, '/', DecimalInt(j));
    DecimalInjective(i, j);
    assert (c + e)[|c|..] == e && (c + f)[|c|..] == f;
  }

  predicate EndsWithSlash(s: string) {
    s != "" && s[|s| - 1] == '/'
  }

  lemma CanonSlash(a: string)
    ensures Canon(a + "/") == if EndsWithSlash(a) then Canon(a) else Canon(a) + "/"
  {
    CanonPrefix(a, "/", |a|);
  }

  lemma KeyOfName(base: string, e: string, i: int)
    requires IsName(e)
    ensures Key(base, e, i) == Canon(base) + e + "/" + DecimalInt(i)
    ensures Key(base, "/" + e, i) == Canon(base + "/") + e + "/" + DecimalInt(i)
  {
    KeyParts(base, e, i);
    KeyParts(base, "/" + e, i);
    assert base + ("/" + e) + "/" == (base + "/") + e + "/";
    CanonSegment(base + "/", e);
    CanonSegment(base, e);
  }

  /** A slash before the name is lost when the base ends with one. */
  lemma SlashLost(base: string, e: string, i: int)
    requires IsName(e) && EndsWithSlash(base)
    ensures Key(base, "/" + e, i) == Key(base, e, i)
  {
    KeyOfName(base, e, i);
    CanonSlash(base);
  }

  /** Otherwise the file is none that a name has. */
  lemma SlashKept(base: string, e: string, i: int, f: string, j: int)
    requires IsName(e) && IsName(f) && !EndsWithSlash(base)
    ensures Key(base, "/" + e, i) != Key(base, f, j)
  {
    KeyOfName(base, e, i);
    KeyOfName(base, f, j);
    CanonSlash(base);
    var c := Canon(base);
    var s, t := c + "/" + e + "/" + DecimalInt(i), c + f + "/" + DecimalInt(j);
    assert s[|c|] == '/';
    assert t[|c|] == f[0] && f[0] in f;
  }
}
