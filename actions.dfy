/** src/lib/actions.ts: the server actions the editor calls. Each forwards to
    the store; only `readFile` adds behaviour of its own, turning `undefined`
    into `null` with `??`. Both are `None` here, so the empty string of an
    empty file passes through. */
module Actions {
  import opened Js
  import DbSpec
  import MockDb

  /** What `readFile(path)` resolves to: `readDbFile(path) ?? null`. The
      content of a file (empty or not), `None` (null) otherwise. */
  function ReadResult(s: DbSpec.Db, path: string): (r: Option<string>)
    ensures r.Some? <==> path in s.entries && s.entries[path].Some?
    ensures r.Some? ==> s.entries[path] == r
  {
    Coalesce(DbSpec.ReadFile(s, path), None)
  }

  /** An empty file reads as the empty string, not as null. */
  lemma ReadEmptyFile(s: DbSpec.Db, path: string)
    requires path in s.entries && s.entries[path] == Some("")
    ensures ReadResult(s, path) == Some("")
  {
  }

  /** `listFiles()`: the store's key sequence, each key once. */
  method ListFiles(db: MockDb.FileStore) returns (r: seq<string>)
    requires db.Valid()
    ensures r == db.order
    ensures forall k :: k in r <==> k in db.entries
    ensures DbSpec.NoDuplicates(r)
  {
    r := db.ListFiles();
  }

  method ReadFile(db: MockDb.FileStore, path: string) returns (r: Option<string>)
    ensures r == ReadResult(db.State(), path)
  {
    var content := db.ReadFile(path);
    r := Coalesce(content, None);
  }

  /** `saveFile(path, content)`: the store's `saveFile`, nothing more. */
  method SaveFile(db: MockDb.FileStore, path: string, content: string)
    requires db.Valid()
    modifies db
    ensures db.Valid()
    ensures db.State() == DbSpec.SaveFile(old(db.State()), path, content)
  {
    db.SaveFile(path, content);
  }

  method CreateFolder(db: MockDb.FileStore, path: string)
    requires db.Valid()
    modifies db
    ensures db.Valid()
    ensures db.State() == DbSpec.CreateFolder(old(db.State()), path)
  {
    db.CreateFolder(path);
  }

  method DeletePath(db: MockDb.FileStore, path: string)
    requires db.Valid()
    modifies db
    ensures db.Valid()
    ensures db.State() == DbSpec.DeletePath(old(db.State()), path)
  {
    db.DeletePath(path);
  }
}
