/** The handler bodies of the six tools in src/ai/tools/database-tools.ts,
    through which the assistant edits the file store. Each forwards to one
    store operation; the `readFile` handler replaces a falsy result with a
    "not found" message using `||`. */
module DatabaseTools {
  import opened Js
  import opened Paths
  import DbSpec
  import MockDb
  import Actions

  function NotFound(path: string): string { "File not found: " + path }

  /** What the `readFile` tool returns: `readDbFile(path) || NotFound(path)`.
      Only a non-empty string is truthy, so an empty file is reported missing
      just like an absent key or a folder. */
  function ToolReadResult(s: DbSpec.Db, path: string): (r: string)
    ensures path in s.entries && s.entries[path].Some? && s.entries[path].value != "" ==>
              r == s.entries[path].value
    ensures path !in s.entries || s.entries[path] == None || s.entries[path] == Some("") ==>
              r == NotFound(path)
  {
    OrElse(DbSpec.ReadFile(s, path), NotFound(path))
  }

  /** The facade and the tool disagree on an empty file: the facade returns
      the empty string, the tool the not-found message. */
  lemma EmptyFileReadsDiffer(s: DbSpec.Db, path: string)
    requires path in s.entries && s.entries[path] == Some("")
    ensures Actions.ReadResult(s, path) == Some("")
    ensures ToolReadResult(s, path) == NotFound(path)
  {
  }

  /** On a non-empty file the tool and the facade agree. */
  lemma NonEmptyFileReadsAgree(s: DbSpec.Db, path: string)
    requires Actions.ReadResult(s, path).Some? && Actions.ReadResult(s, path).value != ""
    ensures ToolReadResult(s, path) == Actions.ReadResult(s, path).value
  {
  }

  /** The `saveFile` tool: the content is stored and every parent directory exists. */
  method SaveFileTool(db: MockDb.FileStore, path: string, content: string)
    requires db.Valid()
    modifies db
    ensures db.Valid()
    ensures db.State() == DbSpec.SaveFile(old(db.State()), path, content)
    ensures db.entries[path] == Some(content)
    ensures forall d :: d in Ancestors(path) ==> d in db.entries
    ensures forall d :: d in Ancestors(path) && d != path ==>
              db.entries[d] == (if d in old(db.entries) then old(db.entries[d]) else None)
  {
    DbSpec.SaveFileEffect(db.State(), path, content);
    db.SaveFile(path, content);
  }

  method ReadFileTool(db: MockDb.FileStore, path: string) returns (r: string)
    ensures r == ToolReadResult(db.State(), path)
  {
    var content := db.ReadFile(path);
    r := OrElse(content, NotFound(path));
  }

  /** The `listFiles` tool: the store's own listing, unchanged. */
  method ListFilesTool(db: MockDb.FileStore) returns (r: seq<string>)
    requires db.Valid()
    ensures r == db.order
    ensures forall k :: k in r <==> k in db.entries
  {
    r := db.ListFiles();
  }

  method CreateFolderTool(db: MockDb.FileStore, path: string)
    requires db.Valid()
    modifies db
    ensures db.Valid()
    ensures db.State() == DbSpec.CreateFolder(old(db.State()), path)
    ensures FolderKey(path) in db.entries
  {
    db.CreateFolder(path);
  }

  /** The `deleteFile` tool: a folder marker, or an absent key, is left alone. */
  method DeleteFileTool(db: MockDb.FileStore, path: string)
    requires db.Valid()
    modifies db
    ensures db.Valid()
    ensures db.State() == DbSpec.DeleteFile(old(db.State()), path)
    ensures old(path !in db.entries || db.entries[path] == None) ==> db.State() == old(db.State())
  {
    db.DeleteFile(path);
  }

  /** The `deleteFolder` tool: the folder and everything under it go, also
      when the path is given without its trailing '/'. */
  method DeleteFolderTool(db: MockDb.FileStore, path: string)
    requires db.Valid()
    modifies db
    ensures db.Valid()
    ensures db.State() == DbSpec.DeleteFolder(old(db.State()), path)
    ensures forall k :: k in db.entries <==> k in old(db.entries) && !(FolderKey(path) <= k)
    ensures forall k :: k in db.entries ==> db.entries[k] == old(db.entries[k])
  {
    DbSpec.DeleteFolderEffect(db.State(), path);
    db.DeleteFolder(path);
  }
}
