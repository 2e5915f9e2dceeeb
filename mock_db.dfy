/** src/lib/mock-db.ts as a mutable object: the module-level `fileStore`
    Map becomes the two fields of `FileStore`, and each exported function a
    method proved to leave the state the matching function of DbSpec gives. */
module MockDb {
  import opened Js
  import opened Paths
  import DbSpec

  class FileStore {
    /** The Map's entries, and its keys in first-insertion order. */
    var entries: map<string, DbSpec.Entry>
    var order: seq<string>

    function State(): DbSpec.Db
      reads this
    {
      DbSpec.Db(entries, order)
    }

    ghost predicate Valid()
      reads this
    {
      DbSpec.Valid(State())
    }

    /** The store as the module initialises it. */
    constructor ()
      ensures Valid()
      ensures State() == DbSpec.Seeded()
      ensures DbSpec.FolderKeysEndWithSlash(State()) && DbSpec.AncestorClosed(State())
    {
      entries := DbSpec.Seeded().entries;
      order := DbSpec.Seeded().order;
      DbSpec.SeededWellFormed();
    }

    // -------------------------------------------------------------------
    // The Map primitives

    /** `fileStore.set(k, v)`. */
    method Set(k: string, v: DbSpec.Entry)
      requires Valid()
      modifies this
      ensures Valid()
      ensures State() == DbSpec.Put(old(State()), k, v)
    {
      DbSpec.PutValid(State(), k, v);
      if k !in entries {
        order := order + [k];
      }
      entries := entries[k := v];
    }

    /** `fileStore.delete(k)`. */
    method Delete(k: string)
      requires Valid()
      modifies this
      ensures Valid()
      ensures State() == DbSpec.Remove(old(State()), k)
    {
      DbSpec.RemoveValid(State(), k);
      entries := entries - {k};
      order := DbSpec.Without(order, k);
    }

    /** `fileStore.clear()`. */
    method Clear()
      modifies this
      ensures Valid()
      ensures State() == DbSpec.Empty()
    {
      entries := map[];
      order := [];
    }

    // -------------------------------------------------------------------
    // The exported operations

    /** `ensureDirectoryExists(path)`: walk the segments before the last '/',
        adding a folder marker for each directory key not yet present. */
    method EnsureDirectoryExists(path: string)
      requires Valid()
      modifies this
      ensures Valid()
      ensures State() == DbSpec.EnsureDirs(old(State()), Ancestors(path))
    {
      var parts := Init(Split(path));
      var currentPath := "";
      var i := 0;
      while i < |parts|
        invariant 0 <= i <= |parts|
        invariant Valid()
        invariant DbSpec.EnsureDirs(State(), DirPrefixes(parts[i..], currentPath))
                  == DbSpec.EnsureDirs(old(State()), Ancestors(path))
      {
        assert parts[i..][1..] == parts[i + 1..];
        if parts[i] != "" {
          currentPath := currentPath + parts[i] + "/";
          if currentPath !in entries {
            Set(currentPath, None);
          }
        }
        i := i + 1;
      }
    }

    /** `saveFile(path, content)`. */
    method SaveFile(path: string, content: string)
      requires Valid()
      modifies this
      ensures Valid()
      ensures State() == DbSpec.SaveFile(old(State()), path, content)
      ensures entries[path] == Some(content)
      ensures forall d :: d in Ancestors(path) ==> d in entries
      ensures old(DbSpec.FolderKeysEndWithSlash(State())) ==> DbSpec.FolderKeysEndWithSlash(State())
      ensures old(DbSpec.AncestorClosed(State())) ==> DbSpec.AncestorClosed(State())
    {
      ghost var s := State();
      DbSpec.SaveFileEffect(s, path, content);
      if DbSpec.FolderKeysEndWithSlash(s) { DbSpec.FolderKeysPreserved(s, path, content); }
      if DbSpec.AncestorClosed(s) { DbSpec.AncestorClosedPreserved(s, path, content); }
      EnsureDirectoryExists(path);
      Set(path, Some(content));
    }

    /** `readFile(path)`: the content of a file, `None` (undefined) for an
        absent key or a folder marker. */
    method ReadFile(path: string) returns (r: Option<string>)
      ensures r == DbSpec.ReadFile(State(), path)
      ensures r.Some? <==> path in entries && entries[path].Some?
      ensures r.Some? ==> entries[path] == Some(r.value)
    {
      if path in entries && entries[path].Some? {
        r := Some(entries[path].value);
      } else {
        r := None;
      }
    }

    /** `deleteFile(path)`: removes the key only when it holds a file. */
    method DeleteFile(path: string)
      requires Valid()
      modifies this
      ensures Valid()
      ensures State() == DbSpec.DeleteFile(old(State()), path)
      ensures old(path in entries && entries[path].Some?) ==>
                (forall k :: k in entries <==> k in old(entries) && k != path)
      ensures old(path !in entries || entries[path] == None) ==> unchanged(this)
    {
      DbSpec.DeleteFileEffect(State(), path);
      if path in entries && entries[path] != None {
        Delete(path);
      }
    }

    /** `createFolder(path)`. */
    method CreateFolder(path: string)
      requires Valid()
      modifies this
      ensures Valid()
      ensures State() == DbSpec.CreateFolder(old(State()), path)
      ensures FolderKey(path) in entries
      ensures forall k :: k in old(entries) ==> k in entries && entries[k] == old(entries[k])
      ensures old(DbSpec.FolderKeysEndWithSlash(State())) ==> DbSpec.FolderKeysEndWithSlash(State())
      ensures old(DbSpec.AncestorClosed(State())) ==> DbSpec.AncestorClosed(State())
    {
      ghost var s := State();
      DbSpec.CreateFolderEffect(s, path);
      if DbSpec.FolderKeysEndWithSlash(s) { DbSpec.FolderKeysPreserved(s, path, ""); }
      if DbSpec.AncestorClosed(s) { DbSpec.AncestorClosedPreserved(s, path, ""); }
      var aPath := if |path| > 0 && path[|path| - 1] == '/' then path else path + "/";
      assert aPath == FolderKey(path);
      EnsureDirectoryExists(aPath);
      if aPath !in entries {
        Set(aPath, None);
      }
    }

    /** `deleteFolder(path)`: collect the keys starting with the folder key,
        then delete them one by one. */
    method DeleteFolder(path: string)
      requires Valid()
      modifies this
      ensures Valid()
      ensures State() == DbSpec.DeleteFolder(old(State()), path)
      ensures forall k :: k in entries <==> k in old(entries) && !(FolderKey(path) <= k)
      ensures order == DbSpec.KeysWithoutPrefix(old(order), FolderKey(path))
    {
      DbSpec.DeleteFolderEffect(State(), path);
      var aPath := if |path| > 0 && path[|path| - 1] == '/' then path else path + "/";
      var keysToDelete := DbSpec.KeysWithPrefix(order, aPath);
      var i := 0;
      while i < |keysToDelete|
        invariant 0 <= i <= |keysToDelete|
        invariant Valid()
        invariant DbSpec.RemoveAll(State(), keysToDelete[i..]) == DbSpec.DeleteFolder(old(State()), path)
      {
        assert keysToDelete[i..][1..] == keysToDelete[i + 1..];
        Delete(keysToDelete[i]);
        i := i + 1;
      }
    }

    /** `deletePath(path)`: a folder marker cascades, anything else is a file delete. */
    method DeletePath(path: string)
      requires Valid()
      modifies this
      ensures Valid()
      ensures State() == DbSpec.DeletePath(old(State()), path)
      ensures old(path !in entries) ==> unchanged(this)
    {
      if path in entries && entries[path] == None {
        DeleteFolder(path);
      } else {
        DeleteFile(path);
      }
    }

    /** `listFiles()`: every key once, in insertion order. */
    method ListFiles() returns (r: seq<string>)
      requires Valid()
      ensures r == DbSpec.ListFiles(State())
      ensures forall k :: k in r <==> k in entries
      ensures DbSpec.NoDuplicates(r)
    {
      r := order;
    }

    /** `getAllFilesAsObject()`: the entries, in the order `Object.entries`
        would list the object `Object.fromEntries` builds from them. */
    method GetAllFilesAsObject() returns (r: DbSpec.Record)
      requires Valid()
      ensures r == DbSpec.Snapshot(State())
      ensures DbSpec.Keys(r) == ObjectKeyOrder(order)
      ensures forall i :: 0 <= i < |r| ==> r[i].0 in entries && entries[r[i].0] == r[i].1
      ensures DbSpec.FromEntries(r).entries == entries
    {
      r := DbSpec.Snapshot(State());
      DbSpec.SnapshotRoundTrip(State());
    }

    /** `replaceFileSystem(files)`: clear the store, then set each entry in
        the enumeration order of `files`. */
    method ReplaceFileSystem(files: DbSpec.Record)
      modifies this
      ensures Valid()
      ensures State() == DbSpec.FromEntries(files)
      ensures DbSpec.NoDuplicates(DbSpec.Keys(files)) ==>
                order == DbSpec.Keys(files)
                && forall i :: 0 <= i < |files| ==> files[i].0 in entries && entries[files[i].0] == files[i].1
    {
      Clear();
      var i := 0;
      while i < |files|
        invariant 0 <= i <= |files|
        invariant Valid()
        invariant State() == DbSpec.FromEntries(files[..i])
      {
        assert files[..i + 1][..i] == files[..i];
        Set(files[i].0, files[i].1);
        i := i + 1;
      }
      assert files[..i] == files;
      if DbSpec.NoDuplicates(DbSpec.Keys(files)) {
        DbSpec.FromEntriesExact(files);
      }
    }
  }
}
