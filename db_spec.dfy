/** The file store of src/lib/mock-db.ts as a value: the JS `Map` from path
    to entry, with its keys in insertion order, and one function per store
    operation giving the store it leaves behind. The class in MockDb is
    proved to follow these functions; the lemmas here state what they mean. */
module DbSpec {
  import opened Js
  import opened Paths

  /** `Some(content)` is a file; `None` is the `null` folder marker. */
  type Entry = Option<string>

  /** The JS `Map`: its entries and its keys in first-insertion order. */
  datatype Db = Db(entries: map<string, Entry>, order: seq<string>)

  /** A plain object `Record<string, string | null>`, as its entries in
      enumeration order. */
  type Record = seq<(string, Entry)>

  ghost predicate NoDuplicates(xs: seq<string>)
  {
    forall x :: multiset(xs)[x] <= 1
  }

  /** The key sequence lists every key of the map exactly once. */
  ghost predicate Valid(s: Db)
  {
    NoDuplicates(s.order) && forall k :: k in s.order <==> k in s.entries
  }

  /** Every folder marker sits at a key ending in '/'. */
  ghost predicate FolderKeysEndWithSlash(s: Db)
  {
    forall k :: k in s.entries && s.entries[k].None? ==> EndsWithSlash(k)
  }

  /** Every ancestor directory of every stored key is stored too. */
  ghost predicate AncestorClosed(s: Db)
  {
    forall k, d :: k in s.entries && d in Ancestors(k) ==> d in s.entries
  }

  /** The welcome script seeded as `script.js` (a template literal whose
      escaped backquotes and `${` are plain characters). */
  const DefaultScript: string :=
    "// Welcome to AI Studio!\n"
    + "// You can write and execute JavaScript code.\n"
    + "// Use the AI tools in the panel on the right to boost your productivity.\n"
    + "\n"
    + "function factorial(n) {\n"
    + "  if (n === 0) {\n"
    + "    return 1;\n"
    + "  }\n"
    + "  return n * factorial(n - 1);\n"
    + "}\n"
    + "\n"
    + "const num = 5;\n"
    + "console.log(`The factorial of ${num} is ${factorial(num)}`);\n"
    + "\n"
    + "// Try asking the AI to \"create a new folder named 'utils'\"\n"
    + "// or \"delete the 'docs' folder\".\n"

  /** The three entries the store starts with. */
  function Seeded(): Db
  {
    Db(map["script.js" := Some(DefaultScript),
           "docs/" := None,
           "docs/README.md" := Some("# Documentation\n\nThis is a sample documentation file.")],
       ["script.js", "docs/", "docs/README.md"])
  }

  /** The store after `clear()`: no entries and no keys. */
  function Empty(): Db { Db(map[], []) }

  /** `Map.prototype.set`: an existing key keeps its position, a new one goes last. */
  function Put(s: Db, k: string, v: Entry): Db
  {
    Db(s.entries[k := v], if k in s.entries then s.order else s.order + [k])
  }

  /** `xs` with every occurrence of `k` dropped and the rest in order. */
  function Without(xs: seq<string>, k: string): (r: seq<string>)
    ensures multiset(r) == multiset(xs)[k := 0]
  {
    if xs == [] then []
    else
      assert xs == [xs[0]] + xs[1..];
      if xs[0] == k then Without(xs[1..], k) else [xs[0]] + Without(xs[1..], k)
  }

  /** `Map.prototype.delete`. */
  function Remove(s: Db, k: string): Db
  {
    Db(s.entries - {k}, Without(s.order, k))
  }

  /** One step of `ensureDirectoryExists`: add a folder marker unless the key is taken. */
  function AddDir(s: Db, d: string): Db
  {
    if d in s.entries then s else Put(s, d, None)
  }

  function EnsureDirs(s: Db, ds: seq<string>): Db
    decreases |ds|
  {
    if ds == [] then s else EnsureDirs(AddDir(s, ds[0]), ds[1..])
  }

  function SaveFile(s: Db, path: string, content: string): Db
  {
    Put(EnsureDirs(s, Ancestors(path)), path, Some(content))
  }

  /** `readFile`: the content of a file; `None` (undefined) for an absent key or a folder. */
  function ReadFile(s: Db, path: string): Option<string>
  {
    if path in s.entries && s.entries[path].Some? then Some(s.entries[path].value) else None
  }

  function DeleteFile(s: Db, path: string): Db
  {
    if path in s.entries && s.entries[path] != None then Remove(s, path) else s
  }

  function CreateFolder(s: Db, path: string): Db
  {
    var a := FolderKey(path);
    var t := EnsureDirs(s, Ancestors(a));
    if a in t.entries then t else Put(t, a, None)
  }

  /** The keys of `xs` that start with `a`, in order: the `filter` of `deleteFolder`. */
  function KeysWithPrefix(xs: seq<string>, a: string): (r: seq<string>)
    ensures forall k :: k in r <==> k in xs && a <= k
  {
    if xs == [] then []
    else if a <= xs[0] then [xs[0]] + KeysWithPrefix(xs[1..], a)
    else KeysWithPrefix(xs[1..], a)
  }

  /** The keys of `xs` that do not start with `a`, in order. */
  function KeysWithoutPrefix(xs: seq<string>, a: string): (r: seq<string>)
  {
    if xs == [] then []
    else if a <= xs[0] then KeysWithoutPrefix(xs[1..], a)
    else [xs[0]] + KeysWithoutPrefix(xs[1..], a)
  }

  function RemoveAll(s: Db, ks: seq<string>): Db
    decreases |ks|
  {
    if ks == [] then s else RemoveAll(Remove(s, ks[0]), ks[1..])
  }

  function DeleteFolder(s: Db, path: string): Db
  {
    var a := FolderKey(path);
    RemoveAll(s, KeysWithPrefix(s.order, a))
  }

  function DeletePath(s: Db, path: string): Db
  {
    if path in s.entries && s.entries[path] == None then DeleteFolder(s, path) else DeleteFile(s, path)
  }

  function ListFiles(s: Db): seq<string> { s.order }

  /** The keys of a record, in its order. */
  function Keys(r: Record): (ks: seq<string>)
    ensures |ks| == |r|
  {
    seq(|r|, i requires 0 <= i < |r| => r[i].0)
  }

  /** The entries of `e` for the keys `ks`, in that order. */
  function Pairs(e: map<string, Entry>, ks: seq<string>): (r: Record)
    requires forall k :: k in ks ==> k in e
    ensures |r| == |ks|
    ensures Keys(r) == ks
    ensures forall i :: 0 <= i < |r| ==> r[i].0 in e && r[i].1 == e[r[i].0]
  {
    seq(|ks|, i requires 0 <= i < |ks| => (ks[i], e[ks[i]]))
  }

  /** `getAllFilesAsObject`: `Object.fromEntries` builds an object whose
      keys `Object.entries` later lists in JS property order. */
  function Snapshot(s: Db): (r: Record)
    requires Valid(s)
    ensures Keys(r) == ObjectKeyOrder(s.order)
    ensures multiset(Keys(r)) == multiset(s.order)
    ensures forall i :: 0 <= i < |r| ==> r[i].0 in s.entries && s.entries[r[i].0] == r[i].1
  {
    var ks := ObjectKeyOrder(s.order);
    assert forall k :: k in ks ==> k in s.entries by {
      forall k | k in ks ensures k in s.entries { assert k in multiset(s.order); }
    }
    Pairs(s.entries, ks)
  }

  /** `replaceFileSystem`: clear, then `set` each entry in enumeration order. */
  function FromEntries(r: Record): Db
  {
    if r == [] then Empty()
    else Put(FromEntries(r[..|r| - 1]), r[|r| - 1].0, r[|r| - 1].1)
  }

  // ---------------------------------------------------------------------
  // The Map primitives keep the key sequence in step with the map.

  lemma PutValid(s: Db, k: string, v: Entry)
    requires Valid(s)
    ensures Valid(Put(s, k, v))
  {
  }

  lemma RemoveValid(s: Db, k: string)
    requires Valid(s)
    ensures Valid(Remove(s, k))
  {
    var r := Remove(s, k);
    forall x ensures x in r.order <==> x in r.entries {
      assert x in r.order <==> x in multiset(r.order);
    }
  }

  /** `set` on a new key appends it; on a present key the order stays. */
  lemma PutOrder(s: Db, k: string, v: Entry)
    ensures Put(s, k, v).entries[k] == v
    ensures forall x :: x in s.entries && x != k ==> x in Put(s, k, v).entries && Put(s, k, v).entries[x] == s.entries[x]
    ensures Put(s, k, v).entries.Keys == s.entries.Keys + {k}
    ensures s.order <= Put(s, k, v).order
  {
  }

  // ---------------------------------------------------------------------
  // ensureDirectoryExists

  /** Adding missing directories: each of `ds` becomes present, present keys
      keep their values, new keys come from `ds` and are folder markers, and
      the old key order is a prefix of the new one. */
  lemma {:induction false} EnsureDirsEffect(s: Db, ds: seq<string>)
    requires Valid(s)
    ensures var t := EnsureDirs(s, ds);
      && Valid(t)
      && (forall d :: d in ds ==> d in t.entries)
      && (forall k :: k in s.entries ==> k in t.entries && t.entries[k] == s.entries[k])
      && (forall k :: k in t.entries && k !in s.entries ==> k in ds && t.entries[k] == None)
      && s.order <= t.order
    decreases |ds|
  {
    if ds != [] {
      var s1 := AddDir(s, ds[0]);
      AddDirEffect(s, ds[0]);
      EnsureDirsEffect(s1, ds[1..]);
      assert ds == [ds[0]] + ds[1..];
      assert s1.order <= EnsureDirs(s1, ds[1..]).order;
    }
  }

  /** One step of `ensureDirectoryExists`: `d` is present afterwards, and it is
      the only key that may be new, as a folder marker. */
  lemma AddDirEffect(s: Db, d: string)
    requires Valid(s)
    ensures var t := AddDir(s, d);
      && Valid(t)
      && d in t.entries
      && (forall k :: k in s.entries ==> k in t.entries && t.entries[k] == s.entries[k])
      && (forall k :: k in t.entries && k !in s.entries ==> k == d && t.entries[k] == None)
      && s.order <= t.order
  {
    if d !in s.entries { PutValid(s, d, None); }
  }

  /** With every directory already present, `ensureDirectoryExists` changes nothing. */
  lemma {:induction false} EnsureDirsPresent(s: Db, ds: seq<string>)
    requires forall d :: d in ds ==> d in s.entries
    ensures EnsureDirs(s, ds) == s
    decreases |ds|
  {
    if ds != [] {
      assert ds[0] in s.entries;
      EnsureDirsPresent(s, ds[1..]);
    }
  }

  // ---------------------------------------------------------------------
  // saveFile / readFile

  /** `saveFile(p, c)`: reading `p` gives `c` (so a second save overwrites the
      first); every ancestor of `p` is present; existing keys other than `p`
      keep their values; the only new keys are `p` and folder markers for its
      ancestors; the old key order is a prefix of the new one. */
  lemma SaveFileEffect(s: Db, path: string, content: string)
    requires Valid(s)
    ensures var t := SaveFile(s, path, content);
      && Valid(t)
      && ReadFile(t, path) == Some(content)
      && (forall d :: d in Ancestors(path) ==> d in t.entries)
      && (forall k :: k in s.entries && k != path ==> k in t.entries && t.entries[k] == s.entries[k])
      && (forall k :: k in t.entries && k !in s.entries && k != path ==> k in Ancestors(path) && t.entries[k] == None)
      && s.order <= t.order
  {
    EnsureDirsEffect(s, Ancestors(path));
    PutValid(EnsureDirs(s, Ancestors(path)), path, Some(content));
  }

  /** The second of two saves to one path decides what is read. */
  lemma SaveFileTwice(s: Db, path: string, c1: string, c2: string)
    ensures ReadFile(SaveFile(SaveFile(s, path, c1), path, c2), path) == Some(c2)
  {
  }

  /** `readFile` is undefined exactly for an absent key or a folder marker,
      and otherwise gives the stored content, the empty string included. */
  lemma ReadFileCases(s: Db, path: string)
    ensures ReadFile(s, path).None? <==> path !in s.entries || s.entries[path] == None
    ensures ReadFile(s, path).Some? ==> s.entries[path] == Some(ReadFile(s, path).value)
  {
  }

  // ---------------------------------------------------------------------
  // deleteFile

  /** `deleteFile` removes the key when it holds a file, keeping the order of
      the rest; an absent key or a folder marker leaves the store, its key
      order included, as it was. */
  lemma DeleteFileEffect(s: Db, path: string)
    requires Valid(s)
    ensures var t := DeleteFile(s, path);
      && Valid(t)
      && (path in s.entries && s.entries[path].Some? ==>
            (forall k :: k in t.entries <==> k in s.entries && k != path)
            && (forall k :: k in t.entries ==> t.entries[k] == s.entries[k])
            && t.order == Without(s.order, path))
      && (path !in s.entries || s.entries[path] == None ==> t == s)
  {
    RemoveValid(s, path);
  }

  // ---------------------------------------------------------------------
  // createFolder

  /** `createFolder(p)` with `a` the folder key of `p`: `a` and its ancestors
      are present; no existing entry changes (so an existing `a` keeps its
      value); the new keys are `a` and its ancestors, all folder markers. */
  lemma CreateFolderEffect(s: Db, path: string)
    requires Valid(s)
    ensures var a := FolderKey(path); var t := CreateFolder(s, path);
      && Valid(t)
      && EndsWithSlash(a)
      && a in t.entries
      && (forall d :: d in Ancestors(a) ==> d in t.entries)
      && (forall k :: k in s.entries ==> k in t.entries && t.entries[k] == s.entries[k])
      && (forall k :: k in t.entries && k !in s.entries ==> (k == a || k in Ancestors(a)) && t.entries[k] == None)
      && s.order <= t.order
  {
    var a := FolderKey(path);
    EnsureDirsEffect(s, Ancestors(a));
    PutValid(EnsureDirs(s, Ancestors(a)), a, None);
  }

  /** Creating a folder twice is the same as creating it once. */
  lemma CreateFolderIdempotent(s: Db, path: string)
    ensures CreateFolder(CreateFolder(s, path), path) == CreateFolder(s, path)
  {
    var a := FolderKey(path);
    var t := CreateFolder(s, path);
    EnsureDirsAll(s, Ancestors(a));
    assert forall d :: d in Ancestors(a) ==> d in t.entries;
    EnsureDirsPresent(t, Ancestors(a));
  }

  /** Every directory asked for is present afterwards, and nothing is removed. */
  lemma {:induction false} EnsureDirsAll(s: Db, ds: seq<string>)
    ensures forall d :: d in ds ==> d in EnsureDirs(s, ds).entries
    ensures s.entries.Keys <= EnsureDirs(s, ds).entries.Keys
    decreases |ds|
  {
    if ds != [] {
      EnsureDirsAll(AddDir(s, ds[0]), ds[1..]);
      assert ds == [ds[0]] + ds[1..];
    }
  }

  // ---------------------------------------------------------------------
  // deleteFolder / deletePath

  /** Removing keys one after another. */
  lemma RemoveAllEffect(s: Db, ks: seq<string>)
    requires Valid(s)
    ensures var t := RemoveAll(s, ks);
      && Valid(t)
      && (forall k :: k in t.entries <==> k in s.entries && k !in ks)
      && (forall k :: k in t.entries ==> t.entries[k] == s.entries[k])
  {
    RemoveAllValid(s, ks);
    RemoveAllEntries(s, ks);
  }

  lemma {:induction false} RemoveAllValid(s: Db, ks: seq<string>)
    requires Valid(s)
    ensures Valid(RemoveAll(s, ks))
    decreases |ks|
  {
    if ks != [] {
      RemoveValid(s, ks[0]);
      RemoveAllValid(Remove(s, ks[0]), ks[1..]);
    }
  }

  lemma {:induction false} RemoveAllEntries(s: Db, ks: seq<string>)
    ensures var t := RemoveAll(s, ks);
      && (forall k :: k in t.entries <==> k in s.entries && k !in ks)
      && (forall k :: k in t.entries ==> t.entries[k] == s.entries[k])
    decreases |ks|
  {
    if ks != [] {
      var s1 := Remove(s, ks[0]);
      RemoveAllEntries(s1, ks[1..]);
      assert forall k :: k in ks <==> k == ks[0] || k in ks[1..] by {
        assert ks == [ks[0]] + ks[1..];
      }
    }
  }

  /** After removing one key, filtering by a prefix commutes with it. */
  lemma {:induction false} WithoutPrefixStep(xs: seq<string>, a: string, k: string)
    requires a <= k
    ensures KeysWithoutPrefix(Without(xs, k), a) == KeysWithoutPrefix(xs, a)
  {
    if xs != [] {
      WithoutPrefixStep(xs[1..], a, k);
    }
  }

  lemma {:induction false} RemoveAllPrefixedOrder(s: Db, ks: seq<string>, a: string)
    requires forall k :: k in ks ==> a <= k
    ensures KeysWithoutPrefix(RemoveAll(s, ks).order, a) == KeysWithoutPrefix(s.order, a)
    decreases |ks|
  {
    if ks != [] {
      assert ks[0] in ks;
      assert forall k :: k in ks[1..] ==> k in ks;
      WithoutPrefixStep(s.order, a, ks[0]);
      RemoveAllPrefixedOrder(Remove(s, ks[0]), ks[1..], a);
    }
  }

  /** Once no key starts with `a`, filtering by `a` keeps the whole sequence. */
  lemma {:induction false} WithoutPrefixNone(xs: seq<string>, a: string)
    requires forall k :: k in xs ==> !(a <= k)
    ensures KeysWithoutPrefix(xs, a) == xs
  {
    if xs != [] {
      assert xs[0] in xs;
      assert forall k :: k in xs[1..] ==> k in xs;
      WithoutPrefixNone(xs[1..], a);
      assert xs == [xs[0]] + xs[1..];
    }
  }

  /** `deleteFolder(p)` with `a` the folder key of `p` removes exactly the
      keys that start with `a`: every other key keeps its value and its place
      in the order. Keys such as `docsX` next to `docs/` are not touched. */
  lemma DeleteFolderEffect(s: Db, path: string)
    requires Valid(s)
    ensures var a := FolderKey(path); var t := DeleteFolder(s, path);
      && Valid(t)
      && (forall k :: k in t.entries <==> k in s.entries && !(a <= k))
      && (forall k :: k in t.entries ==> t.entries[k] == s.entries[k])
      && t.order == KeysWithoutPrefix(s.order, a)
  {
    var a := FolderKey(path);
    var ks := KeysWithPrefix(s.order, a);
    var t := RemoveAll(s, ks);
    RemoveAllEffect(s, ks);
    RemoveAllPrefixedOrder(s, ks, a);
    WithoutPrefixNone(t.order, a);
  }

  /** `deletePath` on an absent key changes nothing. */
  lemma DeletePathAbsent(s: Db, path: string)
    requires path !in s.entries
    ensures DeletePath(s, path) == s
  {
  }

  /** `deletePath` on a file is `deleteFile`: exactly that key goes. */
  lemma DeletePathFile(s: Db, path: string)
    requires Valid(s)
    requires path in s.entries && s.entries[path].Some?
    ensures DeletePath(s, path) == DeleteFile(s, path)
    ensures forall k :: k in DeletePath(s, path).entries <==> k in s.entries && k != path
  {
  }

  /** `deletePath` on a folder marker at a key ending in '/' removes that key
      and every key under it, and nothing else. */
  lemma DeletePathFolder(s: Db, path: string)
    requires Valid(s)
    requires path in s.entries && s.entries[path] == None && EndsWithSlash(path)
    ensures var t := DeletePath(s, path);
      && path !in t.entries
      && (forall k :: k in t.entries <==> k in s.entries && !(path <= k))
      && (forall k :: k in t.entries ==> t.entries[k] == s.entries[k])
  {
    DeleteFolderEffect(s, path);
  }

  /** A folder marker whose key lacks the trailing '/' (only an imported
      snapshot can hold one) survives `deletePath`: the cascade runs on the
      key plus '/'. */
  lemma DeletePathUnslashedMarker(s: Db, path: string)
    requires Valid(s)
    requires path in s.entries && s.entries[path] == None && !EndsWithSlash(path)
    ensures path in DeletePath(s, path).entries
  {
    DeleteFolderEffect(s, path);
    assert !(path + "/" <= path);
  }

  /** A sibling that merely shares the folder's name as a prefix, such as
      `docsX` next to `docs/`, survives deleting `docs`. */
  lemma DeleteFolderKeepsSibling(s: Db)
    requires Valid(s) && "docsX" in s.entries
    ensures "docsX" in DeleteFolder(s, "docs").entries
    ensures DeleteFolder(s, "docs").entries["docsX"] == s.entries["docsX"]
  {
    DeleteFolderEffect(s, "docs");
    assert FolderKey("docs") == "docs/";
    assert "docsX"[4] != "docs/"[4];
  }

  /** Naming the seeded folder without its trailing '/' deletes nothing:
      `docs` is not a key, so `deletePath` falls through to `deleteFile`. */
  lemma DeletePathSeededDocs()
    ensures DeletePath(Seeded(), "docs") == Seeded()
  {
    assert "docs" != "docs/" && "docs" != "script.js" && "docs" != "docs/README.md";
    DeletePathAbsent(Seeded(), "docs");
  }

  // ---------------------------------------------------------------------
  // The structural invariants of the tree

  /** The seeded store is consistent, keeps its folder marker at a key ending
      in '/', and holds the ancestor `docs/` of `docs/README.md`. */
  lemma SeededWellFormed()
    ensures Valid(Seeded())
    ensures FolderKeysEndWithSlash(Seeded())
    ensures AncestorClosed(Seeded())
  {
    SeededValid();
    SeededFolderKeys();
    SeededAncestorClosed();
  }

  lemma SeededValid()
    ensures Valid(Seeded())
  {
    SeededOrder();
  }

  lemma SeededFolderKeys()
    ensures FolderKeysEndWithSlash(Seeded())
  {
    assert EndsWithSlash("docs/");
  }

  lemma SeededAncestorClosed()
    ensures AncestorClosed(Seeded())
  {
    var s := Seeded();
    assert s.entries.Keys == {"script.js", "docs/", "docs/README.md"};
    AncestorsOfTopLevel();
    AncestorsOfDocs();
    AncestorsOfDocsReadme();
    ClosedWithOneFolder(s, "script.js", "docs/", "docs/README.md");
  }

  /** A store of a top-level file, a folder and a file inside that folder is
      ancestor-closed. */
  lemma ClosedWithOneFolder(s: Db, top: string, dir: string, inner: string)
    requires s.entries.Keys == {top, dir, inner}
    requires Ancestors(top) == [] && Ancestors(dir) == [dir] && Ancestors(inner) == [dir]
    ensures AncestorClosed(s)
  {
    forall k, d | k in s.entries && d in Ancestors(k) ensures d in s.entries {
      assert k in {top, dir, inner};
    }
  }

  lemma SeededOrder()
    ensures NoDuplicates(["script.js", "docs/", "docs/README.md"])
  {
    var xs := ["script.js", "docs/", "docs/README.md"];
    assert "script.js" != "docs/" by { assert "script.js"[0] != "docs/"[0]; }
    assert "script.js" != "docs/README.md" by { assert "script.js"[0] != "docs/README.md"[0]; }
    assert "docs/" != "docs/README.md" by { assert |"docs/"| != |"docs/README.md"|; }
    assert multiset(xs) == multiset{"script.js"} + multiset{"docs/"} + multiset{"docs/README.md"};
  }

  /** Every store operation but the import keeps folder markers at keys ending in '/'. */
  lemma FolderKeysPreserved(s: Db, path: string, content: string)
    requires Valid(s) && FolderKeysEndWithSlash(s)
    ensures FolderKeysEndWithSlash(SaveFile(s, path, content))
    ensures FolderKeysEndWithSlash(CreateFolder(s, path))
    ensures FolderKeysEndWithSlash(DeleteFile(s, path))
    ensures FolderKeysEndWithSlash(DeleteFolder(s, path))
    ensures FolderKeysEndWithSlash(DeletePath(s, path))
  {
    SaveFileEffect(s, path, content);
    AncestorsEndWithSlash(path);
    CreateFolderEffect(s, path);
    AncestorsEndWithSlash(FolderKey(path));
    DeleteFolderEffect(s, path);
  }

  /** `saveFile` and `createFolder` keep every ancestor of every key present. */
  lemma AncestorClosedPreserved(s: Db, path: string, content: string)
    requires Valid(s) && AncestorClosed(s)
    ensures AncestorClosed(SaveFile(s, path, content))
    ensures AncestorClosed(CreateFolder(s, path))
  {
    SaveFileEffect(s, path, content);
    AncestorsClosed(path);
    var a := FolderKey(path);
    CreateFolderEffect(s, path);
    AncestorsClosed(a);
    var t := CreateFolder(s, path);
    forall k, d | k in t.entries && d in Ancestors(k) ensures d in t.entries {
      if k !in s.entries && k == a {
        assert d in Ancestors(a);
      }
    }
  }

  // ---------------------------------------------------------------------
  // getAllFilesAsObject / replaceFileSystem

  /** Importing a record whose keys are distinct makes the store hold exactly
      its entries, listed in the record's order: no ancestor is repaired. */
  lemma {:induction false} FromEntriesExact(r: Record)
    requires NoDuplicates(Keys(r))
    ensures var t := FromEntries(r);
      && Valid(t)
      && t.order == Keys(r)
      && (forall k :: k in t.entries <==> k in Keys(r))
      && (forall i :: 0 <= i < |r| ==> r[i].0 in t.entries && t.entries[r[i].0] == r[i].1)
  {
    if r != [] {
      var init := r[..|r| - 1];
      var last := r[|r| - 1];
      assert Keys(r) == Keys(init) + [last.0];
      NoDuplicatesSnoc(Keys(init), last.0);
      FromEntriesExact(init);
      var t0 := FromEntries(init);
      PutValid(t0, last.0, last.1);
      var t := FromEntries(r);
      assert t == Put(t0, last.0, last.1);
      forall i | 0 <= i < |r| ensures r[i].0 in t.entries && t.entries[r[i].0] == r[i].1 {
        if i < |r| - 1 {
          assert r[i] == init[i];
          assert Keys(init)[i] == r[i].0;
          assert r[i].0 != last.0;
        }
      }
    }
  }

  lemma NoDuplicatesSnoc(xs: seq<string>, x: string)
    requires NoDuplicates(xs + [x])
    ensures NoDuplicates(xs) && x !in xs
  {
    assert multiset(xs + [x]) == multiset(xs) + multiset{x};
    forall y ensures multiset(xs)[y] <= 1 {
      assert multiset(xs + [x])[y] <= 1;
    }
    assert multiset(xs + [x])[x] <= 1;
  }

  /** Exporting and re-importing keeps every entry and each key exactly once;
      the key order becomes JS property order. */
  lemma SnapshotRoundTrip(s: Db)
    requires Valid(s)
    ensures var t := FromEntries(Snapshot(s));
      && Valid(t)
      && t.entries == s.entries
      && t.order == ObjectKeyOrder(s.order)
      && multiset(t.order) == multiset(s.order)
  {
    var ks := ObjectKeyOrder(s.order);
    SameKeysAfterReorder(s.order, ks);
    assert Snapshot(s) == Pairs(s.entries, ks);
    FromPairs(s.entries, ks);
    RestrictToAllKeys(s.entries, ks);
    FromEntriesExact(Snapshot(s));
  }

  /** A reordering of a duplicate-free sequence is duplicate-free and has the
      same elements. */
  lemma SameKeysAfterReorder(xs: seq<string>, ys: seq<string>)
    requires NoDuplicates(xs) && multiset(ys) == multiset(xs)
    ensures NoDuplicates(ys)
    ensures forall k :: k in ys <==> k in xs
  {
    forall k ensures k in ys <==> k in xs {
      assert k in ys <==> k in multiset(ys);
      assert k in xs <==> k in multiset(xs);
    }
  }

  lemma RestrictToAllKeys(e: map<string, Entry>, ks: seq<string>)
    requires forall k :: k in ks <==> k in e
    ensures (map k | k in ks :: e[k]) == e
  {
  }

  /** Importing the entries of `e` for the distinct keys `ks` yields `e`
      restricted to `ks`, with `ks` as the key order. */
  lemma {:induction false} FromPairs(e: map<string, Entry>, ks: seq<string>)
    requires forall k :: k in ks ==> k in e
    requires NoDuplicates(ks)
    ensures FromEntries(Pairs(e, ks)) == Db(map k | k in ks :: e[k], ks)
  {
    if ks != [] {
      var init, last := ks[..|ks| - 1], ks[|ks| - 1];
      assert ks == init + [last];
      NoDuplicatesSnoc(init, last);
      FromPairs(e, init);
      FromPairsStep(e, ks);
      PutRestricted(e, init, last);
    }
  }

  lemma FromPairsStep(e: map<string, Entry>, ks: seq<string>)
    requires forall k :: k in ks ==> k in e
    requires ks != []
    ensures FromEntries(Pairs(e, ks)) == Put(FromEntries(Pairs(e, ks[..|ks| - 1])), ks[|ks| - 1], e[ks[|ks| - 1]])
  {
    var r := Pairs(e, ks);
    assert r[..|r| - 1] == Pairs(e, ks[..|ks| - 1]);
  }

  lemma PutRestricted(e: map<string, Entry>, init: seq<string>, last: string)
    requires forall k :: k in init ==> k in e
    requires last in e && last !in init
    ensures Put(Db(map k | k in init :: e[k], init), last, e[last]) == Db(map k | k in init + [last] :: e[k], init + [last])
  {
    assert (map k | k in init :: e[k])[last := e[last]] == map k | k in init + [last] :: e[k];
  }

  /** Without array-index keys ("0", "17", ...) the round trip restores the
      store exactly, key order included. */
  lemma SnapshotRoundTripExact(s: Db)
    requires Valid(s)
    requires forall k :: k in s.entries ==> !IsArrayIndex(k)
    ensures FromEntries(Snapshot(s)) == s
  {
    SnapshotRoundTrip(s);
    ObjectKeyOrderNoIndex(s.order);
  }

  /** A key that JS treats as an array index moves to the front on the round trip. */
  lemma SnapshotReordersIndexKeys()
    ensures var s := Db(map["b" := Some("x"), "1" := Some("y")], ["b", "1"]);
      FromEntries(Snapshot(s)).order == ["1", "b"]
  {
    var s := Db(map["b" := Some("x"), "1" := Some("y")], ["b", "1"]);
    TwoKeysValid();
    SnapshotRoundTrip(s);
    OrderOfOneAndB();
  }

  lemma TwoKeysValid()
    ensures Valid(Db(map["b" := Some("x"), "1" := Some("y")], ["b", "1"]))
  {
    var xs := ["b", "1"];
    assert multiset(xs) == multiset{"b", "1"};
  }

  lemma OrderOfOneAndB()
    ensures ObjectKeyOrder(["b", "1"]) == ["1", "b"]
  {
    OneIsIndex();
    assert !IsArrayIndex("b") by { assert !IsDigit("b"[0]); }
    IndexKeyMovesFirst("b", "1");
  }

  /** Of a plain key created before an array-index key, the index key is listed first. */
  lemma IndexKeyMovesFirst(a: string, b: string)
    requires !IsArrayIndex(a) && IsArrayIndex(b)
    ensures ObjectKeyOrder([a, b]) == [b, a]
  {
    var ks := [a, b];
    assert ks[1..] == [b] && [b][1..] == [];
    assert IndexKeys([b]) == [b] + IndexKeys([]);
    assert IndexKeys(ks) == IndexKeys([b]);
    assert OtherKeys([b]) == OtherKeys([]);
    assert OtherKeys(ks) == [a] + OtherKeys([b]);
    assert SortByRank([b]) == [b];
  }

  lemma OneIsIndex()
    ensures IsArrayIndex("1")
  {
    assert "1"[..0] == "";
    assert DecimalValue("1") == 1;
  }

  /** An imported snapshot naming `a/b/c.txt` alone yields a store without
      `a/` or `a/b/`, which therefore is not ancestor-closed. */
  lemma ImportSkipsAncestors()
    ensures var t := FromEntries([("a/b/c.txt", Some("hi"))]);
      && t.entries == map["a/b/c.txt" := Some("hi")]
      && !AncestorClosed(t)
  {
    var r: Record := [("a/b/c.txt", Some("hi"))];
    assert r[..0] == [];
    var t := FromEntries(r);
    assert t == Put(Empty(), "a/b/c.txt", Some("hi"));
    assert t.entries == map["a/b/c.txt" := Some("hi")];
    AncestorsNested();
    assert "a/" in Ancestors("a/b/c.txt");
    assert "a/" !in t.entries;
  }
}
