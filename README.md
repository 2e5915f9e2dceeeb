# Virtual file store of AI Studio, in Dafny

AI Studio keeps the user's project in a virtual file system held by one
module-level JS `Map<string, string | null>` (`src/lib/mock-db.ts`). A
string value is a file. A `null` value is a folder marker, kept at a key
ending in `/`. Folders exist only as path prefixes:

- saving a file first adds a marker for every missing ancestor directory;
- deleting a folder removes every key that starts with the folder key.

The editor reaches the store through server actions (`src/lib/actions.ts`).
The assistant reaches it through six tool handlers
(`src/ai/tools/database-tools.ts`).

The project has six modules:

- `Js` (`js.dfy`). The JavaScript semantics the store depends on:
  `split('/')` with its inverse `join`, `slice(0, -1)`, the `||` and `??`
  operators on a string-or-undefined, and the key order of a plain object
  (array-index keys first, in ascending numeric order, then the other keys
  in creation order).
- `Paths` (`paths.dfy`). Folder-key normalisation, and the ancestor
  directories `ensureDirectoryExists` visits. Two characterisations are
  proved: for a path without empty segments the ancestors are exactly its
  `/`-terminated prefixes, and every ancestor of an ancestor is an ancestor.
- `DbSpec` (`db_spec.dfy`). The store as a value, `Db(entries, order)`:
  - `order` is the Map's key sequence in first-insertion order;
  - there is one function per store operation;
  - lemmas state each operation's effect and the invariants it keeps.
    Every operation keeps the key sequence in step with the map. Every
    operation except `replaceFileSystem` keeps folder markers at
    slash-terminated keys. `saveFile` and `createFolder` keep the store
    ancestor-closed: every ancestor directory of a stored key is stored.
    The deletes and `replaceFileSystem` need not.
- `MockDb` (`mock_db.dfy`). The class `FileStore`, whose two fields are
  the Map. The Map's `set`, `delete` and `clear` are methods that
  reassign those fields. Every exported function is a method proved to
  leave the state the `DbSpec` function gives. The `forEach` and
  `for…of` loops of the source are `while` loops with their invariants.
- `Actions` (`actions.dfy`). The server actions, as methods over a
  `FileStore`.
- `DatabaseTools` (`database_tools.dfy`). The tool handler bodies, as
  methods over a `FileStore`.

The snapshot that `getAllFilesAsObject` returns is modelled as its entry
list in `Object.entries` order. `replaceFileSystem` takes such a list.

## Model

| member | source | states |
|---|---|---|
| DatabaseTools.NotFound | src/ai/tools/database-tools.ts:39 | defines the fallback text `File not found: ` + path; stated by DatabaseTools.ToolReadResult |
| Js.OrElse | src/ai/tools/database-tools.ts:39 | defines the JS logical-or operator on a string or undefined, where only a non-empty string is truthy; its meaning is stated by DatabaseTools.ToolReadResult |
| Js.Coalesce | src/lib/actions.ts:16 | defines `x ?? fallback`; its meaning is stated by Actions.ReadResult |
| Js.IsArrayIndex | src/lib/mock-db.ts:84 | defines the keys listed first by `Object.entries`: canonical numerals below 2^32 - 1; used by Js.ObjectKeyOrder |
| Js.Init | src/lib/mock-db.ts:31 | defines `.slice(0, -1)` on a non-empty array: every element but the last; stated by Paths.InitAppend |
| Paths.DirPrefixes | src/lib/mock-db.ts:30-38 | defines the keys the `forEach` visits; characterised by Paths.DirPrefixesOfClean, Paths.DirPrefixesShape and Paths.DirPrefixesSkipEmpty |
| Paths.Ancestors | src/lib/mock-db.ts:29-39 | defines the ancestor keys of a path; characterised by Paths.AncestorsOfClean and Paths.AncestorsClosed |
| DbSpec.DefaultScript | src/lib/mock-db.ts:5-21 | the welcome script stored at `script.js`, written out character for character; stated by DbSpec.Seeded and DbSpec.SeededWellFormed |
| DbSpec.Seeded | src/lib/mock-db.ts:5-27 | defines the three seeded entries in order; stated by DbSpec.SeededWellFormed |
| DbSpec.Empty | src/lib/mock-db.ts:88 | defines the store after `clear()`, with no entries and no keys; stated by MockDb.FileStore.Clear |
| DbSpec.ListFiles | src/lib/mock-db.ts:79-81 | defines listFiles as the key sequence; stated by MockDb.FileStore.ListFiles and DbSpec.Valid |
| DbSpec.Put | src/lib/mock-db.ts:35 | defines `Map.set`; stated by DbSpec.PutOrder and DbSpec.PutValid |
| DbSpec.Remove | src/lib/mock-db.ts:53 | defines `Map.delete`; stated by DbSpec.RemoveValid and DbSpec.Without |
| DbSpec.AddDir | src/lib/mock-db.ts:34-36 | defines one guarded insertion of a folder marker; stated by DbSpec.AddDirEffect |
| DbSpec.EnsureDirs | src/lib/mock-db.ts:29-39 | defines `ensureDirectoryExists` over a directory list; stated by DbSpec.EnsureDirsEffect and DbSpec.EnsureDirsPresent |
| DbSpec.SaveFile | src/lib/mock-db.ts:41-44 | defines `saveFile`; stated by DbSpec.SaveFileEffect |
| DbSpec.ReadFile | src/lib/mock-db.ts:46-49 | defines `readFile`; stated by DbSpec.ReadFileCases |
| DbSpec.DeleteFile | src/lib/mock-db.ts:51-55 | defines `deleteFile`; stated by DbSpec.DeleteFileEffect |
| DbSpec.CreateFolder | src/lib/mock-db.ts:57-63 | defines `createFolder`; stated by DbSpec.CreateFolderEffect and DbSpec.CreateFolderIdempotent |
| DbSpec.KeysWithoutPrefix | src/lib/mock-db.ts:65-69 | defines the keys `deleteFolder` leaves, in order; stated by DbSpec.DeleteFolderEffect |
| DbSpec.RemoveAll | src/lib/mock-db.ts:68 | defines deleting a list of keys one by one; stated by DbSpec.RemoveAllEffect |
| DbSpec.DeleteFolder | src/lib/mock-db.ts:65-69 | defines `deleteFolder`; stated by DbSpec.DeleteFolderEffect |
| DbSpec.DeletePath | src/lib/mock-db.ts:71-77 | defines `deletePath`; stated by DbSpec.DeletePathAbsent, DbSpec.DeletePathFile and DbSpec.DeletePathFolder |
| DbSpec.FromEntries | src/lib/mock-db.ts:87-92 | defines `replaceFileSystem` on an entry list; stated by DbSpec.FromEntriesExact |
| Js.Split | src/lib/mock-db.ts:31 | `split('/')` gives at least one part and no part contains '/' |
| Js.JoinSplit | src/lib/mock-db.ts:31 | joining the parts of a split with '/' gives back the path, so splitting loses nothing |
| Js.SplitJoin | src/lib/mock-db.ts:31 | splitting the join of '/'-free parts gives back those parts |
| Js.SplitConcat | src/lib/mock-db.ts:31 | a path splits at its first '/' into the first segment and the split of the rest |
| Js.SplitAppend | src/lib/mock-db.ts:31 | splitting `x + "/" + z` gives the split of `x` followed by the split of `z`, for all `x` and `z` |
| Js.SortByRank | src/lib/mock-db.ts:84 | array-index keys are put in ascending numeric order without losing or adding a key (same multiset) |
| Js.InsertByRankSorted | src/lib/mock-db.ts:84 | inserting a key into a numerically sorted key list keeps it sorted |
| Js.PartitionKeys | src/lib/mock-db.ts:84 | the index keys and the other keys together are exactly the original keys |
| Js.ObjectKeyOrder | src/lib/mock-db.ts:84 | the keys of an object built by `Object.fromEntries` enumerate as a permutation of the creation order: all array-index keys first, sorted by value, then the other keys in creation order |
| Js.ObjectKeyOrderNoIndex | src/lib/mock-db.ts:84 | with no array-index key the enumeration order is the creation order |
| Paths.FolderKey | src/lib/mock-db.ts:58 | the folder key ends in '/', extends the path by at most that '/', and equals the path exactly when the path already ends in '/' |
| Paths.DirPrefixesOfClean | src/lib/mock-db.ts:29-39 | starting from accumulated directory `acc`, the keys visited for a path without empty segments are exactly the '/'-terminated prefixes of `acc` + path that are longer than `acc` |
| Paths.AncestorsOfClean | src/lib/mock-db.ts:29-39 | for a path without empty segments, a key is an ancestor iff it is a '/'-terminated prefix of the path |
| Paths.DirPrefixesShape | src/lib/mock-db.ts:29-39 | every visited directory key is clean, ends in '/' and extends the accumulator; every '/'-terminated prefix of a visited key was visited or is a prefix of the accumulator |
| Paths.AncestorsClosed | src/lib/mock-db.ts:29-39 | an ancestor of an ancestor of a path is an ancestor of that path |
| Paths.AncestorsEndWithSlash | src/lib/mock-db.ts:32-35 | every ancestor key ends in '/' |
| Paths.AncestorsNested | src/lib/mock-db.ts:29-39 | `a/b/c.txt` has ancestors `a/` then `a/b/` |
| Paths.AncestorsLeadingSlash | src/lib/mock-db.ts:31-32 | a leading '/' yields an empty first segment, which is skipped: `/p` has the ancestors of `p` |
| Paths.AncestorsDoubleSlash | src/lib/mock-db.ts:31-32 | a `//` anywhere yields an empty segment, which is skipped: `x//y` has the ancestors of `x/y`, for all `x` and `y` |
| Paths.DirPrefixesSkipEmpty | src/lib/mock-db.ts:32 | an empty segment anywhere among the segments contributes no directory |
| Paths.InitAppend | src/lib/mock-db.ts:31 | dropping the last element of `a + b` with `b` non-empty drops it from `b` alone, for all sequences |
| Paths.AncestorsTwoLevels | src/lib/mock-db.ts:29-39 | a file `a/b/f` has the ancestors `a/` then `a/b/`, for any non-empty segments without '/' |
| Paths.AncestorsUnclean | src/lib/mock-db.ts:29-39 | `/a//b/f` has the ancestors `a/` then `a/b/`: the empty segments are skipped |
| Paths.AncestorsOfDocs | src/lib/mock-db.ts:29-39 | `docs/` is its own only ancestor |
| Paths.CleanFolderKeyIsAncestor | src/lib/mock-db.ts:29-39 | a '/'-terminated path without empty segments is among its own ancestors |
| Paths.AncestorsOfRoot | src/lib/mock-db.ts:57-62 | `/` has no ancestors, so `createFolder("/")` adds its marker only through the membership test at line 60 |
| Paths.AncestorsOfDocsReadme | src/lib/mock-db.ts:29-39 | `docs/README.md` has the single ancestor `docs/` |
| Paths.AncestorsOfTopLevel | src/lib/mock-db.ts:29-39 | a top-level file such as `script.js` has no ancestors |
| DbSpec.Without | src/lib/mock-db.ts:53 | `Map.delete` takes the key out of the key sequence, leaving every other key's count as it was |
| DbSpec.KeysWithPrefix | src/lib/mock-db.ts:67 | the filtered key list holds exactly the stored keys that start with the folder key |
| DbSpec.Pairs | src/lib/mock-db.ts:84 | the entry list for a key list has those keys in that order, each with its stored value |
| DbSpec.Snapshot | src/lib/mock-db.ts:83-85 | the snapshot lists every stored key once, in JS property order, with its stored value |
| DbSpec.PutValid | src/lib/mock-db.ts:35 | `set` keeps the key sequence listing every key of the map exactly once |
| DbSpec.RemoveValid | src/lib/mock-db.ts:53 | `delete` keeps the key sequence listing every key of the map exactly once |
| DbSpec.PutOrder | src/lib/mock-db.ts:35 | `set` stores the value, leaves other keys' values, adds only its key, and never moves existing keys in the order |
| DbSpec.AddDirEffect | src/lib/mock-db.ts:34-36 | after one step the directory key is present; existing entries keep their values; the only possible new key is that directory, holding a folder marker; the old order is a prefix of the new |
| DbSpec.EnsureDirsEffect | src/lib/mock-db.ts:29-39 | every visited directory key is present afterwards; existing entries keep their values; the only new keys are visited directories holding folder markers; the old order is a prefix of the new |
| DbSpec.EnsureDirsPresent | src/lib/mock-db.ts:34 | when every directory already exists, nothing changes |
| DbSpec.EnsureDirsAll | src/lib/mock-db.ts:29-39 | every visited directory is present and no key is lost |
| DbSpec.SaveFileEffect | src/lib/mock-db.ts:41-44 | after `saveFile(p, c)` reading `p` gives `c`; all ancestors of `p` exist; other existing keys keep their values; the only new keys are `p` and ancestor folder markers; the old order is a prefix of the new |
| DbSpec.SaveFileTwice | src/lib/mock-db.ts:41-49 | after saving `c1` and then `c2` at one path, reading it gives `c2` |
| DbSpec.ReadFileCases | src/lib/mock-db.ts:46-49 | `readFile(p)` is undefined exactly when `p` is absent or a folder marker, and otherwise is the stored content, the empty string included |
| DbSpec.DeleteFileEffect | src/lib/mock-db.ts:51-55 | on a file key, `deleteFile` removes exactly that key and keeps the order of the rest; on an absent key or a folder marker the store, order included, is unchanged |
| DbSpec.CreateFolderEffect | src/lib/mock-db.ts:57-63 | the normalised key and all its ancestors are present; no existing entry changes, so an existing entry at the key is not overwritten; the new keys are folder markers for the key and its ancestors |
| DbSpec.CreateFolderIdempotent | src/lib/mock-db.ts:57-63 | creating a folder twice equals creating it once |
| DbSpec.RemoveAllEffect | src/lib/mock-db.ts:68 | deleting a list of keys one by one removes exactly those keys and keeps every other value |
| DbSpec.WithoutPrefixStep | src/lib/mock-db.ts:67-68 | deleting a key that starts with the folder key does not change which keys survive the filter, nor their order |
| DbSpec.RemoveAllPrefixedOrder | src/lib/mock-db.ts:67-68 | deleting prefixed keys one by one leaves the unprefixed keys in their original order |
| DbSpec.WithoutPrefixNone | src/lib/mock-db.ts:67 | filtering out a prefix no key has keeps every key |
| DbSpec.DeleteFolderEffect | src/lib/mock-db.ts:65-69 | `deleteFolder(p)` removes exactly the keys that start with folder key `a`; every other key keeps its value and its place in the order |
| DbSpec.DeleteFolderKeepsSibling | src/lib/mock-db.ts:65-69 | `docsX` and its value survive deleting `docs` |
| DbSpec.DeletePathAbsent | src/lib/mock-db.ts:71-77 | `deletePath` on an absent key changes nothing |
| DbSpec.DeletePathFile | src/lib/mock-db.ts:71-77 | `deletePath` on a file is `deleteFile`: exactly that key goes |
| DbSpec.DeletePathFolder | src/lib/mock-db.ts:71-77 | `deletePath` on a folder marker at a '/'-terminated key removes it and every key under it, and nothing else |
| DbSpec.DeletePathUnslashedMarker | src/lib/mock-db.ts:72-73 | a folder marker at a key without a trailing '/' survives `deletePath`, because the cascade runs on the key plus '/' |
| DbSpec.DeletePathSeededDocs | src/lib/mock-db.ts:71-77 | naming the seeded folder as `docs`, without its '/', leaves the seeded store unchanged |
| DbSpec.SeededWellFormed | src/lib/mock-db.ts:1-3 | the seeded store is consistent, has its folder marker at a '/'-terminated key, and holds the ancestor of each key |
| DbSpec.SeededValid | src/lib/mock-db.ts:23-27 | the three seeded entries and their order agree |
| DbSpec.SeededFolderKeys | src/lib/mock-db.ts:25 | the seeded folder marker is at a key ending in '/' |
| DbSpec.SeededAncestorClosed | src/lib/mock-db.ts:25-26 | `docs/README.md` has its ancestor `docs/` in the seeded store |
| DbSpec.FolderKeysPreserved | src/lib/mock-db.ts:1-3 | `saveFile`, `createFolder`, `deleteFile`, `deleteFolder` and `deletePath` keep every folder marker at a key ending in '/' |
| DbSpec.AncestorClosedPreserved | src/lib/mock-db.ts:29-44 | `saveFile` and `createFolder` keep the store ancestor-closed |
| DbSpec.FromEntriesExact | src/lib/mock-db.ts:87-92 | after `replaceFileSystem` of distinct keys, the store holds exactly those entries in that order, with no ancestor added |
| DbSpec.SnapshotRoundTrip | src/lib/mock-db.ts:83-92 | `replaceFileSystem(getAllFilesAsObject())` keeps every entry; each key appears exactly once, reordered into JS property order |
| DbSpec.FromPairs | src/lib/mock-db.ts:87-92 | importing the entries of distinct keys yields the map restricted to them, with that key order |
| DbSpec.SnapshotRoundTripExact | src/lib/mock-db.ts:83-92 | without array-index keys the round trip restores the store exactly, key order included |
| DbSpec.SnapshotReordersIndexKeys | src/lib/mock-db.ts:84 | a store with keys `b` then `1` comes back from the round trip with `1` first |
| DbSpec.IndexKeyMovesFirst | src/lib/mock-db.ts:84 | an array-index key created after a plain key is listed before it |
| DbSpec.ImportSkipsAncestors | src/lib/mock-db.ts:87-92 | importing `a/b/c.txt` alone stores exactly that entry, so the result is not ancestor-closed |
| MockDb.FileStore.constructor | src/lib/mock-db.ts:23-27 | the store starts with the three seeded entries in order, consistent, with folder keys ending in '/' and ancestor-closed |
| MockDb.FileStore.Set | src/lib/mock-db.ts:35 | `Map.set`: new state is `Put` of the old; the key sequence stays consistent |
| MockDb.FileStore.Delete | src/lib/mock-db.ts:53 | `Map.delete`: new state is `Remove` of the old; the key sequence stays consistent |
| MockDb.FileStore.Clear | src/lib/mock-db.ts:88 | `Map.clear`: the store becomes empty |
| MockDb.FileStore.EnsureDirectoryExists | src/lib/mock-db.ts:29-39 | the segment loop leaves the state that adding the missing ancestors in order gives |
| MockDb.FileStore.SaveFile | src/lib/mock-db.ts:41-44 | the path holds the content and every ancestor exists; the folder-key and ancestor-closure invariants are kept |
| MockDb.FileStore.ReadFile | src/lib/mock-db.ts:46-49 | returns content exactly when the key holds a file, and then the stored content |
| MockDb.FileStore.DeleteFile | src/lib/mock-db.ts:51-55 | a file key alone is removed; on an absent key or a folder key nothing changes |
| MockDb.FileStore.CreateFolder | src/lib/mock-db.ts:57-63 | the folder key is present and no existing entry changes; the folder-key and ancestor-closure invariants are kept |
| MockDb.FileStore.DeleteFolder | src/lib/mock-db.ts:65-69 | the deletion loop removes exactly the keys with the folder-key prefix and keeps the rest in order |
| MockDb.FileStore.DeletePath | src/lib/mock-db.ts:71-77 | new state is `deletePath` of the old; an absent path changes nothing |
| MockDb.FileStore.ListFiles | src/lib/mock-db.ts:79-81 | returns the key sequence: every stored key exactly once, in insertion order |
| MockDb.FileStore.GetAllFilesAsObject | src/lib/mock-db.ts:83-85 | returns the entries in JS property order, each with its stored value; importing them gives back the same map |
| MockDb.FileStore.ReplaceFileSystem | src/lib/mock-db.ts:87-92 | the clear-then-set loop leaves the state of importing the entries in order; with distinct keys the store holds exactly them |
| Actions.ReadResult | src/lib/actions.ts:15-17 | the facade read gives the stored content (empty included) exactly when the key holds a file, and null otherwise |
| Actions.ReadEmptyFile | src/lib/actions.ts:16 | an empty file reads as the empty string, since `??` replaces only undefined |
| Actions.ListFiles | src/lib/actions.ts:11-13 | returns the store's key sequence, each stored key once |
| Actions.ReadFile | src/lib/actions.ts:15-17 | returns the facade read of the current store |
| Actions.SaveFile | src/lib/actions.ts:19-21 | the same effect on the store as the store's `saveFile` |
| Actions.CreateFolder | src/lib/actions.ts:23-25 | the same effect on the store as the store's `createFolder` |
| Actions.DeletePath | src/lib/actions.ts:27-29 | the same effect on the store as the store's `deletePath` |
| DatabaseTools.ToolReadResult | src/ai/tools/database-tools.ts:38-40 | the tool read gives a non-empty file's content; for an absent key, a folder or an empty file it gives `File not found: ` + path |
| DatabaseTools.EmptyFileReadsDiffer | src/ai/tools/database-tools.ts:39 | on an empty file the facade returns the empty string and the tool the not-found message |
| DatabaseTools.NonEmptyFileReadsAgree | src/ai/tools/database-tools.ts:38-40 | on a non-empty file the tool returns what the facade returns |
| DatabaseTools.SaveFileTool | src/ai/tools/database-tools.ts:17-26 | the file holds the content; every parent directory exists, holding its old value or a new folder marker |
| DatabaseTools.ReadFileTool | src/ai/tools/database-tools.ts:38-40 | returns the tool read of the current store |
| DatabaseTools.ListFilesTool | src/ai/tools/database-tools.ts:50-52 | returns the store's key sequence unchanged |
| DatabaseTools.CreateFolderTool | src/ai/tools/database-tools.ts:64-66 | the store's `createFolder`; the normalised folder key is present |
| DatabaseTools.DeleteFileTool | src/ai/tools/database-tools.ts:78-80 | the store's `deleteFile`; on a folder key or an absent key the store is unchanged |
| DatabaseTools.DeleteFolderTool | src/ai/tools/database-tools.ts:86-94 | removes exactly the keys under the normalised folder key, also when the path lacks its trailing '/', and keeps every other value |

## Left out

- `async`/`Promise` and the `'use server'` boundary: every call is an ordinary synchronous call.
- Concurrent requests interleaving on the shared module-level map: there is no synchronisation in the source to model.
- The genkit `ai.defineTool` registration and the zod input and output schemas: foreign library behaviour. Only the handler bodies are modelled, and tool inputs are taken to be strings as the schemas demand.
- The React components, the code runner and the AI flows: UI state, dynamic code execution and model-provider calls, outside the store.
- Archive (zip) import and export: no such code appears in the modelled files.
- `readFile`'s `typeof content === 'string'` test is modelled on the two kinds of value the map can hold, a string or `null`.
- `replaceFileSystem` takes the entry list that `Object.entries` gives for its argument object, not a JS object. An object built by `Object.fromEntries` has distinct keys in JS property order, and that order is modelled.
- AncestorClosedPreserved: covers only `saveFile` and `createFolder`. The deletes can break ancestor closure: `deleteFile` of a file stored at a '/'-terminated key, or `deleteFolder` when a key has empty segments, so the invariant is not claimed for them.
