# Workspace file tracking of refact-lsp, modelled in Dafny

This project models `src/files_in_workspace.rs` of the refact-lsp language
server. That file keeps track of the files of the editor's workspace:

- **Discovery.** It finds the files of each workspace folder. It uses a
  version-control listing (git, then Mercurial, then Subversion) when one is
  available. Otherwise it walks the directory tree with a stack of
  candidates, skipping directories whose name is blacklisted.
- **Overlay.** It keeps an overlay of the documents the editor has open,
  together with a "cache dirty" flag.
- **Reads.** File reads prefer the overlay to the disk.
- **Known files.** It keeps the list of known workspace files up to date.
  Folder changes and filesystem events trigger updates, and it hands files to
  two indexers (an AST index and a vector database) when they are present.

## Modules

| file | module | content |
|---|---|---|
| `wrappers.dfy` | `Wrappers` | `Option` and `Result` |
| `paths.dfy` | `Paths` | paths as component sequences, `BLACKLISTED_DIRS`, `is_this_inside_blacklisted_dir` as a loop |
| `host.dfy` | `Host` | the environment the code runs against, as data: the filesystem tree and the oracles listed below |
| `documents.dfy` | `Documents` | `Document`, `DocumentInfo` and its identity, the read precedence, the overlay updates as map functions |
| `discovery.dfy` | `Discovery` | the version-control listing, the candidate-stack walk as a method proved equal to a recursive traversal, the retrieval over project folders |
| `walk_facts.dfy` | `WalkFacts` | what the walk reports, stated against the tree (both directions), and a concrete tree |
| `watcher.dfy` | `Watcher` | the `notify` event kinds and the watcher's filters |
| `workspace.dfy` | `Workspace` | the documents state as a value, what each handler does to it, and the properties of those transitions |
| `context.dfy` | `Context` | the global context as a class whose methods update its fields in place; each method's new state is the one `Workspace` prescribes |

### Modelling choices

- **Paths.** A path is a sequence of names. `["home", "u", "a.rs"]` stands
  for `/home/u/a.rs`, and `[]` stands for the root.
- **Filesystem.** The filesystem is a finite tree `Host.Node`. A `Special`
  node is something that is neither a file nor a directory.
- **Oracles.** These are fields of `Host.Env`:
  - `which`: whether a tool is installed.
  - `run`: a child process's output lines, or `None`.
  - `isValidFile`: the external `is_valid_file` filter.
  - `toUrl`: `pathbuf_to_url`, which may fail.
  - `toFilePath`: `Url::to_file_path().unwrap_or_default()`.
  - `urlPath`: `PathBuf::from(url.path())`.
  - `disk`: `read_to_string`.
- **Indexers.** They are recorded as an `IndexerCall` log, in call order,
  with the boolean each call site passes.
- **Context reachability.** `gcx.upgrade()` is a boolean `alive` parameter
  of the watcher handler.
- **Walk outputs.** The walk's `rejected_reasons` map and
  `blacklisted_dirs_cnt` are returned beside the paths. The source only logs
  them.
- **Panic.** The watcher's `pathbuf_to_url(path).unwrap()` panic is an
  outcome: `FileWatcherThread` returns `panicked` and leaves the state
  untouched, and `AfterEvent` gives `None`.

### Behaviour of the code that one might not expect (the model follows the code)

- **Hidden directories are walked.** One might expect discovery to skip
  directories whose name starts with a dot, as the watcher does. The walker checks only a directory's
  own name against `BLACKLISTED_DIRS`. It does not skip directories whose
  name starts with a dot. Only the watcher's `is_this_inside_blacklisted_dir`
  applies the leading-dot rule. `WalkFacts.WalkerDoesNotSkipHiddenDirs`
  shows a file under `.cache` that the walk indexes and whose watcher events
  are ignored.
- **Listings are not filtered.** One might expect the blacklist to apply to
  every discovered path. A version-control listing is appended
  unfiltered. It is not checked against the blacklist or against
  `is_valid_file` (`WalkFacts.OwnCases`, `ClosedDirsIgnoreTheirChildren`).
- **Not every mutation sets the dirty flag.** One might expect every change
  to the folders or the known files to mark the cache dirty.
  - `add_folder` changes the folder list but does not set `cache_dirty`.
  - The watcher's create branch extends `workspace_files` without setting it
    (`Workspace.WatcherClassification` states that the flag is kept).
  - Nor does `add_folder` add the new files to `workspace_files`.
- **Listings are joined line by line.** `_run_command` joins every output
  line onto the directory as it is. That is a path for `git ls-files`. For
  `hg status -c`, each path carries Mercurial's "C " status prefix. `svn list
  -R` also lists directories with a trailing "/".
- **What counts as unknown in `on_did_change`.** It sets `cache_dirty` only
  when the uri is missing from the document overlay. The known-files list is
  not what it checks.
- **The watcher can panic.** One might expect a failed url conversion to be
  skipped, as `_retrieve_files_by_proj_folders` skips it. The watcher instead
  unwraps it and panics when an accepted path has no url.

## Model

| member | source | states |
|---|---|---|
| Paths.IsThisInsideBlacklistedDir | src/files_in_workspace.rs:240-256 | the answer is true exactly when some proper ancestor name (never the final one) is in `BLACKLISTED_DIRS` or starts with ".", proved for the parent-stripping loop |
| Paths.FinalNameIrrelevant | src/files_in_workspace.rs:240-256 | the final component of a path never changes the blacklist answer |
| Paths.InsideIsInherited | src/files_in_workspace.rs:240-256 | every path below a path inside a blacklisted directory is inside one too |
| Paths.ChildOfBlockedDir | src/files_in_workspace.rs:240-256 | an entry directly in a blacklisted or hidden directory is inside a blacklisted directory |
| Documents.DocumentInfo.Eq | src/files_in_workspace.rs:50-54 | definition: `PartialEq::eq` compares the uris only; characterised by `EqIsEquivalence` and `IdentityIsTheUri` |
| Documents.DocumentInfo.Hash | src/files_in_workspace.rs:56-60 | definition: `Hash::hash` feeds only the uri to the hasher; `IdentityIsTheUri` shows it agrees with `Eq` |
| Documents.EqIsEquivalence | src/files_in_workspace.rs:50-54 | `DocumentInfo` equality is reflexive, symmetric and transitive |
| Documents.IdentityIsTheUri | src/files_in_workspace.rs:50-60 | two infos are equal exactly when their uris are, whatever their documents hold, and equal infos hash alike |
| Documents.FromPathbuf | src/files_in_workspace.rs:63-68 | succeeds exactly when the url conversion does, giving that uri with no document; fails with "Failed to convert path to URL" |
| Documents.GetPath | src/files_in_workspace.rs:83-86 | definition: the uri's file path, with the default (empty) path when there is none; used by every disk read |
| Documents.ReadFile | src/files_in_workspace.rs:88-104 | definition: the buffer's text when there is one, else the disk at `GetPath`; its properties are in `ReadFilePrefersBuffer` |
| Documents.ReadFilePrefersBuffer | src/files_in_workspace.rs:88-104 | an info with a document reads its text on any disk; only one without reaches the disk at `get_path` |
| Documents.TextFromMemoryOrDisk | src/files_in_workspace.rs:156-173 | the overlay text when the converted uri is in the overlay, else the disk read at the uri's file path, else "cannot parse filepath: …" |
| Documents.Opened | src/files_in_workspace.rs:390-393 | the uri's entry becomes the document, other entries unchanged |
| Documents.Changed | src/files_in_workspace.rs:406-419 | a present entry keeps its language and takes the text, an absent one is inserted as "unknown", other entries unchanged |
| Documents.Deleted | src/files_in_workspace.rs:456 | exactly the uri's key is removed, other entries unchanged |
| Documents.ChangeAfterOpen | src/files_in_workspace.rs:391-412 | changing a just-opened document equals opening it with the new text |
| Documents.ChangeTwice | src/files_in_workspace.rs:406-419 | two changes in a row equal the last one alone |
| Documents.DeleteUndoesOpen | src/files_in_workspace.rs:391-456 | deleting a newly opened uri restores the overlay |
| Documents.UpdatesAreLocal | src/files_in_workspace.rs:391-456 | open, change and delete leave every other uri's presence and entry as they were |
| Documents.ReadsFollowTheOverlay | src/files_in_workspace.rs:156-164 | after open or change the read gives the editor's text; after delete it falls through to the disk |
| Documents.OverlayHidesDisk | src/files_in_workspace.rs:156-164 | while the uri is in the overlay the read does not depend on the disk |
| Discovery.RunCommand | src/files_in_workspace.rs:186-202 | a listing exists exactly when the command succeeds; its i-th path is the directory joined with the i-th output line, so each lies below the directory |
| Discovery.LsFilesUnderVersionControl | src/files_in_workspace.rs:204-217 | every listed path is below the directory, and a listing exists only if some system's marker exists and its tool is installed |
| Discovery.FirstUsableSystemDecides | src/files_in_workspace.rs:204-217 | git, Mercurial and Subversion are tried in that order; the first usable one decides alone, even when its command fails |
| Discovery.Bump | src/files_in_workspace.rs:272 | definition: `entry(reason).and_modify(+1).or_insert(1)`; characterised by `CountReasonsSnoc` and `CountReasonsCounts` |
| Discovery.CountReasonsCounts | src/files_in_workspace.rs:272 | the reason counts hold exactly the reasons met, each with its number of occurrences, adding up to the number of rejected files |
| Discovery.ChildEntries | src/files_in_workspace.rs:286-291 | one entry per child of the directory, in directory order, each the directory's path joined with the child's name |
| Discovery.Expands | src/files_in_workspace.rs:277-293 | definition: a candidate the walk opens, a directory not blacklisted by name and without a version-control listing; used by `Visit` and `WalkFacts.Reaches` |
| Discovery.Own | src/files_in_workspace.rs:265-293 | definition: what one popped candidate adds by itself; characterised case by case by `WalkFacts.OwnCases` and tied to the loop by `Visit` |
| Discovery.Walked | src/files_in_workspace.rs:258-305 | reference traversal: an opened directory is the walk of its children's stack, any other candidate its own contribution; the loop is proved equal to it, and `WalkFacts` characterises it against the tree |
| Discovery.WalkedStack | src/files_in_workspace.rs:258-305 | reference traversal of a candidate stack, the last candidate first as `candidates.pop()` takes it |
| Discovery.Discover | src/files_in_workspace.rs:258-305 | reference outcome of a folder's walk: the stack holding the folder alone, or nothing when the folder does not exist |
| Discovery.Visit | src/files_in_workspace.rs:264-294 | one turn of the loop: an opened directory pushes exactly its children and adds nothing; any other candidate pushes nothing and adds exactly its own contribution; the counts stay those of the rejected list |
| Discovery.LsFilesUnderVersionControlRecursive | src/files_in_workspace.rs:258-305 | the loop terminates and its paths, blacklisted count and reason counts are those of the recursive traversal `Discover`; the counts add up to the rejected files |
| Discovery.ToDocs | src/files_in_workspace.rs:311 | no more documents than paths, no document without a converting path, every converting path's document present, none buffered |
| Discovery.ToDocsSnoc | src/files_in_workspace.rs:311 | one path more adds exactly its document when it converts and nothing otherwise, so the order and the one-per-path multiplicity are those of the paths |
| Discovery.ToDocsDropsOnlyFailures | src/files_in_workspace.rs:311 | no path is dropped exactly when every path converts |
| Discovery.ToDocsAllConvert | src/files_in_workspace.rs:311 | when every path converts, the documents are the paths' urls one for one in order |
| Discovery.RetrieveFiles | src/files_in_workspace.rs:307-314 | reference definition: each folder's converted discovered paths, folder after folder; characterised by `RetrievedDocs` |
| Discovery.RetrievedDocs | src/files_in_workspace.rs:307-314 | a document is retrieved exactly when it is the bufferless url of a path discovered under one of the folders |
| Discovery.RetrieveFilesByProjFolders | src/files_in_workspace.rs:307-314 | the folder loop yields each folder's converted paths, folder after folder |
| Discovery.UrisOf | src/files_in_workspace.rs:344 | the uris of the documents one for one |
| WalkFacts.OwnCases | src/files_in_workspace.rs:265-293 | a popped candidate adds a path only as a valid file or as part of its own listing, a reason only as a rejected file, a skip only as a blacklisted directory |
| WalkFacts.WalkedSound | src/files_in_workspace.rs:263-295 | whatever a walk reports comes from an entry reached through opened directories only |
| WalkFacts.WalkedComplete | src/files_in_workspace.rs:263-295 | whatever an entry reached through opened directories contributes, the walk reports |
| WalkFacts.DiscoveredItems | src/files_in_workspace.rs:258-305 | a folder's walk reports an item (path, reason or skip) exactly when an entry reached from the folder contributes it; a missing folder reports nothing |
| WalkFacts.ClosedDirsIgnoreTheirChildren | src/files_in_workspace.rs:278-285 | a blacklisted or listed directory is walked the same whatever it contains: a skip, or exactly its listing |
| WalkFacts.WalkerDoesNotSkipHiddenDirs | src/files_in_workspace.rs:277-293 | on a concrete tree the walk indexes a file under `.cache` and skips `node_modules`, although the file counts as inside a blacklisted directory for the watcher |
| Watcher.IsContentEvent | src/files_in_workspace.rs:531 | definition: a create-file or content-modify event; its handling is stated by `Workspace.WatcherClassification` |
| Watcher.WatchedBatch | src/files_in_workspace.rs:533-545 | definition: the event's accepted paths in order; characterised by `WatchedBatchMembers` and `WatchedBatchAppend` and computed by `Context.WatchedDocs` |
| Watcher.NeverMind | src/files_in_workspace.rs:559-562 | definition: every path of the event is inside a blacklisted directory; characterised by `RemoveMatters` and computed by `Context.RemovedPathsNeverMind` |
| Watcher.WatchedBatchMembers | src/files_in_workspace.rs:533-545 | the batch holds exactly the event paths that are not inside a blacklisted directory and are valid files |
| Watcher.WatchedBatchAppend | src/files_in_workspace.rs:533-545 | the batch of two path lists in a row is the two batches in a row |
| Watcher.RemoveMatters | src/files_in_workspace.rs:559-563 | `never_mind` is false exactly when some path lies outside every blacklisted directory, so no paths means no rebuild |
| Workspace.AsI32 | src/files_in_workspace.rs:367 | the result is an `i32` congruent to the count modulo 2^32, and equal to the count whenever the count is below 2^31 |
| Workspace.EnqueueCalls | src/files_in_workspace.rs:324-331 | one call per present indexer, the AST one first, with the given flags |
| Workspace.Enqueued | src/files_in_workspace.rs:316-332 | `enqueue_files` only appends the AST call with `true` and the vector call with `false` |
| Workspace.Rebuilt | src/files_in_workspace.rs:334-368 | the state after a full rebuild: known files replaced by the retrieved uris, cache dirty, AST `false` and vector `true` enqueues; its properties are in `RebuildReplacesKnownFiles` |
| Workspace.RebuildCount | src/files_in_workspace.rs:367 | definition: `docs.len() as i32` of the retrieved documents; `RebuildReplacesKnownFiles` gives it as the number of known files when that fits |
| Workspace.RebuildReplacesKnownFiles | src/files_in_workspace.rs:334-368 | after a rebuild the known files are exactly the discovered urls, independent of the earlier ones, the same on a second rebuild; the flag is dirty and the count matches when it fits |
| Workspace.DidOpen | src/files_in_workspace.rs:376-394 | only the uri's entry is inserted or overwritten, the cache is dirty, nothing else changes |
| Workspace.ChangedInfo | src/files_in_workspace.rs:407-421 | definition: the uri with the updated overlay entry as its buffer, the `doc_info` handed to the indexers; its calls are stated by `DidChange` |
| Workspace.DidChange | src/files_in_workspace.rs:396-445 | present entry: text replaced, language kept, flag kept; absent: inserted as "unknown", flag set; other keys untouched; for a valid path the vector then the AST enqueue of the changed document, both with `false`, each only when present; no indexer call for an invalid path |
| Workspace.DidDelete | src/files_in_workspace.rs:447-485 | only the uri's entry is removed, the cache is dirty, the vector remove and AST remove calls are appended |
| Workspace.OpenThenDelete | src/files_in_workspace.rs:376-485 | opening then deleting a new uri leaves the overlay and the known files as before |
| Workspace.ChangeAfterOpenKeepsLanguage | src/files_in_workspace.rs:376-445 | a change after an open keeps the opening language and leaves the cache dirty |
| Workspace.Without | src/files_in_workspace.rs:512 | `retain` keeps exactly the folders different from the path, and everything when the path is absent |
| Workspace.WithoutAppend | src/files_in_workspace.rs:512 | removing from two lists in a row removes from each |
| Workspace.FolderAdded | src/files_in_workspace.rs:487-507 | the folder is appended (duplicates too), its files go to both indexers with `false`, known files and flag untouched |
| Workspace.FolderRemoved | src/files_in_workspace.rs:509-525 | every entry equal to the path leaves the folder list and the known files are rebuilt from the rest; the calls are the AST reset, then the rebuild's AST `false` and vector `true` enqueues; overlay and indexer presence kept, cache dirty |
| Workspace.AddThenRemoveFolder | src/files_in_workspace.rs:487-525 | removing a just-added folder leaves the list as removing it from the old list would |
| Workspace.AfterEvent | src/files_in_workspace.rs:527-574 | the state `file_watcher_thread` leaves, or `None` for its panic; its properties are in `WatcherClassification` |
| Workspace.WatcherClassification | src/files_in_workspace.rs:527-574 | content events panic exactly on an unconvertible accepted path, else enqueue the accepted paths' urls in order unless empty, and only create events extend the known files, the overlay, the cache flag and the folders staying as they were; remove events rebuild exactly when a path is outside the blacklist; all other kinds change nothing |
| Context.GlobalContext.constructor | src/files_in_workspace.rs:122-133 | the given folders, no known files, an empty overlay, a clean cache, no calls |
| Context.GlobalContext.EnqueueFiles | src/files_in_workspace.rs:316-332 | the new state is `Enqueued` of the old |
| Context.GlobalContext.EnqueueAllFilesFromWorkspaceFolders | src/files_in_workspace.rs:334-368 | the new state is `Rebuilt` of the old and the result is `RebuildCount` |
| Context.GlobalContext.OnWorkspacesInit | src/files_in_workspace.rs:370-374 | the same as the full rebuild |
| Context.GlobalContext.OnDidOpen | src/files_in_workspace.rs:376-394 | the new state is `DidOpen` of the old |
| Context.GlobalContext.OnDidChange | src/files_in_workspace.rs:396-445 | the new state is `DidChange` of the old |
| Context.GlobalContext.OnDidDelete | src/files_in_workspace.rs:447-485 | the new state is `DidDelete` of the old |
| Context.GlobalContext.AddFolder | src/files_in_workspace.rs:487-507 | the new state is `FolderAdded` of the old |
| Context.GlobalContext.RemoveFolder | src/files_in_workspace.rs:509-525 | the new state is `FolderRemoved` of the old |
| Context.GlobalContext.FileWatcherThread | src/files_in_workspace.rs:527-574 | panics exactly when `AfterEvent` says so, changing nothing; otherwise the new state is `AfterEvent` of the old |
| Context.WatchedDocs | src/files_in_workspace.rs:532-545 | the loop stops (panics) exactly when an accepted path has no url; otherwise it yields the accepted paths' documents in order |
| Context.RemovedPathsNeverMind | src/files_in_workspace.rs:559-562 | the `&=` fold is true exactly when every path is inside a blacklisted directory |

## Left out

- **Watcher setup.** `init_watcher`, the `notify` watcher object, and the
  `watch`/`unwatch` calls in `add_folder` and `remove_folder` are OS event
  subscription and threads. The constructor therefore has no watcher.
- **Concurrency.** All locking (`ARwLock`, `AMutex`, `StdMutex`), `Arc`/`Weak`
  and async suspension are left out. The handlers run as sequential updates.
- **Side effects only.** Telemetry (`sources_changed`), `info!` logging and
  `Instant` timing are left out.
- **Processes.** `which` and `_run_command`'s child process are oracles.
  Their output is taken as already split into lines. Non-UTF-8 output is part
  of the oracle's `None`.
- **URL conversion.** `pathbuf_to_url`, including making a relative path
  absolute with `current_dir`, is the `toUrl` oracle. `Url::to_file_path` and
  `url.path()` are oracles too.
- **Disk reads.** `read_to_string` is the `disk` oracle. I/O errors reach it
  as their rendered message.
- **String paths.** `get_file_text_from_memory_or_disk` takes a `String`
  path. The model takes the component sequence. Its error message renders
  the path joined by "/" (`Documents.Display`), not the caller's spelling.
- **Directory walking.**
  - `WalkDir`'s error entries are not modelled: every child of a directory is
    yielded.
  - Children are yielded in the tree's order, standing for the directory's
    read order.
  - Symbolic links and cycles are not modelled, because the tree is finite
    and acyclic.
- **Candidate re-queries.** The walk's candidates carry the tree entry found
  when they were pushed. The source re-queries `is_file`/`is_dir` when it
  pops a path, and in a static tree the answers are the same.
- **Unnamed files and non-UTF-8 names.** Names are Dafny strings, so a name
  that is not valid UTF-8 cannot occur in the model. Two behaviours of the
  source are therefore not captured:
  - `local_path.file_name().unwrap()` panics for a path without a final
    name, such as `/` as a folder. Its `.to_str().unwrap()` panics on a
    directory whose name is not UTF-8. Either panic ends the whole walk, and
    with it `enqueue_all_files_from_workspace_folders`, `add_folder` and
    `remove_folder`. The model checks the directory entry's own name instead.
  - In `is_this_inside_blacklisted_dir` a non-UTF-8 ancestor name is never
    blacklisted and never hidden, even when its bytes start with ".". Its
    `unwrap_or_default()` gives "", and the `to_str()` branch is skipped.
- **Empty path.** `[]` is both the root directory and the empty `PathBuf`
  that `get_path` falls back to (`Documents.GetPath`). So `isValidFile` and
  `disk` cannot tell `""` from `/`.
- **Size overflow.** `usize` overflow of the counters is not modelled
  (unbounded naturals). The `as i32` cast in
  `enqueue_all_files_from_workspace_folders` is modelled (`Workspace.AsI32`).
- **Unused code.** `DocumentInfo::new` and `Document::new` are plain
  constructors (the datatype constructors). `from_pathbuf_and_text` is not
  used in this file. `cache_correction` and `cache_fuzzy` are never built
  here.
- **Blocking reads.** `read_file` and `read_file_blocked` differ only in
  being async or blocking, so they are one function (`Documents.ReadFile`).
- **Event payloads.** The `Access`, `Metadata` and `Name` payloads of
  `notify` events are not distinguished, because the handler ignores them.
- **Indexers.** The indexers themselves (`ast_indexer_enqueue_files`,
  `vectorizer_enqueue_files`, `remove_file`, `ast_reset_index`) are foreign
  code. Only their calls are recorded.
- WalkFacts.DiscoveredItems: ties the walk's outcome to the tree by
  presence only. It does not state that `blacklisted_dirs_cnt` is the number
  of blacklisted directories reached, nor that `rejected_reasons` counts the
  rejected files reached. The source only logs both counts
  (src/files_in_workspace.rs:296-303). The walk method's counts are proved
  equal to those of the reference traversal `Discovery.Discover`, and
  `Discovery.CountReasonsCounts` ties the reason counts to its list of
  rejected reasons.
- Context.GlobalContext: whether the AST indexer and the vector database are
  present is fixed when the object is built. The source reads `ast_module`
  and `vec_db` afresh in every handler, so code elsewhere could install an
  indexer between two calls, and the model does not capture that.
