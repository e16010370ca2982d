/**
 * The documents state as a value and what each handler of
 * `files_in_workspace.rs` does to it: the full rebuild of the known files,
 * the editor notifications on the overlay, the folder list updates and the
 * watcher's reaction to an event. Calls into the AST and vector indexers are
 * recorded in order, with the flags each call site passes.
 */
module Workspace {
  import opened Wrappers
  import opened Paths
  import opened Host
  import opened Documents
  import opened Discovery
  import opened Watcher

  /**
   * A call into an indexer: `ast_indexer_enqueue_files`,
   * `vectorizer_enqueue_files` (each with the flag its call site passes),
   * the vector database's `remove_file`, the AST's `remove_file` and
   * `ast_reset_index`.
   */
  datatype IndexerCall =
    | AstEnqueueFiles(docs: seq<DocumentInfo>, flag: bool)
    | VecEnqueueFiles(docs: seq<DocumentInfo>, flag: bool)
    | VecRemoveFile(path: Path)
    | AstRemoveFile(doc: DocumentInfo)
    | AstResetIndex

  /**
   * `DocumentsState` with the presence of the two indexers of the global
   * context and the log of calls made into them.
   */
  datatype State = State(
    workspaceFolders: seq<Path>,
    workspaceFiles: seq<Uri>,
    documentMap: DocumentMap,
    cacheDirty: bool,
    astPresent: bool,
    vecDbPresent: bool,
    calls: seq<IndexerCall>)

  const TWO_32: int := 0x1_0000_0000
  const TWO_31: int := 0x8000_0000

  /** `n as i32` for a `usize`: the low 32 bits read as two's complement. */
  function AsI32(n: nat): (r: int)
    ensures -TWO_31 <= r < TWO_31
    ensures (n - r) % TWO_32 == 0
    ensures n < TWO_31 ==> r == n
  {
    var low := n % TWO_32;
    if low < TWO_31 then low else low - TWO_32
  }

  /** The AST call first, then the vector one, each only when that indexer is present. */
  function EnqueueCalls(st: State, docs: seq<DocumentInfo>, astFlag: bool, vecFlag: bool): (r: seq<IndexerCall>)
    ensures |r| == (if st.astPresent then 1 else 0) + (if st.vecDbPresent then 1 else 0)
    ensures st.astPresent ==> r[0] == AstEnqueueFiles(docs, astFlag)
    ensures st.vecDbPresent ==> r[|r| - 1] == VecEnqueueFiles(docs, vecFlag)
  {
    (if st.astPresent then [AstEnqueueFiles(docs, astFlag)] else [])
    + (if st.vecDbPresent then [VecEnqueueFiles(docs, vecFlag)] else [])
  }

  /** `enqueue_files`: hands the documents to both indexers, the AST one with `true`. */
  function Enqueued(st: State, docs: seq<DocumentInfo>): (r: State)
    ensures r.calls == st.calls + EnqueueCalls(st, docs, true, false)
    ensures r.(calls := st.calls) == st
  {
    st.(calls := st.calls + EnqueueCalls(st, docs, true, false))
  }

  /**
   * The state after `enqueue_all_files_from_workspace_folders`: the known
   * files are replaced by the uris discovered under the folders, the cache is
   * dirty, and the documents go to the AST indexer with `false` and the
   * vector one with `true`.
   */
  function Rebuilt(env: Env, st: State): State {
    var docs := RetrieveFiles(env, st.workspaceFolders);
    st.(cacheDirty := true, workspaceFiles := UrisOf(docs), calls := st.calls + EnqueueCalls(st, docs, false, true))
  }

  /** What `enqueue_all_files_from_workspace_folders` returns. */
  function RebuildCount(env: Env, st: State): int {
    AsI32(|RetrieveFiles(env, st.workspaceFolders)|)
  }

  /** The rebuild in terms of the documents retrieved. */
  lemma RebuiltFrom(env: Env, st: State, docs: seq<DocumentInfo>)
    requires docs == RetrieveFiles(env, st.workspaceFolders)
    ensures Rebuilt(env, st)
         == st.(cacheDirty := true, workspaceFiles := UrisOf(docs), calls := st.calls + EnqueueCalls(st, docs, false, true))
    ensures RebuildCount(env, st) == AsI32(|docs|)
  {
  }

  /**
   * After a rebuild the known files are exactly the urls of the discovered
   * paths, in discovery order; what was known before plays no part, so a
   * second rebuild finds the same; the folders and the overlay are kept;
   * the count is the number of files when it fits in an `i32`.
   */
  lemma RebuildReplacesKnownFiles(env: Env, st: State, other: State, u: Uri)
    requires other.workspaceFolders == st.workspaceFolders
    ensures Rebuilt(env, st).workspaceFiles == Rebuilt(env, other).workspaceFiles
    ensures Rebuilt(env, Rebuilt(env, st)).workspaceFiles == Rebuilt(env, st).workspaceFiles
    ensures Rebuilt(env, st).cacheDirty
    ensures Rebuilt(env, st).workspaceFolders == st.workspaceFolders
    ensures Rebuilt(env, st).documentMap == st.documentMap
    ensures u in Rebuilt(env, st).workspaceFiles <==>
      exists k, q :: 0 <= k < |st.workspaceFolders| && q in Discover(env, st.workspaceFolders[k]).paths
        && env.toUrl(q) == Some(u)
    ensures |Rebuilt(env, st).workspaceFiles| < TWO_31 ==>
      RebuildCount(env, st) == |Rebuilt(env, st).workspaceFiles|
  {
    var docs := RetrieveFiles(env, st.workspaceFolders);
    RebuiltFrom(env, st, docs);
    var files := Rebuilt(env, st).workspaceFiles;
    if u in files {
      var i :| 0 <= i < |files| && files[i] == u;
      RetrievedDocs(env, st.workspaceFolders, docs[i]);
    }
    if exists k, q :: 0 <= k < |st.workspaceFolders| && q in Discover(env, st.workspaceFolders[k]).paths
        && env.toUrl(q) == Some(u) {
      RetrievedDocs(env, st.workspaceFolders, DocumentInfo(u, None));
      var i :| 0 <= i < |docs| && docs[i] == DocumentInfo(u, None);
      assert files[i] == u;
    }
  }

  /**
   * `on_did_open`: the entry for the uri is inserted or overwritten, only
   * that one, and the cache is dirty; the indexers are not called.
   */
  function DidOpen(st: State, uri: Uri, text: string, languageId: string): (r: State)
    ensures r.documentMap.Keys == st.documentMap.Keys + {uri}
    ensures r.documentMap[uri] == Document(languageId, text)
    ensures forall k :: k in st.documentMap && k != uri ==> r.documentMap[k] == st.documentMap[k]
    ensures r.cacheDirty
    ensures r.(documentMap := st.documentMap, cacheDirty := st.cacheDirty) == st
  {
    st.(documentMap := Opened(st.documentMap, uri, Document(languageId, text)), cacheDirty := true)
  }

  /** The document `on_did_change` hands to the indexers. */
  function ChangedInfo(st: State, uri: Uri, text: string): DocumentInfo {
    DocumentInfo(uri, Some(Changed(st.documentMap, uri, text)[uri]))
  }

  /**
   * `on_did_change`. Only the uri's entry changes: a known document keeps
   * its language and takes the new text, leaving the cache flag as it was;
   * an unknown one is inserted with language "unknown" and makes the cache
   * dirty. The indexers (vector first, then AST, both with `false`) hear of
   * it only when its path is a valid file.
   */
  function DidChange(env: Env, st: State, uri: Uri, text: string): (r: State)
    ensures r.documentMap.Keys == st.documentMap.Keys + {uri}
    ensures r.documentMap[uri].text == text
    ensures uri in st.documentMap ==>
      r.documentMap[uri].languageId == st.documentMap[uri].languageId && r.cacheDirty == st.cacheDirty
    ensures uri !in st.documentMap ==> r.documentMap[uri].languageId == "unknown" && r.cacheDirty
    ensures forall k :: k in st.documentMap && k != uri ==> r.documentMap[k] == st.documentMap[k]
    ensures env.isValidFile(GetPath(env, ChangedInfo(st, uri, text))).Rejected? ==> r.calls == st.calls
    ensures env.isValidFile(GetPath(env, ChangedInfo(st, uri, text))) == Valid ==>
      r.calls == st.calls + (if st.vecDbPresent then [VecEnqueueFiles([ChangedInfo(st, uri, text)], false)] else [])
                          + (if st.astPresent then [AstEnqueueFiles([ChangedInfo(st, uri, text)], false)] else [])
    ensures r.(documentMap := st.documentMap, cacheDirty := st.cacheDirty, calls := st.calls) == st
  {
    var info := ChangedInfo(st, uri, text);
    var indexed :=
      if env.isValidFile(GetPath(env, info)) == Valid then
        (if st.vecDbPresent then [VecEnqueueFiles([info], false)] else [])
        + (if st.astPresent then [AstEnqueueFiles([info], false)] else [])
      else [];
    st.(documentMap := Changed(st.documentMap, uri, text),
        cacheDirty := st.cacheDirty || uri !in st.documentMap,
        calls := st.calls + indexed)
  }

  /**
   * `on_did_delete`: exactly the uri's entry is gone and the cache is dirty;
   * the vector database is told to remove `PathBuf::from(url.path())`, then
   * the AST index the bufferless document of the uri.
   */
  function DidDelete(env: Env, st: State, uri: Uri): (r: State)
    ensures r.documentMap.Keys == st.documentMap.Keys - {uri}
    ensures forall k :: k in r.documentMap ==> r.documentMap[k] == st.documentMap[k]
    ensures r.cacheDirty
    ensures r.calls == st.calls + (if st.vecDbPresent then [VecRemoveFile(env.urlPath(uri))] else [])
                               + (if st.astPresent then [AstRemoveFile(DocumentInfo(uri, None))] else [])
    ensures r.(documentMap := st.documentMap, cacheDirty := st.cacheDirty, calls := st.calls) == st
  {
    st.(documentMap := Deleted(st.documentMap, uri), cacheDirty := true,
        calls := st.calls + (if st.vecDbPresent then [VecRemoveFile(env.urlPath(uri))] else [])
                          + (if st.astPresent then [AstRemoveFile(DocumentInfo(uri, None))] else []))
  }

  /** Closing the round: a document opened and then deleted leaves the overlay as it was before the open. */
  lemma OpenThenDelete(env: Env, st: State, uri: Uri, text: string, languageId: string)
    requires uri !in st.documentMap
    ensures DidDelete(env, DidOpen(st, uri, text, languageId), uri).documentMap == st.documentMap
    ensures DidDelete(env, DidOpen(st, uri, text, languageId), uri).workspaceFiles == st.workspaceFiles
  {
    DeleteUndoesOpen(st.documentMap, uri, Document(languageId, text));
  }

  /** A change to an open document keeps the language the editor gave at opening. */
  lemma ChangeAfterOpenKeepsLanguage(env: Env, st: State, uri: Uri, t1: string, t2: string, languageId: string)
    ensures DidChange(env, DidOpen(st, uri, t1, languageId), uri, t2).documentMap
         == DidOpen(st, uri, t2, languageId).documentMap
    ensures DidChange(env, DidOpen(st, uri, t1, languageId), uri, t2).cacheDirty
  {
    ChangeAfterOpen(st.documentMap, uri, languageId, t1, t2);
  }

  /** `workspace_folders.retain(|p| p != path)`: every entry equal to `path` goes, the rest stay in order. */
  function Without(folders: seq<Path>, path: Path): (r: seq<Path>)
    ensures |r| <= |folders|
    ensures forall p :: p in r <==> p in folders && p != path
    ensures path !in folders ==> r == folders
    decreases |folders|
  {
    if folders == [] then []
    else
      var front := folders[..|folders| - 1];
      var last := folders[|folders| - 1];
      assert forall p :: p in folders <==> p in front || p == last;
      assert path !in folders ==> front + [last] == folders;
      Without(front, path) + (if last == path then [] else [last])
  }

  lemma {:induction false} WithoutAppend(a: seq<Path>, b: seq<Path>, path: Path)
    ensures Without(a + b, path) == Without(a, path) + Without(b, path)
    decreases |b|
  {
    if b == [] {
      assert a + b == a;
    } else {
      var front := b[..|b| - 1];
      var last := b[|b| - 1];
      var tail := if last == path then [] else [last];
      WithoutAppend(a, front, path);
      assert (a + b)[..|a + b| - 1] == a + front;
      assert (a + b)[|a + b| - 1] == last;
      assert Without(a + b, path) == Without(a + front, path) + tail;
      assert Without(b, path) == Without(front, path) + tail;
    }
  }

  /**
   * `add_folder`: the folder is appended (a duplicate too) and the files
   * discovered under it alone go to both indexers with `false`; the known
   * files and the cache flag are untouched.
   */
  function FolderAdded(env: Env, st: State, path: Path): (r: State)
    ensures r.workspaceFolders == st.workspaceFolders + [path]
    ensures r.calls == st.calls + EnqueueCalls(st, RetrieveFiles(env, [path]), false, false)
    ensures r.(workspaceFolders := st.workspaceFolders, calls := st.calls) == st
  {
    st.(workspaceFolders := st.workspaceFolders + [path],
        calls := st.calls + EnqueueCalls(st, RetrieveFiles(env, [path]), false, false))
  }

  /**
   * `remove_folder`: every entry equal to the path leaves the folder list,
   * the AST index is reset, and the known files are rebuilt from what is left.
   */
  function FolderRemoved(env: Env, st: State, path: Path): (r: State)
    ensures r.workspaceFolders == Without(st.workspaceFolders, path)
    ensures path !in r.workspaceFolders
    ensures r.workspaceFiles == UrisOf(RetrieveFiles(env, Without(st.workspaceFolders, path)))
    ensures r.cacheDirty
    ensures r.documentMap == st.documentMap && r.astPresent == st.astPresent && r.vecDbPresent == st.vecDbPresent
    ensures r.calls == st.calls + (if st.astPresent then [AstResetIndex] else [])
                    + EnqueueCalls(st, RetrieveFiles(env, r.workspaceFolders), false, true)
  {
    var reset := st.(workspaceFolders := Without(st.workspaceFolders, path),
                     calls := st.calls + (if st.astPresent then [AstResetIndex] else []));
    Rebuilt(env, reset)
  }

  /** Removing a folder just added leaves the folder list as removing it from the old list would. */
  lemma AddThenRemoveFolder(env: Env, st: State, path: Path)
    ensures FolderRemoved(env, FolderAdded(env, st, path), path).workspaceFolders == Without(st.workspaceFolders, path)
    ensures path !in st.workspaceFolders ==>
      FolderRemoved(env, FolderAdded(env, st, path), path).workspaceFolders == st.workspaceFolders
  {
    WithoutAppend(st.workspaceFolders, [path], path);
    assert [path][..0] == [];
  }

  /**
   * What `file_watcher_thread` leaves behind, or `None` when it panics on a
   * path whose url conversion fails. `alive` is whether the global context
   * can still be reached.
   */
  ghost function AfterEvent(env: Env, st: State, event: Event, alive: bool): Option<State> {
    if IsContentEvent(event.kind) then
      var batch := WatchedBatch(env, event.paths);
      if exists q :: q in batch && env.toUrl(q).None? then None
      else
        var docs := ToDocs(env, batch);
        if docs == [] || !alive then Some(st)
        else
          var known := if event.kind == Create(CreateFile) then st.workspaceFiles + UrisOf(docs) else st.workspaceFiles;
          Some(Enqueued(st.(workspaceFiles := known), docs))
    else if event.kind == Remove(RemoveFile) then
      if NeverMind(event.paths) || !alive then Some(st) else Some(Rebuilt(env, st))
    else Some(st)
  }

  /**
   * How the watcher sorts an event. A create-file or content-modify event
   * panics exactly when a handed-on path has no url; otherwise its batch is
   * the handed-on paths' urls one for one, in order, nothing happens when
   * the batch is empty, and only a create event adds the batch to the known
   * files. A remove-file event rebuilds exactly when some path lies outside
   * every blacklisted directory, so one without paths changes nothing. Every
   * other kind changes nothing.
   */
  lemma WatcherClassification(env: Env, st: State, event: Event, alive: bool)
    ensures IsContentEvent(event.kind) ==>
      (AfterEvent(env, st, event, alive).None? <==>
        exists q :: q in WatchedBatch(env, event.paths) && env.toUrl(q).None?)
    ensures IsContentEvent(event.kind) && AfterEvent(env, st, event, alive).Some? ==>
      var batch := WatchedBatch(env, event.paths);
      var docs := ToDocs(env, batch);
      |docs| == |batch|
      && (forall i :: 0 <= i < |batch| ==> docs[i] == DocumentInfo(env.toUrl(batch[i]).value, None))
      && (batch == [] || !alive ==> AfterEvent(env, st, event, alive) == Some(st))
      && (batch != [] && alive ==>
            AfterEvent(env, st, event, alive).value.calls == st.calls + EnqueueCalls(st, docs, true, false)
            && AfterEvent(env, st, event, alive).value.workspaceFiles
               == (if event.kind == Create(CreateFile) then st.workspaceFiles + UrisOf(docs) else st.workspaceFiles)
            && AfterEvent(env, st, event, alive).value.(workspaceFiles := st.workspaceFiles, calls := st.calls) == st)
    ensures event.kind == Remove(RemoveFile) ==>
      AfterEvent(env, st, event, alive)
      == if alive && exists i :: 0 <= i < |event.paths| && !InsideBlacklistedDir(event.paths[i])
         then Some(Rebuilt(env, st)) else Some(st)
    ensures event.kind == Remove(RemoveFile) && event.paths == [] ==> AfterEvent(env, st, event, alive) == Some(st)
    ensures !IsContentEvent(event.kind) && event.kind != Remove(RemoveFile) ==> AfterEvent(env, st, event, alive) == Some(st)
  {
    var batch := WatchedBatch(env, event.paths);
    if IsContentEvent(event.kind) && !exists q :: q in batch && env.toUrl(q).None? {
      ToDocsAllConvert(env, batch);
    }
    RemoveMatters(event.paths);
  }
}
