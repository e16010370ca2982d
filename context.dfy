/**
 * The global context as an object whose fields the handlers update in
 * place. Every handler's new state is the one `Workspace` gives for the old
 * state, so the properties proved there hold of it.
 */
module Context {
  import opened Wrappers
  import opened Paths
  import opened Host
  import opened Documents
  import opened Discovery
  import opened Watcher
  import opened Workspace

  class GlobalContext {
    var workspaceFolders: seq<Path>
    var workspaceFiles: seq<Uri>
    var documentMap: DocumentMap
    var cacheDirty: bool
    /** Whether `ast_module` and `vec_db` hold an indexer. */
    const astPresent: bool
    const vecDbPresent: bool
    /** The calls made into the indexers so far, oldest first. */
    var calls: seq<IndexerCall>

    function Snapshot(): State
      reads this
    {
      State(workspaceFolders, workspaceFiles, documentMap, cacheDirty, astPresent, vecDbPresent, calls)
    }

    /** `DocumentsState::empty(workspace_dirs)` inside a context with the given indexers. */
    constructor (workspaceDirs: seq<Path>, astPresent: bool, vecDbPresent: bool)
      ensures Snapshot() == State(workspaceDirs, [], map[], false, astPresent, vecDbPresent, [])
    {
      this.workspaceFolders := workspaceDirs;
      this.workspaceFiles := [];
      this.documentMap := map[];
      this.cacheDirty := false;
      this.astPresent := astPresent;
      this.vecDbPresent := vecDbPresent;
      this.calls := [];
    }

    /** `enqueue_files`. */
    method EnqueueFiles(docs: seq<DocumentInfo>)
      modifies this
      ensures Snapshot() == Enqueued(old(Snapshot()), docs)
    {
      if astPresent {
        calls := calls + [AstEnqueueFiles(docs, true)];
      }
      if vecDbPresent {
        calls := calls + [VecEnqueueFiles(docs, false)];
      }
    }

    /** `enqueue_all_files_from_workspace_folders`. */
    method EnqueueAllFilesFromWorkspaceFolders(env: Env) returns (n: int)
      modifies this
      ensures Snapshot() == Rebuilt(env, old(Snapshot()))
      ensures n == RebuildCount(env, old(Snapshot()))
    {
      ghost var st := Snapshot();
      var folders := workspaceFolders;
      var docs := RetrieveFilesByProjFolders(env, folders);
      var tmp := UrisOf(docs);
      var added: seq<IndexerCall> := [];
      if astPresent {
        added := added + [AstEnqueueFiles(docs, false)];
      }
      if vecDbPresent {
        added := added + [VecEnqueueFiles(docs, true)];
      }
      assert added == EnqueueCalls(st, docs, false, true);
      cacheDirty := true;
      workspaceFiles := [];
      assert workspaceFiles + tmp == tmp;
      workspaceFiles := workspaceFiles + tmp;
      calls := calls + added;
      n := AsI32(|docs|);
      assert Snapshot() == st.(cacheDirty := true, workspaceFiles := tmp, calls := st.calls + added);
      RebuiltFrom(env, st, docs);
    }

    /** `on_workspaces_init`. */
    method OnWorkspacesInit(env: Env) returns (n: int)
      modifies this
      ensures Snapshot() == Rebuilt(env, old(Snapshot()))
      ensures n == RebuildCount(env, old(Snapshot()))
    {
      n := EnqueueAllFilesFromWorkspaceFolders(env);
    }

    /** `on_did_open`. */
    method OnDidOpen(fileUrl: Uri, text: string, languageId: string)
      modifies this
      ensures Snapshot() == DidOpen(old(Snapshot()), fileUrl, text, languageId)
    {
      var doc := Document(languageId, text);
      documentMap := documentMap[fileUrl := doc];
      cacheDirty := true;
    }

    /** `on_did_change`. */
    method OnDidChange(env: Env, fileUrl: Uri, text: string)
      modifies this
      ensures Snapshot() == DidChange(env, old(Snapshot()), fileUrl, text)
    {
      var markDirty := false;
      var doc;
      if fileUrl in documentMap {
        doc := documentMap[fileUrl].(text := text);
        documentMap := documentMap[fileUrl := doc];
      } else {
        doc := Document("unknown", text);
        documentMap := documentMap[fileUrl := doc];
        markDirty := true;
      }
      var docInfo := DocumentInfo(fileUrl, Some(doc));
      if markDirty {
        cacheDirty := true;
      }
      if env.isValidFile(GetPath(env, docInfo)) == Valid {
        if vecDbPresent {
          calls := calls + [VecEnqueueFiles([docInfo], false)];
        }
        if astPresent {
          calls := calls + [AstEnqueueFiles([docInfo], false)];
        }
      }
    }

    /** `on_did_delete`. */
    method OnDidDelete(env: Env, fileUrl: Uri)
      modifies this
      ensures Snapshot() == DidDelete(env, old(Snapshot()), fileUrl)
    {
      documentMap := documentMap - {fileUrl};
      cacheDirty := true;
      if vecDbPresent {
        calls := calls + [VecRemoveFile(env.urlPath(fileUrl))];
      }
      if astPresent {
        calls := calls + [AstRemoveFile(DocumentInfo(fileUrl, None))];
      }
    }

    /** `add_folder`. */
    method AddFolder(env: Env, path: Path)
      modifies this
      ensures Snapshot() == FolderAdded(env, old(Snapshot()), path)
    {
      workspaceFolders := workspaceFolders + [path];
      var docs := RetrieveFilesByProjFolders(env, [path]);
      if astPresent {
        calls := calls + [AstEnqueueFiles(docs, false)];
      }
      if vecDbPresent {
        calls := calls + [VecEnqueueFiles(docs, false)];
      }
    }

    /** `remove_folder`. */
    method RemoveFolder(env: Env, path: Path)
      modifies this
      ensures Snapshot() == FolderRemoved(env, old(Snapshot()), path)
    {
      ghost var reset := old(Snapshot()).(workspaceFolders := Without(workspaceFolders, path),
                                          calls := calls + (if astPresent then [AstResetIndex] else []));
      workspaceFolders := Without(workspaceFolders, path);
      if astPresent {
        calls := calls + [AstResetIndex];
      }
      assert Snapshot() == reset;
      var _ := EnqueueAllFilesFromWorkspaceFolders(env);
    }

    /**
     * `file_watcher_thread`. `alive` is whether `gcx.upgrade()` succeeds;
     * `panicked` reports the `unwrap` of a failed url conversion, which
     * happens before anything is changed.
     */
    method FileWatcherThread(env: Env, event: Event, alive: bool) returns (panicked: bool)
      modifies this
      ensures panicked <==> AfterEvent(env, old(Snapshot()), event, alive).None?
      ensures panicked ==> Snapshot() == old(Snapshot())
      ensures !panicked ==> Snapshot() == AfterEvent(env, old(Snapshot()), event, alive).value
    {
      ghost var before := Snapshot();
      if IsContentEvent(event.kind) {
        var maybeDocs := WatchedDocs(env, event.paths);
        if maybeDocs.None? {
          return true;
        }
        var docs := maybeDocs.value;
        ghost var known := if event.kind == Create(CreateFile) then before.workspaceFiles + UrisOf(docs) else before.workspaceFiles;
        assert AfterEvent(env, before, event, alive)
            == if docs == [] || !alive then Some(before) else Some(Enqueued(before.(workspaceFiles := known), docs));
        if docs != [] {
          if alive {
            if event.kind == Create(CreateFile) {
              var tmp := UrisOf(docs);
              workspaceFiles := workspaceFiles + tmp;
            }
            EnqueueFiles(docs);
          }
        }
        return false;
      } else if event.kind == Remove(RemoveFile) {
        assert AfterEvent(env, before, event, alive)
            == if NeverMind(event.paths) || !alive then Some(before) else Some(Rebuilt(env, before));
        var neverMind := RemovedPathsNeverMind(event.paths);
        if !neverMind {
          if alive {
            var _ := EnqueueAllFilesFromWorkspaceFolders(env);
          }
        }
        return false;
      }
      return false;
    }
  }

  /** One path more in the `docs` loop of `file_watcher_thread`. */
  lemma WatchedDocsStep(env: Env, paths: seq<Path>, i: nat)
    requires i < |paths|
    ensures !Watched(env, paths[i]) ==> WatchedBatch(env, paths[..i + 1]) == WatchedBatch(env, paths[..i])
    ensures Watched(env, paths[i]) ==> paths[i] in WatchedBatch(env, paths)
    ensures Watched(env, paths[i]) && env.toUrl(paths[i]).Some? ==>
      ToDocs(env, WatchedBatch(env, paths[..i + 1]))
        == ToDocs(env, WatchedBatch(env, paths[..i])) + [DocumentInfo(env.toUrl(paths[i]).value, None)]
      && |WatchedBatch(env, paths[..i + 1])| == |WatchedBatch(env, paths[..i])| + 1
  {
    WatchedBatchStep(env, paths, i);
    if Watched(env, paths[i]) {
      WatchedBatchMembers(env, paths);
      ToDocsSnoc(env, WatchedBatch(env, paths[..i]), paths[i]);
    }
  }

  /**
   * The `docs` loop of `file_watcher_thread`: for each path not inside a
   * blacklisted directory and accepted by `is_valid_file`, the bufferless
   * document of its url. `None` stands for the panic of the `unwrap` on the
   * first such path whose url conversion fails.
   */
  method WatchedDocs(env: Env, paths: seq<Path>) returns (docs: Option<seq<DocumentInfo>>)
    ensures docs.None? <==> exists q :: q in WatchedBatch(env, paths) && env.toUrl(q).None?
    ensures docs.Some? ==> docs.value == ToDocs(env, WatchedBatch(env, paths))
  {
    var collected: seq<DocumentInfo> := [];
    for i := 0 to |paths|
      invariant collected == ToDocs(env, WatchedBatch(env, paths[..i]))
      invariant |collected| == |WatchedBatch(env, paths[..i])|
    {
      var path := paths[i];
      WatchedDocsStep(env, paths, i);
      var inside := IsThisInsideBlacklistedDir(path);
      if !inside {
        match env.isValidFile(path) {
          case Valid =>
            match env.toUrl(path) {
              case None =>
                return None;
              case Some(uri) =>
                collected := collected + [DocumentInfo(uri, None)];
            }
          case Rejected(_) =>
        }
      }
    }
    assert paths[..|paths|] == paths;
    ToDocsDropsOnlyFailures(env, WatchedBatch(env, paths));
    return Some(collected);
  }

  /** The `never_mind &= is_this_inside_blacklisted_dir(p)` fold over a remove event's paths. */
  method RemovedPathsNeverMind(paths: seq<Path>) returns (neverMind: bool)
    ensures neverMind <==> NeverMind(paths)
  {
    neverMind := true;
    for i := 0 to |paths|
      invariant neverMind <==> forall j :: 0 <= j < i ==> InsideBlacklistedDir(paths[j])
    {
      var inside := IsThisInsideBlacklistedDir(paths[i]);
      neverMind := neverMind && inside;
    }
  }
}
