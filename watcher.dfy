/**
 * The filesystem events `file_watcher_thread` receives and how it sorts
 * them: which paths of a create or content-modify event are handed on, and
 * when a remove event is worth a rebuild.
 */
module Watcher {
  import opened Paths
  import opened Host

  datatype CreateKind = CreateAny | CreateFile | CreateFolder | CreateOther
  datatype DataChange = DataAny | DataSize | DataContent | DataOther
  /** The metadata and rename payloads of `notify` are not distinguished here. */
  datatype ModifyKind = ModifyAny | Data(change: DataChange) | Metadata | Name | ModifyOther
  datatype RemoveKind = RemoveAny | RemoveFile | RemoveFolder | RemoveOther
  /** The access payload of `notify` is not distinguished here. */
  datatype EventKind = Any | Access | Create(createKind: CreateKind) | Modify(modifyKind: ModifyKind)
    | Remove(removeKind: RemoveKind) | Other
  datatype Event = Event(kind: EventKind, paths: seq<Path>)

  /** `EventKind::Create(CreateKind::File) | EventKind::Modify(ModifyKind::Data(DataChange::Content))`. */
  predicate IsContentEvent(kind: EventKind) {
    kind == Create(CreateFile) || kind == Modify(Data(DataContent))
  }

  /** A path of a content event that is handed on: not inside a blacklisted directory, and a valid file. */
  ghost predicate Watched(env: Env, q: Path) {
    !InsideBlacklistedDir(q) && env.isValidFile(q) == Valid
  }

  /** The paths of a content event that are handed on, in event order. */
  ghost function WatchedBatch(env: Env, paths: seq<Path>): (r: seq<Path>)
    ensures |r| <= |paths|
    decreases |paths|
  {
    if paths == [] then []
    else WatchedBatch(env, paths[..|paths| - 1]) + (if Watched(env, paths[|paths| - 1]) then [paths[|paths| - 1]] else [])
  }

  /** The batch holds exactly the event's paths that are handed on. */
  lemma {:induction false} WatchedBatchMembers(env: Env, paths: seq<Path>)
    ensures forall q :: q in WatchedBatch(env, paths) <==> q in paths && Watched(env, q)
    decreases |paths|
  {
    if paths != [] {
      var front := paths[..|paths| - 1];
      WatchedBatchMembers(env, front);
      assert forall q :: q in paths <==> q in front || q == paths[|paths| - 1];
    }
  }

  /** The batch of one path more. */
  lemma WatchedBatchStep(env: Env, paths: seq<Path>, i: nat)
    requires i < |paths|
    ensures WatchedBatch(env, paths[..i + 1]) == WatchedBatch(env, paths[..i]) + (if Watched(env, paths[i]) then [paths[i]] else [])
  {
    assert paths[..i + 1][..i] == paths[..i];
  }

  /** Filtering distributes over appending paths. */
  lemma {:induction false} WatchedBatchAppend(env: Env, a: seq<Path>, b: seq<Path>)
    ensures WatchedBatch(env, a + b) == WatchedBatch(env, a) + WatchedBatch(env, b)
    decreases |b|
  {
    if b == [] {
      assert a + b == a;
    } else {
      var front := b[..|b| - 1];
      WatchedBatchAppend(env, a, front);
      assert (a + b)[..|a + b| - 1] == a + front;
    }
  }

  /**
   * `never_mind` after the `&=` fold: every path of the remove event is
   * inside a blacklisted directory (so an event without paths is ignored).
   */
  ghost predicate NeverMind(paths: seq<Path>) {
    forall q :: q in paths ==> InsideBlacklistedDir(q)
  }

  /**
   * A remove event is worth a rebuild exactly when one of its paths is
   * outside every blacklisted or hidden directory.
   */
  lemma RemoveMatters(paths: seq<Path>)
    ensures !NeverMind(paths) <==> exists i :: 0 <= i < |paths| && !InsideBlacklistedDir(paths[i])
    ensures paths == [] ==> NeverMind(paths)
  {
    if !NeverMind(paths) {
      var q :| q in paths && !InsideBlacklistedDir(q);
      var i :| 0 <= i < |paths| && paths[i] == q;
    }
  }
}
