/**
 * File discovery: the version-control listing, the worklist walk
 * `_ls_files_under_version_control_recursive` (proved equal to a recursive
 * traversal `Walked`), and `_retrieve_files_by_proj_folders`.
 */
module Discovery {
  import opened Wrappers
  import opened Paths
  import opened Host
  import opened Documents

  // ---------------------------------------------------------------------
  // Version-control listing

  /** `_run_command`: the tool's output lines, each joined onto `dir`. */
  function RunCommand(env: Env, cmd: string, args: seq<string>, dir: Path): (r: Option<seq<Path>>)
    ensures r.Some? <==> env.run(cmd, args, dir).Some?
    ensures r.Some? ==> |r.value| == |env.run(cmd, args, dir).value|
    ensures r.Some? ==> forall i :: 0 <= i < |r.value| ==> r.value[i] == dir + env.run(cmd, args, dir).value[i]
    ensures r.Some? ==> forall q :: q in r.value ==> |dir| <= |q| && q[..|dir|] == dir
  {
    match env.run(cmd, args, dir)
    case None => None
    case Some(lines) =>
      var joined := seq(|lines|, i requires 0 <= i < |lines| => dir + lines[i]);
      assert forall q :: q in joined ==> |dir| <= |q| && q[..|dir|] == dir by {
        forall q | q in joined ensures |dir| <= |q| && q[..|dir|] == dir {
          var i :| 0 <= i < |lines| && joined[i] == q;
          assert q == dir + lines[i];
        }
      }
      Some(joined)
  }

  /** A version-control system is usable in `dir`: its marker exists and its tool is installed. */
  predicate Usable(env: Env, dir: Path, marker: string, tool: string) {
    Exists(env.fs, dir + [marker]) && env.which(tool)
  }

  /** `_ls_files_under_version_control`: git, then Mercurial, then Subversion. */
  function LsFilesUnderVersionControl(env: Env, dir: Path): (r: Option<seq<Path>>)
    ensures r.Some? ==> forall q :: q in r.value ==> |dir| <= |q| && q[..|dir|] == dir
    ensures r.Some? ==>
      Usable(env, dir, ".git", "git") || Usable(env, dir, ".hg", "hg") || Usable(env, dir, ".svn", "svn")
  {
    if Usable(env, dir, ".git", "git") then RunCommand(env, "git", ["ls-files"], dir)
    else if Usable(env, dir, ".hg", "hg") then RunCommand(env, "hg", ["status", "-c"], dir)
    else if Usable(env, dir, ".svn", "svn") then RunCommand(env, "svn", ["list", "-R"], dir)
    else None
  }

  /**
   * The first usable system decides alone: when its command fails there is
   * no listing, even if a later system is usable too.
   */
  lemma FirstUsableSystemDecides(env: Env, dir: Path)
    ensures Usable(env, dir, ".git", "git") ==>
      LsFilesUnderVersionControl(env, dir) == RunCommand(env, "git", ["ls-files"], dir)
    ensures !Usable(env, dir, ".git", "git") && Usable(env, dir, ".hg", "hg") ==>
      LsFilesUnderVersionControl(env, dir) == RunCommand(env, "hg", ["status", "-c"], dir)
    ensures !Usable(env, dir, ".git", "git") && !Usable(env, dir, ".hg", "hg") && Usable(env, dir, ".svn", "svn") ==>
      LsFilesUnderVersionControl(env, dir) == RunCommand(env, "svn", ["list", "-R"], dir)
    ensures Usable(env, dir, ".git", "git") && env.run("git", ["ls-files"], dir).None? ==>
      LsFilesUnderVersionControl(env, dir).None?
  {
  }

  // ---------------------------------------------------------------------
  // The walk

  /** A candidate of the walk: a path and the entry found there. */
  datatype Entry = Entry(path: Path, node: Node)

  /**
   * What a walk produces: the collected paths in order, the reason of every
   * rejected file in order, and the number of blacklisted directories met.
   */
  datatype WalkOutcome = WalkOutcome(paths: seq<Path>, rejected: seq<string>, blacklistedDirs: nat) {
    function Then(next: WalkOutcome): WalkOutcome {
      WalkOutcome(paths + next.paths, rejected + next.rejected, blacklistedDirs + next.blacklistedDirs)
    }
  }

  const Nothing := WalkOutcome([], [], 0)

  lemma ThenNothing(a: WalkOutcome)
    ensures a.Then(Nothing) == a
  {
    assert a.paths + [] == a.paths;
    assert a.rejected + [] == a.rejected;
  }

  lemma NothingThen(a: WalkOutcome)
    ensures Nothing.Then(a) == a
  {
    assert [] + a.paths == a.paths;
    assert [] + a.rejected == a.rejected;
  }

  lemma ThenAssociative(a: WalkOutcome, b: WalkOutcome, c: WalkOutcome)
    ensures a.Then(b).Then(c) == a.Then(b.Then(c))
  {
    assert (a.paths + b.paths) + c.paths == a.paths + (b.paths + c.paths);
    assert (a.rejected + b.rejected) + c.rejected == a.rejected + (b.rejected + c.rejected);
  }

  /** The entries `WalkDir(dir).max_depth(1)` yields below `dir`, in directory order. */
  function ChildEntries(dir: Path, children: seq<Node>): (r: seq<Entry>)
    ensures |r| == |children|
    ensures forall i :: 0 <= i < |r| ==> r[i] == Entry(dir + [children[i].name], children[i])
  {
    seq(|children|, i requires 0 <= i < |children| => Entry(dir + [children[i].name], children[i]))
  }

  function Size(n: Node): (r: nat)
    ensures r >= 1
  {
    match n
    case Dir(_, children) => 1 + SizeOfAll(children)
    case _ => 1
  }

  function SizeOfAll(nodes: seq<Node>): nat {
    if nodes == [] then 0 else SizeOfAll(nodes[..|nodes| - 1]) + Size(nodes[|nodes| - 1])
  }

  /** The number of tree nodes still reachable from a candidate stack. */
  function StackSize(stack: seq<Entry>): nat {
    if stack == [] then 0 else StackSize(stack[..|stack| - 1]) + Size(stack[|stack| - 1].node)
  }

  lemma {:induction false} ChildEntriesSize(dir: Path, children: seq<Node>)
    ensures StackSize(ChildEntries(dir, children)) == SizeOfAll(children)
    decreases |children|
  {
    if children != [] {
      var front := children[..|children| - 1];
      ChildEntriesSize(dir, front);
      assert ChildEntries(dir, children)[..|children| - 1] == ChildEntries(dir, front);
    }
  }

  lemma {:induction false} StackSizeAppend(a: seq<Entry>, b: seq<Entry>)
    ensures StackSize(a + b) == StackSize(a) + StackSize(b)
    decreases |b|
  {
    if b == [] {
      assert a + b == a;
    } else {
      var front := b[..|b| - 1];
      StackSizeAppend(a, front);
      assert (a + b)[..|a + b| - 1] == a + front;
    }
  }

  /** A directory the walk opens: not blacklisted by name and without a version-control listing. */
  predicate Expands(env: Env, e: Entry) {
    e.node.Dir? && e.node.name !in BLACKLISTED_DIRS && LsFilesUnderVersionControl(env, e.path).None?
  }

  /**
   * What one popped candidate adds by itself: a valid file its path, a
   * rejected file its reason, a blacklisted directory one to the count, a
   * listed directory its whole listing; anything else adds nothing.
   */
  function Own(env: Env, e: Entry): WalkOutcome {
    match e.node
    case File(_) =>
      (match env.isValidFile(e.path)
       case Valid => WalkOutcome([e.path], [], 0)
       case Rejected(reason) => WalkOutcome([], [reason], 0))
    case Special(_) => Nothing
    case Dir(name, _) =>
      if name in BLACKLISTED_DIRS then WalkOutcome([], [], 1)
      else match LsFilesUnderVersionControl(env, e.path)
        case Some(files) => WalkOutcome(files, [], 0)
        case None => Nothing
  }

  /**
   * The walk as a recursive traversal. The stack pops the last candidate
   * first, so a directory's children are walked last-to-first.
   */
  function Walked(env: Env, e: Entry): WalkOutcome
    decreases Size(e.node), 0
  {
    if Expands(env, e) then
      ChildEntriesSize(e.path, e.node.children);
      WalkedStack(env, ChildEntries(e.path, e.node.children))
    else Own(env, e)
  }

  /** What walking a candidate stack to exhaustion produces. */
  function WalkedStack(env: Env, stack: seq<Entry>): WalkOutcome
    decreases StackSize(stack), 1
  {
    if stack == [] then Nothing
    else Walked(env, stack[|stack| - 1]).Then(WalkedStack(env, stack[..|stack| - 1]))
  }

  lemma {:induction false} WalkedStackAppend(env: Env, a: seq<Entry>, b: seq<Entry>)
    ensures WalkedStack(env, a + b) == WalkedStack(env, b).Then(WalkedStack(env, a))
    decreases |b|
  {
    if b == [] {
      assert a + b == a;
      NothingThen(WalkedStack(env, a));
    } else {
      var front := b[..|b| - 1];
      var w := Walked(env, b[|b| - 1]);
      WalkedStackAppend(env, a, front);
      assert (a + b)[..|a + b| - 1] == a + front;
      assert (a + b)[|a + b| - 1] == b[|b| - 1];
      assert WalkedStack(env, a + b) == w.Then(WalkedStack(env, front).Then(WalkedStack(env, a)));
      assert WalkedStack(env, b) == w.Then(WalkedStack(env, front));
      ThenAssociative(w, WalkedStack(env, front), WalkedStack(env, a));
    }
  }

  /** The walk starts from the folder alone, or from nothing when the path is no entry at all. */
  function Roots(env: Env, folder: Path): seq<Entry> {
    match Lookup(env.fs, folder)
    case None => []
    case Some(node) => [Entry(folder, node)]
  }

  /** The walk of one workspace folder. */
  function Discover(env: Env, folder: Path): WalkOutcome {
    WalkedStack(env, Roots(env, folder))
  }

  /** `rejected_reasons.entry(reason).and_modify(|x| *x += 1).or_insert(1)`. */
  function Bump(counts: map<string, nat>, reason: string): map<string, nat> {
    counts[reason := (if reason in counts then counts[reason] else 0) + 1]
  }

  /** The reason counts the walk builds from the rejected files' reasons, in order. */
  function CountReasons(reasons: seq<string>): map<string, nat> {
    if reasons == [] then map[] else Bump(CountReasons(reasons[..|reasons| - 1]), reasons[|reasons| - 1])
  }

  lemma CountReasonsSnoc(reasons: seq<string>, reason: string)
    ensures CountReasons(reasons + [reason]) == Bump(CountReasons(reasons), reason)
  {
    assert (reasons + [reason])[..|reasons|] == reasons;
  }

  /** The total of a counting map's values. */
  ghost function SumCounts(m: map<string, nat>): nat
    decreases |m|
  {
    if m == map[] then 0
    else
      var k :| k in m;
      assert |m - {k}| < |m| by { assert (m - {k}).Keys == m.Keys - {k}; }
      m[k] + SumCounts(m - {k})
  }

  lemma {:induction false} SumCountsPick(m: map<string, nat>, k: string)
    requires k in m
    ensures SumCounts(m) == m[k] + SumCounts(m - {k})
    decreases |m|
  {
    var j :| j in m && SumCounts(m) == m[j] + SumCounts(m - {j});
    if j != k {
      assert (m - {j}).Keys == m.Keys - {j};
      assert (m - {k}).Keys == m.Keys - {k};
      SumCountsPick(m - {j}, k);
      SumCountsPick(m - {k}, j);
      assert m - {j} - {k} == m - {k} - {j};
    }
  }

  /** Bumping one reason's count bumps the total by one. */
  lemma SumCountsBump(m: map<string, nat>, k: string)
    ensures SumCounts(Bump(m, k)) == SumCounts(m) + 1
  {
    var m' := Bump(m, k);
    SumCountsPick(m', k);
    assert m' - {k} == m - {k};
    if k in m {
      SumCountsPick(m, k);
    } else {
      assert m - {k} == m;
    }
  }

  /**
   * The counts hold exactly the reasons that occur, each with its number of
   * occurrences, and they add up to the number of rejected files.
   */
  lemma {:induction false} CountReasonsCounts(reasons: seq<string>)
    ensures forall r :: r in CountReasons(reasons) <==> r in reasons
    ensures forall r :: r in CountReasons(reasons) ==> CountReasons(reasons)[r] == multiset(reasons)[r]
    ensures SumCounts(CountReasons(reasons)) == |reasons|
    decreases |reasons|
  {
    if reasons != [] {
      var front, last := reasons[..|reasons| - 1], reasons[|reasons| - 1];
      CountReasonsCounts(front);
      assert reasons == front + [last];
      assert multiset(reasons) == multiset(front) + multiset{last};
      SumCountsBump(CountReasons(front), last);
    }
  }

  /** Popping the last candidate: its own walk comes first, then the rest of the stack's. */
  lemma PopCandidate(env: Env, acc: WalkOutcome, stack: seq<Entry>)
    requires stack != []
    ensures acc.Then(WalkedStack(env, stack))
         == acc.Then(Walked(env, stack[|stack| - 1])).Then(WalkedStack(env, stack[..|stack| - 1]))
  {
    var w := Walked(env, stack[|stack| - 1]);
    var rest := WalkedStack(env, stack[..|stack| - 1]);
    assert WalkedStack(env, stack) == w.Then(rest);
    ThenAssociative(acc, w, rest);
  }

  /**
   * Replacing the popped candidate by what its visit pushed keeps the
   * outcome still to come, and shrinks the stack.
   */
  lemma LoopStep(env: Env, acc: WalkOutcome, stack: seq<Entry>, out: WalkOutcome, pushed: seq<Entry>)
    requires stack != []
    requires out.Then(WalkedStack(env, pushed)) == acc.Then(Walked(env, stack[|stack| - 1]))
    requires StackSize(pushed) < Size(stack[|stack| - 1].node)
    ensures out.Then(WalkedStack(env, stack[..|stack| - 1] + pushed)) == acc.Then(WalkedStack(env, stack))
    ensures StackSize(stack[..|stack| - 1] + pushed) < StackSize(stack)
  {
    var front := stack[..|stack| - 1];
    var last := stack[|stack| - 1];
    assert StackSize(stack) == StackSize(front) + Size(last.node);
    StackSizeAppend(front, pushed);
    PopCandidate(env, acc, stack);
    WalkedStackAppend(env, front, pushed);
    ThenAssociative(out, WalkedStack(env, pushed), WalkedStack(env, front));
  }

  /**
   * One turn of the walk's loop: the popped candidate `local` is checked and
   * either adds to the outcome or yields the entries to push.
   */
  method Visit(env: Env, local: Entry, paths: seq<Path>, ghost rejected: seq<string>,
               rejectedReasons: map<string, nat>, blacklistedDirsCnt: nat)
    returns (paths': seq<Path>, ghost rejected': seq<string>, rejectedReasons': map<string, nat>,
             blacklistedDirsCnt': nat, pushed: seq<Entry>)
    requires rejectedReasons == CountReasons(rejected)
    ensures WalkOutcome(paths', rejected', blacklistedDirsCnt').Then(WalkedStack(env, pushed))
         == WalkOutcome(paths, rejected, blacklistedDirsCnt).Then(Walked(env, local))
    ensures StackSize(pushed) < Size(local.node)
    ensures rejectedReasons' == CountReasons(rejected')
    ensures pushed == (if Expands(env, local) then ChildEntries(local.path, local.node.children) else [])
    ensures Expands(env, local) ==> paths' == paths && rejected' == rejected && blacklistedDirsCnt' == blacklistedDirsCnt
    ensures !Expands(env, local) ==>
      WalkOutcome(paths', rejected', blacklistedDirsCnt') == WalkOutcome(paths, rejected, blacklistedDirsCnt).Then(Own(env, local))
  {
    paths', rejected', rejectedReasons', blacklistedDirsCnt', pushed :=
      paths, rejected, rejectedReasons, blacklistedDirsCnt, [];
    ghost var acc := WalkOutcome(paths, rejected, blacklistedDirsCnt);
    ghost var step := Walked(env, local);
    assert !Expands(env, local) ==> step == Own(env, local);
    match local.node {
      case File(_) =>
        match env.isValidFile(local.path) {
          case Valid =>
            paths' := paths + [local.path];
            assert acc.Then(step) == WalkOutcome(paths', rejected', blacklistedDirsCnt');
          case Rejected(reason) =>
            assert Bump(rejectedReasons, reason) == CountReasons(rejected + [reason]) by {
              CountReasonsSnoc(rejected, reason);
            }
            rejectedReasons' := rejectedReasons[reason := (if reason in rejectedReasons then rejectedReasons[reason] else 0) + 1];
            rejected' := rejected + [reason];
            assert acc.Then(step) == WalkOutcome(paths', rejected', blacklistedDirsCnt');
        }
        ThenNothing(WalkOutcome(paths', rejected', blacklistedDirsCnt'));
      case Special(_) =>
        assert acc.Then(step) == acc by { ThenNothing(acc); }
        ThenNothing(acc);
      case Dir(name, children) =>
        if name in BLACKLISTED_DIRS {
          blacklistedDirsCnt' := blacklistedDirsCnt + 1;
          assert acc.Then(step) == WalkOutcome(paths', rejected', blacklistedDirsCnt');
          ThenNothing(WalkOutcome(paths', rejected', blacklistedDirsCnt'));
        } else {
          var maybeFiles := LsFilesUnderVersionControl(env, local.path);
          match maybeFiles {
            case Some(files) =>
              paths' := paths + files;
              assert acc.Then(step) == WalkOutcome(paths', rejected', blacklistedDirsCnt');
              ThenNothing(WalkOutcome(paths', rejected', blacklistedDirsCnt'));
            case None =>
              pushed := ChildEntries(local.path, children);
              ChildEntriesSize(local.path, children);
              assert step == WalkedStack(env, pushed);
          }
        }
    }
  }

  /**
   * `_ls_files_under_version_control_recursive`. Besides the paths it
   * returns, it yields the `rejected_reasons` counts and the
   * `blacklisted_dirs_cnt` the source only logs.
   */
  method LsFilesUnderVersionControlRecursive(env: Env, path: Path)
    returns (paths: seq<Path>, rejectedReasons: map<string, nat>, blacklistedDirsCnt: nat)
    ensures paths == Discover(env, path).paths
    ensures blacklistedDirsCnt == Discover(env, path).blacklistedDirs
    ensures rejectedReasons == CountReasons(Discover(env, path).rejected)
    ensures SumCounts(rejectedReasons) == |Discover(env, path).rejected|
  {
    paths, rejectedReasons, blacklistedDirsCnt := [], map[], 0;
    ghost var rejected: seq<string> := [];
    var candidates := Roots(env, path);
    ghost var target := Discover(env, path);
    assert WalkOutcome(paths, rejected, blacklistedDirsCnt).Then(WalkedStack(env, candidates)) == target by {
      NothingThen(target);
    }
    while candidates != []
      invariant WalkOutcome(paths, rejected, blacklistedDirsCnt).Then(WalkedStack(env, candidates)) == target
      invariant rejectedReasons == CountReasons(rejected)
      decreases StackSize(candidates)
    {
      ghost var acc := WalkOutcome(paths, rejected, blacklistedDirsCnt);
      ghost var stack := candidates;
      var local := candidates[|candidates| - 1];
      candidates := candidates[..|candidates| - 1];
      var pushed;
      paths, rejected, rejectedReasons, blacklistedDirsCnt, pushed :=
        Visit(env, local, paths, rejected, rejectedReasons, blacklistedDirsCnt);
      LoopStep(env, acc, stack, WalkOutcome(paths, rejected, blacklistedDirsCnt), pushed);
      candidates := candidates + pushed;
    }
    ThenNothing(WalkOutcome(paths, rejected, blacklistedDirsCnt));
    CountReasonsCounts(rejected);
  }

  // ---------------------------------------------------------------------
  // Retrieval over the project folders

  /**
   * `filter_map(|x| DocumentInfo::from_pathbuf(x).ok())`: one document per
   * path whose url conversion succeeds, in order, with no buffered text.
   */
  function ToDocs(env: Env, paths: seq<Path>): (r: seq<DocumentInfo>)
    ensures |r| <= |paths|
    ensures forall d :: d in r ==> d.document.None? && exists q :: q in paths && env.toUrl(q) == Some(d.uri)
    ensures forall q :: q in paths && env.toUrl(q).Some? ==> DocumentInfo(env.toUrl(q).value, None) in r
    decreases |paths|
  {
    if paths == [] then []
    else
      var front := paths[..|paths| - 1];
      var last := paths[|paths| - 1];
      var rest := ToDocs(env, front);
      assert forall q :: q in paths ==> q in front || q == last;
      match FromPathbuf(env, last)
      case Ok(d) => rest + [d]
      case Err(_) => rest
  }

  /** Converting one more path adds its document when its url conversion succeeds. */
  lemma ToDocsSnoc(env: Env, paths: seq<Path>, q: Path)
    ensures ToDocs(env, paths + [q]) == ToDocs(env, paths) + (if env.toUrl(q).Some? then [DocumentInfo(env.toUrl(q).value, None)] else [])
  {
    assert (paths + [q])[..|paths|] == paths;
  }

  /** Only a failed conversion makes the documents fewer than the paths. */
  lemma {:induction false} ToDocsDropsOnlyFailures(env: Env, paths: seq<Path>)
    ensures |ToDocs(env, paths)| == |paths| <==> forall q :: q in paths ==> env.toUrl(q).Some?
    decreases |paths|
  {
    if paths != [] {
      var front := paths[..|paths| - 1];
      ToDocsDropsOnlyFailures(env, front);
      assert forall q :: q in paths <==> q in front || q == paths[|paths| - 1];
    }
  }

  /** When every path converts, the documents are the paths' urls one for one. */
  lemma {:induction false} ToDocsAllConvert(env: Env, paths: seq<Path>)
    requires forall q :: q in paths ==> env.toUrl(q).Some?
    ensures |ToDocs(env, paths)| == |paths|
    ensures forall i :: 0 <= i < |paths| ==> ToDocs(env, paths)[i] == DocumentInfo(env.toUrl(paths[i]).value, None)
    decreases |paths|
  {
    if paths != [] {
      var front := paths[..|paths| - 1];
      var last := paths[|paths| - 1];
      assert forall q :: q in front ==> q in paths;
      ToDocsAllConvert(env, front);
      var rest := ToDocs(env, front);
      assert last in paths;
      assert ToDocs(env, paths) == rest + [DocumentInfo(env.toUrl(last).value, None)];
      forall i | 0 <= i < |paths|
        ensures ToDocs(env, paths)[i] == DocumentInfo(env.toUrl(paths[i]).value, None)
      {
        if i < |front| {
          assert paths[i] == front[i];
        }
      }
    }
  }

  /** `_retrieve_files_by_proj_folders`: each folder's discovered documents, folder by folder. */
  function RetrieveFiles(env: Env, folders: seq<Path>): seq<DocumentInfo>
    decreases |folders|
  {
    if folders == [] then []
    else RetrieveFiles(env, folders[..|folders| - 1]) + ToDocs(env, Discover(env, folders[|folders| - 1]).paths)
  }

  /** Membership in `ToDocs`, both ways. */
  lemma InToDocs(env: Env, paths: seq<Path>, d: DocumentInfo)
    ensures d in ToDocs(env, paths) <==> d.document.None? && exists q :: q in paths && env.toUrl(q) == Some(d.uri)
  {
    if d.document.None? && exists q :: q in paths && env.toUrl(q) == Some(d.uri) {
      var q :| q in paths && env.toUrl(q) == Some(d.uri);
      assert DocumentInfo(env.toUrl(q).value, None) == d;
    }
  }

  /** The folder's walk finds a path with url `u`. */
  ghost predicate Finds(env: Env, folder: Path, u: Uri) {
    exists q :: q in Discover(env, folder).paths && env.toUrl(q) == Some(u)
  }

  /** Some folder's walk finds a path with url `u`. */
  ghost predicate SomeFolderFinds(env: Env, folders: seq<Path>, u: Uri) {
    exists k :: 0 <= k < |folders| && Finds(env, folders[k], u)
  }

  lemma SomeFolderFindsSplit(env: Env, folders: seq<Path>, u: Uri)
    requires folders != []
    ensures SomeFolderFinds(env, folders, u) <==>
      SomeFolderFinds(env, folders[..|folders| - 1], u) || Finds(env, folders[|folders| - 1], u)
  {
    var front := folders[..|folders| - 1];
    assert forall k :: 0 <= k < |front| ==> front[k] == folders[k];
  }

  lemma SomeFolderFindsExplicit(env: Env, folders: seq<Path>, u: Uri)
    ensures SomeFolderFinds(env, folders, u) <==>
      exists k, q :: 0 <= k < |folders| && q in Discover(env, folders[k]).paths && env.toUrl(q) == Some(u)
  {
    if SomeFolderFinds(env, folders, u) {
      var k :| 0 <= k < |folders| && Finds(env, folders[k], u);
      var q :| q in Discover(env, folders[k]).paths && env.toUrl(q) == Some(u);
    }
    if exists k, q :: 0 <= k < |folders| && q in Discover(env, folders[k]).paths && env.toUrl(q) == Some(u) {
      var k, q :| 0 <= k < |folders| && q in Discover(env, folders[k]).paths && env.toUrl(q) == Some(u);
      assert Finds(env, folders[k], u);
    }
  }

  /**
   * A document is retrieved exactly when it is the url of a path discovered
   * under one of the folders, and it carries no buffered text.
   */
  lemma RetrievedDocs(env: Env, folders: seq<Path>, d: DocumentInfo)
    ensures d in RetrieveFiles(env, folders) <==>
      d.document.None? && exists k, q :: 0 <= k < |folders| && q in Discover(env, folders[k]).paths && env.toUrl(q) == Some(d.uri)
  {
    SomeFolderFindsExplicit(env, folders, d.uri);
    RetrievedDocsBy(env, folders, d);
  }

  lemma {:induction false} RetrievedDocsBy(env: Env, folders: seq<Path>, d: DocumentInfo)
    ensures d in RetrieveFiles(env, folders) <==> d.document.None? && SomeFolderFinds(env, folders, d.uri)
    decreases |folders|
  {
    if folders != [] {
      var front := folders[..|folders| - 1];
      var last := folders[|folders| - 1];
      RetrievedDocsBy(env, front, d);
      InToDocs(env, Discover(env, last).paths, d);
      SomeFolderFindsSplit(env, folders, d.uri);
    }
  }

  /** The `for proj_folder in proj_folders` loop of `_retrieve_files_by_proj_folders`. */
  method RetrieveFilesByProjFolders(env: Env, projFolders: seq<Path>) returns (allFiles: seq<DocumentInfo>)
    ensures allFiles == RetrieveFiles(env, projFolders)
  {
    allFiles := [];
    for i := 0 to |projFolders|
      invariant allFiles == RetrieveFiles(env, projFolders[..i])
    {
      var files, _, _ := LsFilesUnderVersionControlRecursive(env, projFolders[i]);
      assert projFolders[..i + 1][..i] == projFolders[..i];
      allFiles := allFiles + ToDocs(env, files);
    }
    assert projFolders[..|projFolders|] == projFolders;
  }

  /** `docs.iter().map(|x| x.uri.clone())`. */
  function UrisOf(docs: seq<DocumentInfo>): (r: seq<Uri>)
    ensures |r| == |docs|
    ensures forall i :: 0 <= i < |docs| ==> r[i] == docs[i].uri
  {
    seq(|docs|, i requires 0 <= i < |docs| => docs[i].uri)
  }
}
