/**
 * What the walk finds, stated against the tree: an item is in the outcome
 * exactly when some candidate the walk pops contributes it by itself.
 */
module WalkFacts {
  import opened Wrappers
  import opened Paths
  import opened Host
  import opened Discovery

  /**
   * `e` leads the walk to `d`: `d` is `e`, or `e` is a directory the walk
   * opens and one of its children leads to `d`.
   */
  ghost predicate Reaches(env: Env, e: Entry, d: Entry)
    decreases e.node
  {
    d == e
    || (e.node.Dir? && e.node.name !in BLACKLISTED_DIRS && LsFilesUnderVersionControl(env, e.path).None?
        && exists i :: 0 <= i < |e.node.children|
             && Reaches(env, Entry(e.path + [e.node.children[i].name], e.node.children[i]), d))
  }

  /** One thing a walk can report. */
  datatype Item = Found(path: Path) | Reason(reason: string) | SkippedDir

  /** The outcome reports the item: a collected path, a rejection reason, or at least one skipped directory. */
  predicate Has(o: WalkOutcome, it: Item) {
    match it
    case Found(q) => q in o.paths
    case Reason(r) => r in o.rejected
    case SkippedDir => o.blacklistedDirs > 0
  }

  lemma HasThen(a: WalkOutcome, b: WalkOutcome, it: Item)
    ensures Has(a.Then(b), it) <==> Has(a, it) || Has(b, it)
  {
  }

  /** What a candidate adds by itself, case by case. */
  lemma OwnCases(env: Env, d: Entry, it: Item)
    ensures it.Found? ==> (Has(Own(env, d), it) <==>
      (d.node.File? && env.isValidFile(d.path) == Valid && it.path == d.path)
      || (d.node.Dir? && d.node.name !in BLACKLISTED_DIRS && LsFilesUnderVersionControl(env, d.path).Some?
          && it.path in LsFilesUnderVersionControl(env, d.path).value))
    ensures it.Reason? ==> (Has(Own(env, d), it) <==>
      d.node.File? && env.isValidFile(d.path) == Rejected(it.reason))
    ensures it.SkippedDir? ==> (Has(Own(env, d), it) <==>
      d.node.Dir? && d.node.name in BLACKLISTED_DIRS)
  {
  }

  lemma {:induction false} WalkedSound(env: Env, e: Entry, it: Item)
    requires Has(Walked(env, e), it)
    ensures exists d :: Reaches(env, e, d) && Has(Own(env, d), it)
    decreases Size(e.node), 0
  {
    if Expands(env, e) {
      var kids := ChildEntries(e.path, e.node.children);
      ChildEntriesSize(e.path, e.node.children);
      WalkedStackSound(env, kids, it);
      var k, d :| 0 <= k < |kids| && Reaches(env, kids[k], d) && Has(Own(env, d), it);
      assert kids[k] == Entry(e.path + [e.node.children[k].name], e.node.children[k]);
      assert Reaches(env, e, d);
    } else {
      assert Reaches(env, e, e);
    }
  }

  lemma {:induction false} WalkedStackSound(env: Env, stack: seq<Entry>, it: Item)
    requires Has(WalkedStack(env, stack), it)
    ensures exists k, d :: 0 <= k < |stack| && Reaches(env, stack[k], d) && Has(Own(env, d), it)
    decreases StackSize(stack), 1
  {
    var last := stack[|stack| - 1];
    var front := stack[..|stack| - 1];
    HasThen(Walked(env, last), WalkedStack(env, front), it);
    if Has(Walked(env, last), it) {
      WalkedSound(env, last, it);
      var d :| Reaches(env, last, d) && Has(Own(env, d), it);
      assert Reaches(env, stack[|stack| - 1], d);
    } else {
      WalkedStackSound(env, front, it);
      var k, d :| 0 <= k < |front| && Reaches(env, front[k], d) && Has(Own(env, d), it);
      assert stack[k] == front[k];
    }
  }

  lemma {:induction false} WalkedComplete(env: Env, e: Entry, d: Entry, it: Item)
    requires Reaches(env, e, d) && Has(Own(env, d), it)
    ensures Has(Walked(env, e), it)
    decreases Size(e.node), 0
  {
    if d != e {
      var kids := ChildEntries(e.path, e.node.children);
      ChildEntriesSize(e.path, e.node.children);
      var i :| 0 <= i < |e.node.children|
        && Reaches(env, Entry(e.path + [e.node.children[i].name], e.node.children[i]), d);
      assert kids[i] == Entry(e.path + [e.node.children[i].name], e.node.children[i]);
      WalkedStackComplete(env, kids, i, d, it);
    }
  }

  lemma {:induction false} WalkedStackComplete(env: Env, stack: seq<Entry>, k: nat, d: Entry, it: Item)
    requires k < |stack| && Reaches(env, stack[k], d) && Has(Own(env, d), it)
    ensures Has(WalkedStack(env, stack), it)
    decreases StackSize(stack), 1
  {
    var last := stack[|stack| - 1];
    var front := stack[..|stack| - 1];
    HasThen(Walked(env, last), WalkedStack(env, front), it);
    if k == |stack| - 1 {
      WalkedComplete(env, last, d, it);
    } else {
      assert front[k] == stack[k];
      WalkedStackComplete(env, front, k, d, it);
    }
  }

  /**
   * The walk of a workspace folder reports an item exactly when some entry
   * it reaches from the folder contributes that item by itself. For paths:
   * every path found is a valid file or part of a directory's listing, and
   * each such is found; no directory blacklisted by name, and no listed
   * directory, is opened.
   */
  lemma DiscoveredItems(env: Env, folder: Path, it: Item)
    ensures Has(Discover(env, folder), it) <==>
      Lookup(env.fs, folder).Some?
      && exists d :: Reaches(env, Entry(folder, Lookup(env.fs, folder).value), d) && Has(Own(env, d), it)
  {
    var roots := Roots(env, folder);
    if Lookup(env.fs, folder).Some? {
      var root := Entry(folder, Lookup(env.fs, folder).value);
      assert roots == [root];
      assert roots[..0] == [];
      assert Discover(env, folder) == WalkedStack(env, roots);
      assert Discover(env, folder) == Walked(env, root).Then(Nothing);
      ThenNothing(Walked(env, root));
      if Has(Discover(env, folder), it) {
        WalkedSound(env, root, it);
      }
      if exists d :: Reaches(env, root, d) && Has(Own(env, d), it) {
        var d :| Reaches(env, root, d) && Has(Own(env, d), it);
        WalkedComplete(env, root, d, it);
      }
    }
  }

  /**
   * A directory the walk does not open, because its name is blacklisted or
   * it has a version-control listing, is walked the same whatever it holds.
   */
  lemma ClosedDirsIgnoreTheirChildren(env: Env, e: Entry, others: seq<Node>)
    requires e.node.Dir? && !Expands(env, e)
    ensures Walked(env, e) == Walked(env, Entry(e.path, Dir(e.node.name, others)))
    ensures e.node.name in BLACKLISTED_DIRS ==> Walked(env, e) == WalkOutcome([], [], 1)
    ensures e.node.name !in BLACKLISTED_DIRS ==>
      Walked(env, e) == WalkOutcome(LsFilesUnderVersionControl(env, e.path).value, [], 0)
  {
  }

  lemma WalkedSingleton(env: Env, e: Entry)
    ensures WalkedStack(env, [e]) == Walked(env, e)
  {
    assert [e][..0] == [];
    ThenNothing(Walked(env, e));
  }

  lemma ValidFileWalked(env: Env, e: Entry)
    requires e.node.File? && env.isValidFile(e.path) == Valid
    ensures Walked(env, e) == WalkOutcome([e.path], [], 0)
  {
  }

  const HiddenCache := Dir(".cache", [File("a.py")])
  const NodeModules := Dir("node_modules", [File("b.js")])
  const Proj := Dir("proj", [HiddenCache, NodeModules])

  /**
   * A project folder holding a hidden directory and a blacklisted one, with
   * no version control and every file valid.
   */
  function HiddenScenario(): Env {
    Env(
      Dir("", [Proj]),
      (tool: string) => false,
      (cmd: string, args: seq<string>, dir: Path) => None,
      (q: Path) => Valid,
      (q: Path) => None,
      (u: Uri) => [],
      (u: Uri) => [],
      (q: Path) => Err(""))
  }

  /** Without any installed tool no directory has a version-control listing. */
  lemma NoListingInScenario(dir: Path)
    ensures LsFilesUnderVersionControl(HiddenScenario(), dir).None?
  {
    var env := HiddenScenario();
    assert !Usable(env, dir, ".git", "git") && !Usable(env, dir, ".hg", "hg") && !Usable(env, dir, ".svn", "svn");
  }

  lemma HiddenCacheWalked()
    ensures Walked(HiddenScenario(), Entry(["proj", ".cache"], HiddenCache)) == WalkOutcome([["proj", ".cache", "a.py"]], [], 0)
  {
    var env := HiddenScenario();
    var c := Entry(["proj", ".cache"], HiddenCache);
    var a := Entry(["proj", ".cache", "a.py"], File("a.py"));
    assert Walked(env, c) == WalkedStack(env, [a]) by {
      NoListingInScenario(c.path);
      assert Expands(env, c);
      assert ["proj", ".cache"] + ["a.py"] == a.path;
      assert ChildEntries(c.path, [File("a.py")])[0] == a;
      assert ChildEntries(c.path, [File("a.py")]) == [a];
    }
    assert WalkedStack(env, [a]) == WalkOutcome([a.path], [], 0) by {
      WalkedSingleton(env, a);
      ValidFileWalked(env, a);
    }
  }

  lemma WalkedPair(env: Env, a: Entry, b: Entry)
    ensures WalkedStack(env, [a, b]) == Walked(env, b).Then(Walked(env, a))
  {
    var s := [a, b];
    assert s[..1] == [a] && s[1] == b;
    assert WalkedStack(env, s) == Walked(env, b).Then(WalkedStack(env, [a]));
    WalkedSingleton(env, a);
  }

  lemma NodeModulesWalked()
    ensures Walked(HiddenScenario(), Entry(["proj", "node_modules"], NodeModules)) == WalkOutcome([], [], 1)
  {
    assert "node_modules" in BLACKLISTED_DIRS;
  }

  lemma ProjChildren()
    ensures ChildEntries(["proj"], Proj.children)
         == [Entry(["proj", ".cache"], HiddenCache), Entry(["proj", "node_modules"], NodeModules)]
  {
    var kids := ChildEntries(["proj"], Proj.children);
    assert ["proj"] + [".cache"] == ["proj", ".cache"];
    assert ["proj"] + ["node_modules"] == ["proj", "node_modules"];
    assert kids[0] == Entry(["proj", ".cache"], HiddenCache);
    assert kids[1] == Entry(["proj", "node_modules"], NodeModules);
  }

  lemma ExpandsWalked(env: Env, e: Entry)
    requires Expands(env, e)
    ensures Walked(env, e) == WalkedStack(env, ChildEntries(e.path, e.node.children))
  {
  }

  lemma ProjWalked()
    ensures Walked(HiddenScenario(), Entry(["proj"], Proj)) == WalkOutcome([["proj", ".cache", "a.py"]], [], 1)
  {
    var env := HiddenScenario();
    var root := Entry(["proj"], Proj);
    var c := Entry(["proj", ".cache"], HiddenCache);
    var n := Entry(["proj", "node_modules"], NodeModules);
    var found := WalkOutcome([["proj", ".cache", "a.py"]], [], 0);
    var skipped := WalkOutcome([], [], 1);
    assert Walked(env, root) == WalkedStack(env, [c, n]) by {
      NoListingInScenario(["proj"]);
      ExpandsWalked(env, root);
      ProjChildren();
    }
    assert WalkedStack(env, [c, n]) == skipped.Then(found) by {
      WalkedPair(env, c, n);
      NodeModulesWalked();
      HiddenCacheWalked();
    }
  }

  /**
   * The walk opens directories whose name starts with a dot; only its own
   * name check against the blacklist stops it. The file it finds there is
   * one whose watcher events count as inside a blacklisted directory.
   */
  lemma WalkerDoesNotSkipHiddenDirs()
    ensures Discover(HiddenScenario(), ["proj"]) == WalkOutcome([["proj", ".cache", "a.py"]], [], 1)
    ensures InsideBlacklistedDir(["proj", ".cache", "a.py"])
  {
    var env := HiddenScenario();
    var root := Entry(["proj"], Proj);
    assert Lookup(env.fs, ["proj"]) == Some(Proj);
    assert Roots(env, ["proj"]) == [root];
    assert [root][..0] == [];
    assert Discover(env, ["proj"]) == Walked(env, root).Then(Nothing);
    ProjWalked();
    ThenNothing(Walked(env, root));
    assert StartsWithDot(".cache");
    assert BlocksDescendants(["proj", ".cache", "a.py"][1]);
  }
}
