/**
 * Paths as sequences of name components, the fixed table of blacklisted
 * directory names, and `is_this_inside_blacklisted_dir`.
 *
 * A path is the sequence of its normal components ("/home/u/a.rs" is
 * ["home", "u", "a.rs"]); the empty sequence is the root directory.
 * `Path::parent` drops the last component and `Path::file_name` is the last
 * component, which the root has none of.
 */
module Paths {

  type Path = seq<string>

  /** The directory names the discovery walk refuses to enter. */
  const BLACKLISTED_DIRS: seq<string> := [
    "target", "node_modules", "vendor", "build", "dist", "bin", "pkg", "lib",
    "lib64", "obj", "out", "venv", "env", "tmp", "temp", "logs", "coverage", "backup"
  ]

  predicate StartsWithDot(name: string) {
    |name| > 0 && name[0] == '.'
  }

  /** A directory name that makes everything below it "inside a blacklisted dir". */
  predicate BlocksDescendants(name: string) {
    name in BLACKLISTED_DIRS || StartsWithDot(name)
  }

  /**
   * The meaning of `is_this_inside_blacklisted_dir`: some proper ancestor's
   * name (never the final component) is blacklisted or hidden.
   */
  ghost predicate InsideBlacklistedDir(path: Path) {
    exists i :: 0 <= i < |path| - 1 && BlocksDescendants(path[i])
  }

  /**
   * The source's loop: replace the path by its parent while it has one, and
   * test each parent's file name.
   */
  method IsThisInsideBlacklistedDir(path: Path) returns (inside: bool)
    ensures inside <==> InsideBlacklistedDir(path)
  {
    var p := path;
    while |p| > 0
      invariant |p| <= |path| && p == path[..|p|]
      invariant forall i :: 0 <= i && |p| - 1 <= i < |path| - 1 ==> !BlocksDescendants(path[i])
      decreases |p|
    {
      p := p[..|p| - 1];
      if |p| > 0 {
        var fileName := p[|p| - 1];
        if fileName in BLACKLISTED_DIRS {
          return true;
        }
        if StartsWithDot(fileName) {
          return true;
        }
      }
    }
    return false;
  }

  /** The final component never decides the answer. */
  lemma FinalNameIrrelevant(dir: Path, a: string, b: string)
    ensures InsideBlacklistedDir(dir + [a]) <==> InsideBlacklistedDir(dir + [b])
  {
    if InsideBlacklistedDir(dir + [a]) {
      var i :| 0 <= i < |dir| && BlocksDescendants((dir + [a])[i]);
      assert (dir + [b])[i] == dir[i];
    }
    if InsideBlacklistedDir(dir + [b]) {
      var i :| 0 <= i < |dir| && BlocksDescendants((dir + [b])[i]);
      assert (dir + [a])[i] == dir[i];
    }
  }

  /** Everything below a path that is inside a blacklisted dir is inside one too. */
  lemma InsideIsInherited(path: Path, rest: Path)
    requires InsideBlacklistedDir(path)
    ensures InsideBlacklistedDir(path + rest)
  {
    var i :| 0 <= i < |path| - 1 && BlocksDescendants(path[i]);
    assert (path + rest)[i] == path[i];
  }

  /** A file directly in a blacklisted or hidden directory is inside it. */
  lemma ChildOfBlockedDir(dir: Path, name: string)
    requires |dir| > 0 && BlocksDescendants(dir[|dir| - 1])
    ensures InsideBlacklistedDir(dir + [name])
  {
    assert (dir + [name])[|dir| - 1] == dir[|dir| - 1];
  }
}
