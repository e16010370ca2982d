/**
 * What the workspace core consults but does not implement: the filesystem
 * (a finite tree), the version-control command-line tools, the file
 * validity filter, URL conversion and disk reads. Each is a field of `Env`,
 * so every operation is stated for all behaviours of its environment.
 */
module Host {
  import opened Wrappers
  import opened Paths

  /**
   * A directory entry as `is_file` / `is_dir` see it. `Special` is an entry
   * that is neither (a socket, a dangling link).
   */
  datatype Node =
    | File(name: string)
    | Dir(name: string, children: seq<Node>)
    | Special(name: string)

  /** The first child carrying `name`, as a directory lookup finds it. */
  function FindChild(children: seq<Node>, name: string): (r: Option<Node>)
    ensures r.Some? ==> r.value in children && r.value.name == name
    ensures r.None? <==> forall c :: c in children ==> c.name != name
  {
    if children == [] then None
    else if children[0].name == name then Some(children[0])
    else FindChild(children[1..], name)
  }

  /** The entry at `path` below the root directory `root`, if there is one. */
  function Lookup(root: Node, path: Path): (r: Option<Node>)
    ensures path == [] ==> r == Some(root)
    ensures r.Some? && path != [] ==> r.value.name == path[|path| - 1]
    decreases |path|
  {
    if path == [] then Some(root)
    else match Lookup(root, path[..|path| - 1])
      case Some(Dir(_, children)) => FindChild(children, path[|path| - 1])
      case _ => None
  }

  /** `Path::exists`. */
  predicate Exists(root: Node, path: Path) {
    Lookup(root, path).Some?
  }

  /** The verdict of the external `is_valid_file` filter. */
  datatype Validity = Valid | Rejected(reason: string)

  /** A file URL, the identity documents are keyed by. */
  datatype Uri = Uri(href: string)

  datatype Env = Env(
    /** The root directory of the filesystem. */
    fs: Node,
    /** `which(tool).is_ok()`. */
    which: string -> bool,
    /**
     * Running `cmd args` in directory `dir`: `None` when the process cannot
     * be spawned, exits unsuccessfully or prints non-UTF-8; otherwise its
     * output lines, which the caller joins onto `dir`.
     */
    run: (string, seq<string>, Path) -> Option<seq<Path>>,
    /** `is_valid_file`. */
    isValidFile: Path -> Validity,
    /** `pathbuf_to_url`, which may fail. */
    toUrl: Path -> Option<Uri>,
    /** `Url::to_file_path().unwrap_or_default()`. */
    toFilePath: Uri -> Path,
    /** `PathBuf::from(url.path())`. */
    urlPath: Uri -> Path,
    /** `read_to_string`, with the rendered I/O error on failure. */
    disk: Path -> Result<string, string>
  )
}
