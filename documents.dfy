/**
 * Documents, `DocumentInfo` and its identity, the editor overlay
 * (`document_map`) with the updates the editor events make to it, and the
 * reads that prefer the overlay over the disk.
 */
module Documents {
  import opened Wrappers
  import opened Paths
  import opened Host

  /** An open editor buffer: its language hint and its text (a `Rope` in the source). */
  datatype Document = Document(languageId: string, text: string)

  /** A file reference plus, when the editor supplied it, its buffer. */
  datatype DocumentInfo = DocumentInfo(uri: Uri, document: Option<Document>) {

    /** `PartialEq::eq`: two infos are the same document when their uris are. */
    predicate Eq(other: DocumentInfo) {
      uri == other.uri
    }

    /** `Hash::hash`: only the uri is fed to the hasher. */
    function Hash(hasher: Uri -> int): int {
      hasher(uri)
    }
  }

  /** The overlay: uri -> open buffer. */
  type DocumentMap = map<Uri, Document>

  lemma EqIsEquivalence(a: DocumentInfo, b: DocumentInfo, c: DocumentInfo)
    ensures a.Eq(a)
    ensures a.Eq(b) <==> b.Eq(a)
    ensures a.Eq(b) && b.Eq(c) ==> a.Eq(c)
  {
  }

  /** Equality ignores the buffer, and hashing agrees with equality for every hasher. */
  lemma IdentityIsTheUri(a: DocumentInfo, b: DocumentInfo, d: Option<Document>, hasher: Uri -> int)
    ensures a.Eq(b) <==> a.uri == b.uri
    ensures a.Eq(b) <==> a.(document := d).Eq(b)
    ensures a.Eq(b) ==> a.Hash(hasher) == b.Hash(hasher)
    ensures a.Hash(hasher) == a.(document := d).Hash(hasher)
  {
  }

  /** `DocumentInfo::from_pathbuf`. */
  function FromPathbuf(env: Env, path: Path): (r: Result<DocumentInfo, string>)
    ensures r.Ok? <==> env.toUrl(path).Some?
    ensures r.Ok? ==> r.value.uri == env.toUrl(path).value && r.value.document == None
    ensures r.Err? ==> r.error == "Failed to convert path to URL"
  {
    match env.toUrl(path)
    case Some(uri) => Ok(DocumentInfo(uri, None))
    case None => Err("Failed to convert path to URL")
  }

  /** `DocumentInfo::get_path`. */
  function GetPath(env: Env, info: DocumentInfo): Path {
    env.toFilePath(info.uri)
  }

  /** `read_file` and `read_file_blocked`: the buffer if there is one, else the disk. */
  function ReadFile(env: Env, info: DocumentInfo): Result<string, string> {
    match info.document
    case Some(doc) => Ok(doc.text)
    case None => env.disk(GetPath(env, info))
  }

  /**
   * A buffer decides the read whatever the disk holds; only an info without
   * one reaches the disk.
   */
  lemma ReadFilePrefersBuffer(env: Env, other: Env, info: DocumentInfo)
    ensures info.document.Some? ==>
      ReadFile(env, info) == ReadFile(other, info) == Ok(info.document.value.text)
    ensures info.document.None? ==> ReadFile(env, info) == env.disk(env.toFilePath(info.uri))
  {
  }

  /** How a path is written in a message. */
  function Display(path: Path): string
    decreases |path|
  {
    if path == [] then "" else Display(path[..|path| - 1]) + "/" + path[|path| - 1]
  }

  /** `get_file_text_from_memory_or_disk` over a snapshot of the overlay. */
  function TextFromMemoryOrDisk(env: Env, documentMap: DocumentMap, filePath: Path): (r: Result<string, string>)
    ensures env.toUrl(filePath).Some? && env.toUrl(filePath).value in documentMap ==>
      r == Ok(documentMap[env.toUrl(filePath).value].text)
    ensures env.toUrl(filePath).Some? && env.toUrl(filePath).value !in documentMap ==>
      r == env.disk(env.toFilePath(env.toUrl(filePath).value))
    ensures env.toUrl(filePath).None? ==> r == Err("cannot parse filepath: " + Display(filePath))
  {
    var urlMb := env.toUrl(filePath);
    if urlMb.Some? && urlMb.value in documentMap then
      Ok(documentMap[urlMb.value].text)
    else
      match FromPathbuf(env, filePath)
      case Ok(doc) => ReadFile(env, doc)
      case Err(_) => Err("cannot parse filepath: " + Display(filePath))
  }

  /** `on_did_open`'s update: insert or overwrite the entry for `uri`. */
  function Opened(m: DocumentMap, uri: Uri, doc: Document): (r: DocumentMap)
    ensures r.Keys == m.Keys + {uri} && r[uri] == doc
    ensures forall k :: k in m && k != uri ==> r[k] == m[k]
  {
    m[uri := doc]
  }

  /**
   * `on_did_change`'s update: a known buffer gets the new text and keeps its
   * language; an unknown one is created with language "unknown".
   */
  function Changed(m: DocumentMap, uri: Uri, text: string): (r: DocumentMap)
    ensures r.Keys == m.Keys + {uri} && r[uri].text == text
    ensures uri in m ==> r[uri].languageId == m[uri].languageId
    ensures uri !in m ==> r[uri].languageId == "unknown"
    ensures forall k :: k in m && k != uri ==> r[k] == m[k]
  {
    if uri in m then m[uri := m[uri].(text := text)]
    else m[uri := Document("unknown", text)]
  }

  /** `on_did_delete`'s update: drop the entry for `uri`, if any. */
  function Deleted(m: DocumentMap, uri: Uri): (r: DocumentMap)
    ensures r.Keys == m.Keys - {uri}
    ensures forall k :: k in r ==> r[k] == m[k]
  {
    m - {uri}
  }

  /** A change after an open keeps the opened language and replaces only the text. */
  lemma ChangeAfterOpen(m: DocumentMap, uri: Uri, languageId: string, t1: string, t2: string)
    ensures Changed(Opened(m, uri, Document(languageId, t1)), uri, t2)
         == Opened(m, uri, Document(languageId, t2))
  {
  }

  /** Of two changes, the last one wins. */
  lemma ChangeTwice(m: DocumentMap, uri: Uri, t1: string, t2: string)
    ensures Changed(Changed(m, uri, t1), uri, t2) == Changed(m, uri, t2)
  {
  }

  /** Deleting a freshly opened buffer restores the overlay. */
  lemma DeleteUndoesOpen(m: DocumentMap, uri: Uri, doc: Document)
    requires uri !in m
    ensures Deleted(Opened(m, uri, doc), uri) == m
  {
  }

  /** The three updates touch no other key. */
  lemma UpdatesAreLocal(m: DocumentMap, uri: Uri, other: Uri, doc: Document, text: string)
    requires other != uri
    ensures (other in Opened(m, uri, doc)) == (other in m)
    ensures (other in Changed(m, uri, text)) == (other in m)
    ensures (other in Deleted(m, uri)) == (other in m)
    ensures other in m ==>
      Opened(m, uri, doc)[other] == Changed(m, uri, text)[other] == Deleted(m, uri)[other] == m[other]
  {
  }

  /**
   * Reads see the overlay: after an open or a change of the uri a path
   * converts to, the read returns the new text; after a delete it goes to
   * the disk.
   */
  lemma ReadsFollowTheOverlay(env: Env, m: DocumentMap, path: Path, doc: Document, text: string)
    requires env.toUrl(path).Some?
    ensures TextFromMemoryOrDisk(env, Opened(m, env.toUrl(path).value, doc), path) == Ok(doc.text)
    ensures TextFromMemoryOrDisk(env, Changed(m, env.toUrl(path).value, text), path) == Ok(text)
    ensures TextFromMemoryOrDisk(env, Deleted(m, env.toUrl(path).value), path)
         == env.disk(env.toFilePath(env.toUrl(path).value))
  {
  }

  /** While the overlay holds the uri, the disk's content is irrelevant to the read. */
  lemma OverlayHidesDisk(env: Env, m: DocumentMap, path: Path, disk: Path -> Result<string, string>)
    requires env.toUrl(path).Some? && env.toUrl(path).value in m
    ensures TextFromMemoryOrDisk(env, m, path) == TextFromMemoryOrDisk(env.(disk := disk), m, path)
  {
  }
}
