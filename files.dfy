/**
 * The file system as the extractor and the cache see it: an explicit value
 * instead of ambient I/O. Each map is an oracle for one library call, and
 * they are deliberately independent of each other (a path may canonicalise
 * and still be unreadable, exist and still have no timestamp).
 */
module Files {
  import opened Wrappers

  type Path = string

  /** A file's text, already split into lines as `str::lines` does. */
  type Content = seq<string>

  datatype FileSystem = FileSystem(
    contents: map<Path, Content>,   // `fs::read_to_string` succeeds on these paths
    canonical: map<Path, Path>,     // `Path::canonicalize` succeeds on these paths
    mtimes: map<Path, nat>,         // seconds since the epoch, where metadata is available
    existing: set<Path>)            // `Path::exists`

  datatype IoError = ReadFailed(path: Path) | CanonicalizeFailed(path: Path)

  /** `fs::read_to_string`. */
  function Read(fs: FileSystem, p: Path): (r: Result<Content, IoError>)
    ensures r.Ok? <==> p in fs.contents
    ensures r.Ok? ==> r.value == fs.contents[p]
    ensures r.Err? ==> r.error == ReadFailed(p)
  {
    if p in fs.contents then Ok(fs.contents[p]) else Err(ReadFailed(p))
  }
}
