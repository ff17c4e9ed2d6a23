/**
 * The filesystem as the search sees it. The program only ever asks two
 * questions of it: does `fs::metadata(path)` succeed, and what does
 * `fs::read_dir(path)` enumerate. Both are given to the model as functions
 * of the path, so every lemma holds for every filesystem contents.
 */
module FileSystem {
  import opened Paths

  /** An `io::Error`; the model keeps only its raw OS error number. */
  datatype IoError = IoError(code: int)

  /** One item that the `ReadDir` iterator yields, classified the way `walk_dir` looks at it. */
  datatype Entry =
    | Unreadable                      // the iterator yielded `Err`
    | MetadataFailed                  // `DirEntry::metadata()` failed
    | File(name: string)              // metadata says not a directory (files, symlinks, ...)
    | Dir(name: string, path: Path)   // a directory; `name` is the file name, `path` is `d.path()`

  /** The answer to `fs::read_dir(dir)`: an error, or the entries in enumeration order. */
  datatype Listing = ReadDirFailed(err: IoError) | Listed(entries: seq<Entry>)

  /** The filesystem's answer to `fs::read_dir` for every path. */
  type ReadDir = Path -> Listing

  /** The filesystem's answer to `fs::metadata(path).is_ok()` for every path. */
  type Present = Path -> bool
}
