/**
 The abstract filesystem the organizer runs against: a path is the root or a
 named child of a path, and the filesystem is the set of paths that are
 regular files plus the set of paths that are directories.
 */
module FileSystem {

  datatype Path = Root | Child(parent: Path, name: string)

  /** Number of names in a path; a child is one deeper than its parent. */
  function Depth(p: Path): nat {
    match p
    case Root => 0
    case Child(q, _) => Depth(q) + 1
  }

  /** Absolute textual form, names joined by '/' (what the log records). */
  function Render(p: Path): string {
    match p
    case Root => ""
    case Child(q, n) => Render(q) + "/" + n
  }

  datatype FileSystem = FileSystem(files: set<Path>, dirs: set<Path>)

  /** `Files.exists`: something, file or directory, is at `p`. */
  predicate Exists(fs: FileSystem, p: Path) {
    p in fs.files || p in fs.dirs
  }

  /** `Files.isDirectory`. */
  predicate IsDirectory(fs: FileSystem, p: Path) {
    p in fs.dirs
  }

  /** No path is both a regular file and a directory. */
  predicate WellFormed(fs: FileSystem) {
    fs.files !! fs.dirs
  }

  /** Every path that exists in `fs`. */
  function AllPaths(fs: FileSystem): (r: set<Path>)
    ensures forall p :: p in r <==> Exists(fs, p)
  {
    fs.files + fs.dirs
  }
}
