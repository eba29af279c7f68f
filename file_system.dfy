/** The read-only filesystem questions the image-name logic asks (`File.exists`,
    `File.listFiles`, `File.getName`, `File.getAbsolutePath`, `File.isDirectory`),
    answered from a snapshot that the caller passes in. */
module FileSystemProbe {

  /** One entry of a directory listing: its name, its absolute path, and whether it is a directory. */
  datatype Entry = Entry(name: string, path: string, isDirectory: bool)

  /** A snapshot of the filesystem: the paths that exist, and for every path whose
      `listFiles()` is not null, its entries in listing order. */
  datatype FileSystem = FileSystem(existing: set<string>, listings: map<string, seq<Entry>>)

  /** `new File(path).exists()`. */
  predicate Exists(fs: FileSystem, path: string) {
    path in fs.existing
  }

  /** A snapshot in which every listed entry exists. */
  ghost predicate Coherent(fs: FileSystem) {
    forall dir, i :: dir in fs.listings && 0 <= i < |fs.listings[dir]| ==> fs.listings[dir][i].path in fs.existing
  }
}
