/** The image folder as an abstract file table: a path below the folder, as its list of
    components, maps to the text of the file stored there. Directories are implicit. */
module Files {

  type Path = seq<string>

  type FileTable = map<Path, string>

  /** The file name, the last component of a path. */
  function Name(p: Path): string
    requires |p| > 0
  {
    p[|p| - 1]
  }
}
