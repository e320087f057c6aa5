/** Absolute paths. */
module Paths {
  type Name = string

  /** An absolute path as its components below the root. */
  type Path = seq<Name>

  function Parent(path: Path): Path {
    if path == [] then [] else path[..|path| - 1]
  }
}
