/** Shared vocabulary: bytes, paths, optional values and the I/O failures
    that java.nio.file and java.util.zip raise in the modelled code. */
module Base {

  /** One octet, as stored in files and archive entries. */
  newtype byte = x: int | 0 <= x < 256

  /** A file-system path as its sequence of name components, from the
      file-system root. `[]` is the root itself. */
  type Path = seq<string>

  datatype Option<+T> = None | Some(value: T)

  /** The exceptions the modelled code can run into. */
  datatype IoError =
    | NoSuchFile(path: Path)          // NoSuchFileException
    | FileAlreadyExists(path: Path)   // FileAlreadyExistsException
    | NotDirectory(path: Path)        // a path component is a regular file
    | IsDirectory(path: Path)         // opening a directory as a file
    | DirectoryNotEmpty(path: Path)   // DirectoryNotEmptyException
    | AccessDenied(path: Path)        // AccessDeniedException on read
    | NoParent                        // Path.getParent() returned null
    | MalformedArchive(path: Path)    // ZipException while reading
    | DuplicateEntry(name: string)    // ZipException "duplicate entry"
    | NoSuchElement                   // Optional.get() on an empty stream
    | MissingArgument                 // args[0] of an empty argument array

  datatype Result<+T> = Ok(value: T) | Err(error: IoError)
  {
    predicate IsFailure() { Err? }

    function PropagateFailure<U>(): Result<U>
      requires Err?
    {
      Err(error)
    }

    function Extract(): T
      requires Ok?
    {
      value
    }
  }

  /** The status of an operation that either completes or throws. */
  datatype Outcome = Pass | Fail(error: IoError)
  {
    predicate IsFailure() { Fail? }

    function PropagateFailure(): Outcome
      requires Fail?
    {
      this
    }
  }

  function StatusOf<T>(r: Result<T>): Outcome {
    if r.Ok? then Pass else Fail(r.error)
  }

  /** `p` is `q` or an ancestor of `q`. */
  predicate IsPrefix(p: Path, q: Path) {
    |p| <= |q| && q[..|p|] == p
  }

  /** The parent of a non-root path. */
  function Parent(p: Path): Path
    requires |p| > 0
  {
    p[..|p| - 1]
  }
}
