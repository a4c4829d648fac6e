/** Read-only checks on a path: does a regular file (or a directory) exist there, asserted
  * as a result or reported as a boolean. All of them read metadata, which follows a
  * symbolic link. */
module Checks {
  import opened Io
  import opened Fs
  import opened IoResultExt
  import Ensure

  /** The error for an existing entry of the wrong type, naming the path; `what` is
    * "file" or "directory". */
  function WrongType(p: Path, what: string, n: Node): (e: IoError)
    ensures e.kind == InvalidInput
    ensures OccursAt(e.msg, Display(p), |"Path '"|)
  {
    IoError(InvalidInput, "Path '" + Display(p) + "' exists but is not a " + what + " (found: " + Ensure.TypeName(n) + ")")
  }

  /** An access error other than a missing entry, naming the path. */
  function AccessFailed(e: IoError, p: Path): (o: IoError)
    ensures o.kind == e.kind
  {
    Ctx(e, "Failed to access", p)
  }

  // ---------------------------------------------------------------- files

  /** `file::assert_exists`: `Ok` exactly for an existing regular file. */
  function FileAssertExists(st: FsState, p: Path): (r: Result<Unit>)
    ensures r.Ok? <==> IsFile(st, p)
    ensures Missing(st, p) ==> r.Err? && r.error.kind == NotFound
    ensures Metadata(st, p).Ok? && !IsFile(st, p) ==> r == Err(WrongType(p, "file", Metadata(st, p).value))
    ensures Metadata(st, p).Err? ==> r == Err(AccessFailed(Metadata(st, p).error, p))
  {
    match Metadata(st, p)
    case Err(e) => Err(AccessFailed(e, p))
    case Ok(n) => if n.File? then Ok(Unit) else Err(WrongType(p, "file", n))
  }

  /** `file::assert_not_exists`: `Ok` exactly when nothing is there; a regular file is
    * `AlreadyExists`, anything else in the way is `InvalidInput`. */
  function FileAssertNotExists(st: FsState, p: Path): (r: Result<Unit>)
    ensures r.Ok? <==> Missing(st, p)
    ensures IsFile(st, p) ==> r == Err(IoError(AlreadyExists, "File '" + Display(p) + "' unexpectedly exists"))
    ensures Metadata(st, p).Ok? && !IsFile(st, p) ==> r == Err(WrongType(p, "file", Metadata(st, p).value))
    ensures r.Err? && Metadata(st, p).Err? ==> r == Err(AccessFailed(Metadata(st, p).error, p))
  {
    match Metadata(st, p)
    case Err(e) => if e.kind == NotFound then Ok(Unit) else Err(AccessFailed(e, p))
    case Ok(n) =>
      if n.File? then Err(IoError(AlreadyExists, "File '" + Display(p) + "' unexpectedly exists"))
      else Err(WrongType(p, "file", n))
  }

  /** `file::exists`: whether a regular file is there; a missing path is `false`, and only
    * other access errors are errors. */
  function FileExists(st: FsState, p: Path): (r: Result<bool>)
    ensures r == Ok(true) <==> IsFile(st, p)
    ensures r.Err? <==> Metadata(st, p).Err? && !Missing(st, p)
    ensures r.Err? ==> r.error == AccessFailed(Metadata(st, p).error, p)
  {
    match Metadata(st, p)
    case Ok(n) => Ok(n.File?)
    case Err(e) => if e.kind == NotFound then Ok(false) else Err(AccessFailed(e, p))
  }

  /** The three file checks agree: `exists` is `true` exactly when `assert_exists` passes;
    * `assert_not_exists` passes exactly when `exists` is `false` for want of an entry; and
    * the two assertions never both pass. */
  lemma FileChecksAgree(st: FsState, p: Path)
    ensures FileExists(st, p) == Ok(true) <==> FileAssertExists(st, p).Ok?
    ensures FileAssertNotExists(st, p).Ok? ==> FileExists(st, p) == Ok(false)
    ensures !(FileAssertExists(st, p).Ok? && FileAssertNotExists(st, p).Ok?)
    ensures FileExists(st, p) == Ok(false) ==> FileAssertExists(st, p).Err?
  {
  }

  // ---------------------------------------------------------------- directories

  /** `dir::assert_exists`: `Ok` exactly for an existing directory. */
  function DirAssertExists(st: FsState, p: Path): (r: Result<Unit>)
    ensures r.Ok? <==> IsDir(st, p)
    ensures Missing(st, p) ==> r.Err? && r.error.kind == NotFound
    ensures Metadata(st, p).Ok? && !IsDir(st, p) ==> r == Err(WrongType(p, "directory", Metadata(st, p).value))
    ensures Metadata(st, p).Err? ==> r.Err? && r.error == AccessFailed(Metadata(st, p).error, p)
  {
    match WithPathContext(Metadata(st, p), "Failed to access", p)
    case Err(e) => Err(e)
    case Ok(n) => if n.Dir? then Ok(Unit) else Err(WrongType(p, "directory", n))
  }

  /** `dir::exists`: whether a directory is there; a missing path is `false`. */
  function DirExists(st: FsState, p: Path): (r: Result<bool>)
    ensures r == Ok(true) <==> IsDir(st, p)
    ensures r.Err? <==> Metadata(st, p).Err? && !Missing(st, p)
    ensures r.Err? ==> r.error == AccessFailed(Metadata(st, p).error, p)
  {
    match Metadata(st, p)
    case Ok(n) => Ok(n.Dir?)
    case Err(e) => if e.kind == NotFound then Ok(false) else WithPathContext(Err(e), "Failed to access", p)
  }

  /** `dir::assert_not_exists`: `Ok` exactly when nothing is there; any entry, file or
    * directory, is `AlreadyExists`. */
  function DirAssertNotExists(st: FsState, p: Path): (r: Result<Unit>)
    ensures r.Ok? <==> Missing(st, p)
    ensures Metadata(st, p).Ok? ==> r.Err? && r.error.kind == AlreadyExists
    ensures r.Err? && Metadata(st, p).Err? ==> r.error == Ctx(Metadata(st, p).error, "Failed to get metadata", p)
  {
    match WithPathContext(Metadata(st, p), "Failed to get metadata", p)
    case Err(e) => if e.kind == NotFound then Ok(Unit) else Err(e)
    case Ok(n) =>
      Err(IoError(AlreadyExists, "Path '" + Display(p) + "' unexpectedly exists (found: " + Ensure.TypeName(n) + ")"))
  }

  /** The directory checks agree with each other, and a path is never reported as both an
    * existing file and an existing directory. */
  lemma DirChecksAgree(st: FsState, p: Path)
    ensures DirExists(st, p) == Ok(true) <==> DirAssertExists(st, p).Ok?
    ensures DirAssertNotExists(st, p).Ok? <==> FileAssertNotExists(st, p).Ok?
    ensures !(DirAssertExists(st, p).Ok? && DirAssertNotExists(st, p).Ok?)
    ensures !(DirExists(st, p) == Ok(true) && FileExists(st, p) == Ok(true))
  {
  }
}
