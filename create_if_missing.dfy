/** Creating what a path names when nothing is there. Whether a path names a file or a
  * directory is read off its text alone: a trailing separator means a directory, otherwise
  * an extension means a file. */
module CreateIfMissing {
  import opened Io
  import opened Text
  import opened Fs
  import PathExt

  datatype InferredPathType = InferredFile | InferredDir

  /** The last character of `s` is `c`. */
  predicate EndsWithChar(s: string, c: char) { |s| > 0 && s[|s| - 1] == c }

  /** `infer_path_type`. The text of the path is its names joined by '/', followed by a '/'
    * when `trailingSlash` is set; on Unix a '\\' can only end the last name. */
  function InferPathType(p: Path, trailingSlash: bool): (t: InferredPathType)
    ensures trailingSlash ==> t == InferredDir
    ensures p != [] && EndsWithChar(p[|p| - 1], '\\') ==> t == InferredDir
    ensures t == InferredFile ==> PathExt.FsExtension(p).Some?
    ensures PathExt.FsExtension(p).None? ==> t == InferredDir
    ensures !trailingSlash && !(p != [] && EndsWithChar(p[|p| - 1], '\\')) && PathExt.FsExtension(p).Some? ==>
      t == InferredFile
  {
    if trailingSlash || (p != [] && EndsWithChar(p[|p| - 1], '\\')) then InferredDir
    else if PathExt.FsExtension(p).Some? then InferredFile
    else InferredDir
  }

  /** Which way the tests' paths go: "notes.txt" is a file, "notes.txt/" and "Makefile" and
    * ".bashrc" are directories. */
  lemma InferPathTypeExamples()
    ensures InferPathType(["notes.txt"], false) == InferredFile
    ensures InferPathType(["notes.txt"], true) == InferredDir
    ensures InferPathType(["Makefile"], false) == InferredDir
    ensures InferPathType([".bashrc"], false) == InferredDir
  {
    var a, b, c := "notes.txt", ".bashrc", "Makefile";
    assert a[5] == '.' && a[6] == 't' && a[7] == 'x' && a[8] == 't';
    assert PathExt.LastDot(a) == Some(5);
    assert b[0] == '.' && b[1] == 'b' && b[2] == 'a' && b[3] == 's' && b[4] == 'h' && b[5] == 'r' && b[6] == 'c';
    assert PathExt.LastDot(b) == Some(0);
    assert c[0] == 'M' && c[1] == 'a' && c[2] == 'k' && c[3] == 'e' && c[4] == 'f' && c[5] == 'i' && c[6] == 'l' && c[7] == 'e';
    assert PathExt.LastDot(c) == None;
  }

  /** `create_file_or_dir`: for a file, the parents and then the file (created or
    * truncated); for a directory, the directory and all its missing ancestors. */
  function CreateFileOrDir(st: FsState, p: Path, trailingSlash: bool): (o: Outcome<Unit>)
    ensures InferPathType(p, trailingSlash) == InferredDir ==> o == CreateDirAll(st, p)
    ensures o.res.Ok? && InferPathType(p, trailingSlash) == InferredFile ==>
      p in o.st.nodes && o.st.nodes[p] == File([], st.clock)
  {
    match InferPathType(p, trailingSlash)
    case InferredDir => CreateDirAll(st, p)
    case InferredFile =>
      var up := CreateDirAll(st, p[..|p| - 1]);
      if up.res.Err? then up
      else
        OpenCreate(up.st, p, true)
  }

  /** Creating a file or a directory keeps the tree well formed. */
  lemma CreateFileOrDirWellFormed(st: FsState, p: Path, trailingSlash: bool)
    requires WellFormed(st)
    ensures WellFormed(CreateFileOrDir(st, p, trailingSlash).st)
  {
    CreateDirAllWellFormed(st, p);
    if InferPathType(p, trailingSlash) == InferredFile {
      var dir := p[..|p| - 1];
      CreateDirAllWellFormed(st, dir);
      var up := CreateDirAll(st, dir);
      if up.res.Ok? && OpenCreate(up.st, p, true).res.Ok? {
        WritableWellFormed(up.st, p, []);
      }
    }
  }

  /** Where opening for writing with `create` succeeds, a file may be put: a new one goes
    * into an existing directory, and an existing file stays a file. */
  lemma WritableWellFormed(st: FsState, p: Path, data: seq<Byte>)
    requires WellFormed(st)
    requires OpenCreate(st, p, true).res.Ok?
    ensures WellFormed(st.(nodes := st.nodes[p := File(data, st.clock)]))
  {
    if p == [] {
      assert false;
    }
    if p in st.nodes {
      assert p[..|p| - 1] in st.nodes;
    }
    AddEntryWellFormed(st, p, File(data, st.clock));
  }

  /** `create_if_missing`: anything already there is left alone; a missing path is created
    * as a file or a directory by its text; other errors come back unchanged. */
  function CreateIfMissingSpec(st: FsState, p: Path, trailingSlash: bool): (o: Outcome<Unit>)
    ensures Metadata(st, p).Ok? ==> o == Outcome(st, Ok(Unit))
    ensures Missing(st, p) ==> o == CreateFileOrDir(st, p, trailingSlash)
    ensures Metadata(st, p).Err? && !Missing(st, p) ==> o == Outcome(st, Err(Metadata(st, p).error))
  {
    match Metadata(st, p)
    case Ok(_) => Outcome(st, Ok(Unit))
    case Err(e) => if e.kind == NotFound then CreateFileOrDir(st, p, trailingSlash) else Outcome(st, Err(e))
  }

  /** After a successful `create_if_missing` on a well-formed tree, something is at the path. */
  lemma CreateIfMissingLeavesEntry(st: FsState, p: Path, trailingSlash: bool)
    requires WellFormed(st)
    requires CreateIfMissingSpec(st, p, trailingSlash).res.Ok?
    ensures p in CreateIfMissingSpec(st, p, trailingSlash).st.nodes
  {
    if Metadata(st, p).Err? && InferPathType(p, trailingSlash) == InferredDir && p != [] {
      assert IsDir(CreateDirAll(st, p).st, p);
    }
  }

  /** The imperative `create_if_missing`. */
  method CreateIfMissing(fs: FileSystem, p: Path, trailingSlash: bool) returns (r: Result<Unit>)
    modifies fs
    ensures Outcome(fs.st, r) == CreateIfMissingSpec(old(fs.st), p, trailingSlash)
  {
    var meta := Metadata(fs.st, p);
    if meta.Ok? {
      return Ok(Unit);
    }
    if meta.error.kind != NotFound {
      return Err(meta.error);
    }
    r := fs.Call((s: FsState) => CreateFileOrDir(s, p, trailingSlash));
  }

  // ---------------------------------------------------------------- the `create_file_if_missing` macro

  /** The macro: an existing regular file is left alone; anything else there is
    * `InvalidInput`; a missing path gets its parents and then the file, empty or holding
    * `content`; other errors come back unchanged. */
  function CreateFileIfMissing(st: FsState, p: Path, content: Option<seq<Byte>>): (o: Outcome<Unit>)
    ensures IsFile(st, p) ==> o == Outcome(st, Ok(Unit))
    ensures Metadata(st, p).Ok? && !IsFile(st, p) ==>
      o == Outcome(st, Err(IoError(InvalidInput, "Path exists but is not a file")))
    ensures Metadata(st, p).Err? && !Missing(st, p) ==> o == Outcome(st, Err(Metadata(st, p).error))
    ensures Missing(st, p) && o.res.Ok? ==>
      p in o.st.nodes && o.st.nodes[p] == File(if content.Some? then content.value else [], st.clock)
  {
    match Metadata(st, p)
    case Ok(n) =>
      if n.File? then Outcome(st, Ok(Unit))
      else Outcome(st, Err(IoError(InvalidInput, "Path exists but is not a file")))
    case Err(e) =>
      if e.kind != NotFound then Outcome(st, Err(e))
      else
        var up := if p == [] then Outcome(st, Ok(Unit)) else CreateDirAll(st, p[..|p| - 1]);
        if up.res.Err? then up
        else if content.None? then OpenCreate(up.st, p, true)
        else WriteFile(up.st, p, content.value)
  }

  /** A missing file is created inside a tree that stays well formed, and the new file
    * holds exactly the given content. */
  lemma CreateFileIfMissingWellFormed(st: FsState, p: Path, content: Option<seq<Byte>>)
    requires WellFormed(st)
    ensures WellFormed(CreateFileIfMissing(st, p, content).st)
  {
    if Missing(st, p) && p != [] {
      var dir := p[..|p| - 1];
      CreateDirAllWellFormed(st, dir);
      var up := CreateDirAll(st, dir);
      if up.res.Ok? && OpenCreate(up.st, p, true).res.Ok? {
        WritableWellFormed(up.st, p, if content.Some? then content.value else []);
      }
    }
  }
}
