/** Temporary directories: created under a random hidden name, removed with everything
  * in them when closed or dropped, or kept. */
module TempDirs {
  import opened Io
  import opened Fs
  import opened IoResultExt

  /** The name `in_dir` asks for: prefix ".tmp-" and the random part. */
  function InDirName(nonce: string): (n: Name)
    ensures |n| == |nonce| + 5 && n[..5] == ".tmp-"
  {
    ".tmp-" + nonce
  }

  /** The name `new` gets: the temporary-file library's default prefix ".tmp". */
  function DefaultName(nonce: string): (n: Name)
    ensures |n| == |nonce| + 4 && n[..4] == ".tmp"
  {
    ".tmp" + nonce
  }

  /** `TempDir::in_dir`: a new empty directory in `dir`. */
  function InDirSpec(st: FsState, dir: Path, nonce: string): (o: Outcome<Path>)
    ensures o.res.Ok? ==> o.res.value == dir + [InDirName(nonce)] && o.res.value !in st.nodes
    ensures o.res.Ok? ==> o.st == st.(nodes := st.nodes[o.res.value := Dir])
    ensures o.res.Err? ==> o.st == st
    ensures o.res.Err? <==> MkDir(st, dir + [InDirName(nonce)]).res.Err?
    ensures o.res.Err? ==> o.res.error.kind == MkDir(st, dir + [InDirName(nonce)]).res.error.kind
  {
    var p := dir + [InDirName(nonce)];
    var m := MkDir(st, p);
    if m.res.Err? then Outcome(st, Err(Ctx(m.res.error, "failed to create tempdir in", dir)))
    else Outcome(m.st, Ok(p))
  }

  /** `TempDir::new`: a new directory in the system's temporary directory `tmpRoot`;
    * failures carry no added context. */
  function NewSpec(st: FsState, tmpRoot: Path, nonce: string): (o: Outcome<Path>)
    ensures o.res.Ok? ==> o.res.value == tmpRoot + [DefaultName(nonce)] && o.res.value !in st.nodes
    ensures o.res.Ok? ==> o.st == st.(nodes := st.nodes[o.res.value := Dir])
    ensures o.res.Err? <==> MkDir(st, tmpRoot + [DefaultName(nonce)]).res.Err?
    ensures o.res.Err? ==> o.st == st && o.res.error == MkDir(st, tmpRoot + [DefaultName(nonce)]).res.error
  {
    var p := tmpRoot + [DefaultName(nonce)];
    var m := MkDir(st, p);
    if m.res.Err? then Outcome(st, Err(m.res.error)) else Outcome(m.st, Ok(p))
  }

  /** `close`: remove the directory and everything in it, reporting failure. */
  function CloseSpec(st: FsState, p: Path): (o: Outcome<Unit>)
    ensures o.res.Ok? ==> o.st == st.(nodes := st.nodes - Subtree(st, p))
    ensures o.res.Err? <==> RemoveDirAll(st, p).res.Err?
    ensures o.res.Err? ==> o.st == st && o.res.error.kind == RemoveDirAll(st, p).res.error.kind
  {
    var r := RemoveDirAll(st, p);
    if r.res.Ok? then r else Outcome(st, Err(Ctx(r.res.error, "failed to close tempdir", p)))
  }

  /** A temporary directory created in a well-formed tree and closed untouched leaves
    * the tree as it was. */
  lemma InDirThenCloseRestores(st: FsState, dir: Path, nonce: string)
    requires WellFormed(st)
    requires InDirSpec(st, dir, nonce).res.Ok?
    ensures CloseSpec(InDirSpec(st, dir, nonce).st, InDirSpec(st, dir, nonce).res.value) == Outcome(st, Ok(Unit))
  {
    var o := InDirSpec(st, dir, nonce);
    var p := o.res.value;
    var s1 := o.st;
    forall q | q in s1.nodes && IsPrefix(p, q) ensures q == p {
      if q != p {
        assert false;
      }
    }
    assert Subtree(s1, p) == {p};
    assert !exists q :: q in s1.denied && IsPrefix(p, q) && q in s1.nodes;
    assert s1.nodes - {p} == st.nodes;
  }

  /** A temporary directory handle; `consumed` becomes true once it has been kept or closed. */
  class TempDir {
    const fs: FileSystem
    const path: Path
    var consumed: bool

    constructor (fs: FileSystem, path: Path)
      ensures this.fs == fs && this.path == path && !consumed
    {
      this.fs := fs;
      this.path := path;
      consumed := false;
    }

    /** `TempDir::new`. */
    static method New(fs: FileSystem, tmpRoot: Path, nonce: string) returns (r: Result<TempDir>)
      modifies fs
      ensures fs.st == NewSpec(old(fs.st), tmpRoot, nonce).st
      ensures r.Err? ==> NewSpec(old(fs.st), tmpRoot, nonce).res == Err(r.error)
      ensures r.Ok? ==> NewSpec(old(fs.st), tmpRoot, nonce).res == Ok(r.value.path)
      ensures r.Ok? ==> fresh(r.value) && r.value.fs == fs && !r.value.consumed
    {
      var res := fs.Call((s: FsState) => NewSpec(s, tmpRoot, nonce));
      if res.Err? {
        return Err(res.error);
      }
      var d := new TempDir(fs, res.value);
      return Ok(d);
    }

    /** `TempDir::in_dir`. */
    static method InDir(fs: FileSystem, dir: Path, nonce: string) returns (r: Result<TempDir>)
      modifies fs
      ensures fs.st == InDirSpec(old(fs.st), dir, nonce).st
      ensures r.Err? ==> InDirSpec(old(fs.st), dir, nonce).res == Err(r.error)
      ensures r.Ok? ==> InDirSpec(old(fs.st), dir, nonce).res == Ok(r.value.path)
      ensures r.Ok? ==> fresh(r.value) && r.value.fs == fs && !r.value.consumed
    {
      var res := fs.Call((s: FsState) => InDirSpec(s, dir, nonce));
      if res.Err? {
        return Err(res.error);
      }
      var d := new TempDir(fs, res.value);
      return Ok(d);
    }

    /** `keep`: the directory stays and its path is handed back. */
    method Keep() returns (p: Path)
      requires !consumed
      modifies this
      ensures consumed && p == path
    {
      consumed := true;
      p := path;
    }

    /** `close`. */
    method Close() returns (r: Result<Unit>)
      requires !consumed
      modifies this, fs
      ensures consumed
      ensures fs.st == CloseSpec(old(fs.st), path).st && r == CloseSpec(old(fs.st), path).res
    {
      r := fs.Call((s: FsState) => CloseSpec(s, path));
      consumed := true;
    }

    /** Dropping the handle removes the directory and ignores a failure. */
    method Drop()
      requires !consumed
      modifies this, fs
      ensures consumed
      ensures fs.st == RemoveDirAll(old(fs.st), path).st
    {
      var _ := fs.Call((s: FsState) => RemoveDirAll(s, path));
      consumed := true;
    }
  }
}
