/** Making sure a regular file exists: `ensure_or_init` creates it with content when it is
  * absent and reports whether it did; `touch` creates it or bumps its times. */
module Ensure {
  import opened Io
  import opened Text
  import opened Fs
  import opened IoResultExt

  /** How an entry's type is shown in messages. */
  function TypeName(n: Node): string
  {
    match n
    case File(_, _) => "file"
    case Dir => "directory"
    case Symlink(_) => "symlink"
    case Special => "other"
  }

  /** An existing entry that is not a regular file. */
  function NotAFile(p: Path, n: Node): (e: IoError)
    ensures e.kind == InvalidInput
    ensures OccursAt(e.msg, Display(p), |"Path '"|)
  {
    IoError(InvalidInput, "Path '" + Display(p) + "' exists but is not a file (file type: " + TypeName(n) + ")")
  }

  /** What an `AlreadyExists` means: the metadata (following links) must show a regular file. */
  function InspectExisting(st: FsState, p: Path): (r: Result<Unit>)
    ensures r.Ok? <==> IsFile(st, p)
    ensures r.Err? && Metadata(st, p).Ok? ==> r.error == NotAFile(p, Metadata(st, p).value)
    ensures r.Err? && Metadata(st, p).Err? ==> r.error.kind == Metadata(st, p).error.kind
  {
    match Metadata(st, p)
    case Err(e) => Err(Ctx(e, "Failed to inspect", p))
    case Ok(n) => if n.File? then Ok(Unit) else Err(NotAFile(p, n))
  }

  /** In a well-formed tree, `create_new` on a readable entry fails with `AlreadyExists`. */
  lemma CreateNewOnExisting(st: FsState, p: Path)
    requires WellFormed(st)
    requires Metadata(st, p).Ok?
    ensures CreateNewFile(st, p) == Outcome(st, Err(OsError(AlreadyExists)))
  {
    if p != [] {
      assert p[..|p| - 1] in st.nodes && st.nodes[p[..|p| - 1]].Dir?;
    }
  }

  // ---------------------------------------------------------------- ensure_or_init

  /** An `ensure_or_init_with` call: the new state, the result, and how many times the
    * closure ran. */
  datatype Ensured = Ensured(st: FsState, res: Result<bool>, calls: nat)

  /** `ensure_or_init_with`: `create_new`; when that succeeds the closure's bytes are
    * written and the result is `true`; when something is already there it must be a
    * regular file, which is left alone and gives `false`. */
  function EnsureOrInitWithSpec(st: FsState, p: Path, make: () -> seq<Byte>): (o: Ensured)
    ensures o.res == Ok(true) <==> CreateNewFile(st, p).res.Ok?
    ensures o.res == Ok(true) ==> o == Ensured(st.(nodes := st.nodes[p := File(make(), st.clock)]), Ok(true), 1)
    ensures o.res != Ok(true) ==> o.st == st && o.calls == 0
    ensures o.res == Ok(false) ==> IsFile(st, p)
    ensures CreateNewFile(st, p).res.Err? && CreateNewFile(st, p).res.error.kind != AlreadyExists ==>
      o.res == Err(Ctx(CreateNewFile(st, p).res.error, "Failed to create file at", p))
  {
    var c := CreateNewFile(st, p);
    if c.res.Ok? then Ensured(SetData(c.st, p, make()), Ok(true), 1)
    else if c.res.error.kind == AlreadyExists then
      match InspectExisting(st, p)
      case Err(e) => Ensured(st, Err(e), 0)
      case Ok(_) => Ensured(st, Ok(false), 0)
    else Ensured(st, Err(Ctx(c.res.error, "Failed to create file at", p)), 0)
  }

  /** In a well-formed tree an existing regular file is kept as it is, without calling the
    * closure, and a directory is refused with `InvalidInput`. */
  lemma EnsureOnExisting(st: FsState, p: Path, make: () -> seq<Byte>)
    requires WellFormed(st)
    requires Metadata(st, p).Ok?
    ensures IsFile(st, p) ==> EnsureOrInitWithSpec(st, p, make) == Ensured(st, Ok(false), 0)
    ensures IsDir(st, p) ==> EnsureOrInitWithSpec(st, p, make) == Ensured(st, Err(NotAFile(p, Dir)), 0)
  {
    CreateNewOnExisting(st, p);
  }

  /** A created file holds exactly the closure's bytes: the next read gives them back. */
  lemma EnsureInitThenRead(st: FsState, p: Path, make: () -> seq<Byte>)
    requires EnsureOrInitWithSpec(st, p, make).res == Ok(true)
    ensures ReadFile(EnsureOrInitWithSpec(st, p, make).st, p) == Ok(make())
  {
    assert CreateCheck(st, p).None?;
  }

  /** The imperative `ensure_or_init_with`: open with `create_new`, then write into the handle. */
  method EnsureOrInitWith(fs: FileSystem, p: Path, make: () -> seq<Byte>) returns (r: Result<bool>, calls: nat)
    modifies fs
    ensures Ensured(fs.st, r, calls) == EnsureOrInitWithSpec(old(fs.st), p, make)
  {
    calls := 0;
    var c := fs.Call((s: FsState) => CreateNewFile(s, p));
    if c.Ok? {
      var content := make();
      calls := calls + 1;
      fs.st := SetData(fs.st, p, content);
      return Ok(true), calls;
    }
    if c.error.kind != AlreadyExists {
      return Err(Ctx(c.error, "Failed to create file at", p)), calls;
    }
    var meta := InspectExisting(fs.st, p);
    r := if meta.Ok? then Ok(false) else Err(meta.error);
  }

  /** `ensure_or_init`: as `ensure_or_init_with`, with the content given up front. */
  function EnsureOrInit(st: FsState, p: Path, content: seq<Byte>): (o: Outcome<bool>)
    ensures var e := EnsureOrInitWithSpec(st, p, () => content); o == Outcome(e.st, e.res)
  {
    var c := CreateNewFile(st, p);
    if c.res.Ok? then Outcome(SetData(c.st, p, content), Ok(true))
    else if c.res.error.kind == AlreadyExists then
      match InspectExisting(st, p)
      case Err(e) => Outcome(st, Err(e))
      case Ok(_) => Outcome(st, Ok(false))
    else Outcome(st, Err(Ctx(c.res.error, "Failed to create file at", p)))
  }

  /** The imperative `ensure_or_init`. */
  method EnsureOrInitFile(fs: FileSystem, p: Path, content: seq<Byte>) returns (r: Result<bool>)
    modifies fs
    ensures Outcome(fs.st, r) == EnsureOrInit(old(fs.st), p, content)
  {
    var c := fs.Call((s: FsState) => CreateNewFile(s, p));
    if c.Ok? {
      fs.st := SetData(fs.st, p, content);
      return Ok(true);
    }
    if c.error.kind != AlreadyExists {
      return Err(Ctx(c.error, "Failed to create file at", p));
    }
    var meta := InspectExisting(fs.st, p);
    r := if meta.Ok? then Ok(false) else Err(meta.error);
  }

  // ---------------------------------------------------------------- touch

  /** `touch` (fsx, returning whether it created): `create_new`; on `AlreadyExists` the entry
    * must be a regular file, whose times are set to `now`. */
  function Touch(st: FsState, p: Path, now: int): (o: Outcome<bool>)
    ensures o.res == Ok(true) <==> CreateNewFile(st, p).res.Ok?
    ensures o.res == Ok(true) ==> o.st == st.(nodes := st.nodes[p := File([], st.clock)])
    ensures o.res.Err? ==> o.st == st
    ensures CreateNewFile(st, p).res.Err? && CreateNewFile(st, p).res.error.kind != AlreadyExists ==>
      o.res == Err(Ctx(CreateNewFile(st, p).res.error, "Failed to open/create", p))
  {
    var c := CreateNewFile(st, p);
    if c.res.Ok? then Outcome(c.st, Ok(true))
    else if c.res.error.kind == AlreadyExists then
      match InspectExisting(st, p)
      case Err(e) => Outcome(st, Err(e))
      case Ok(_) =>
        var t := SetTimes(st, p, now);
        if t.res.Err? then Outcome(st, Err(t.res.error)) else Outcome(t.st, Ok(false))
    else Outcome(st, Err(Ctx(c.res.error, "Failed to open/create", p)))
  }

  /** Touching an existing regular file keeps its bytes and sets its modification time to
    * `now`, so a later `now` makes it strictly newer; a directory is refused. */
  lemma TouchExisting(st: FsState, p: Path, now: int)
    requires WellFormed(st)
    requires Metadata(st, p).Ok?
    ensures st.nodes[p].File? ==>
      Touch(st, p, now) == Outcome(st.(nodes := st.nodes[p := File(st.nodes[p].data, now)]), Ok(false))
    ensures st.nodes[p].File? && now > st.nodes[p].mtime ==>
      Touch(st, p, now).st.nodes[p].mtime > st.nodes[p].mtime
    ensures IsDir(st, p) ==> Touch(st, p, now) == Outcome(st, Err(NotAFile(p, Dir)))
  {
    CreateNewOnExisting(st, p);
  }

  /** The imperative `touch`. */
  method TouchFile(fs: FileSystem, p: Path, now: int) returns (r: Result<bool>)
    modifies fs
    ensures Outcome(fs.st, r) == Touch(old(fs.st), p, now)
  {
    var c := fs.Call((s: FsState) => CreateNewFile(s, p));
    if c.Ok? {
      return Ok(true);
    }
    if c.error.kind != AlreadyExists {
      return Err(Ctx(c.error, "Failed to open/create", p));
    }
    var meta := InspectExisting(fs.st, p);
    if meta.Err? {
      return Err(meta.error);
    }
    var t := fs.Call((s: FsState) => SetTimes(s, p, now));
    r := if t.Ok? then Ok(false) else Err(t.error);
  }

  /** `touch` (core, returning the handle): open with `create` and without truncation, then
    * set both times to `now`. The handle is the path it is open on. */
  function TouchHandle(st: FsState, p: Path, now: int): (o: Outcome<Path>)
    ensures o.res.Ok? ==> o.res.value == p && p in o.st.nodes && o.st.nodes[p].File? && o.st.nodes[p].mtime == now
    ensures OpenCreate(st, p, false).res.Err? ==>
      o == Outcome(st, Err(Ctx(OpenCreate(st, p, false).res.error, "Failed to open or create file at", p)))
  {
    var openRes := OpenCreate(st, p, false);
    if openRes.res.Err? then Outcome(st, Err(Ctx(openRes.res.error, "Failed to open or create file at", p)))
    else
      var t := SetTimes(openRes.st, p, now);
      if t.res.Err? then Outcome(openRes.st, Err(Ctx(t.res.error, "Failed to update file atime & mtime for", p)))
      else Outcome(t.st, Ok(p))
  }

  /** Once open succeeds the times are always set: a missing file is created empty with
    * mtime `now`, an existing regular file keeps its bytes, and a directory is refused. */
  lemma TouchHandleCases(st: FsState, p: Path, now: int)
    ensures OpenCreate(st, p, false).res.Ok? ==> TouchHandle(st, p, now).res == Ok(p)
    ensures p in st.nodes && st.nodes[p].File? && p !in st.denied ==>
      TouchHandle(st, p, now) == Outcome(st.(nodes := st.nodes[p := File(st.nodes[p].data, now)]), Ok(p))
    ensures p !in st.nodes && CreateCheck(st, p).None? ==>
      TouchHandle(st, p, now) == Outcome(st.(nodes := st.nodes[p := File([], now)]), Ok(p))
    ensures p in st.nodes && st.nodes[p].Dir? && p !in st.denied ==>
      TouchHandle(st, p, now).st == st && TouchHandle(st, p, now).res.Err? &&
      TouchHandle(st, p, now).res.error.kind == IsADirectory
  {
    var openRes := OpenCreate(st, p, false);
    if openRes.res.Ok? {
      assert Metadata(openRes.st, p) == Ok(openRes.st.nodes[p]);
    }
    if p !in st.nodes && CreateCheck(st, p).None? {
      assert openRes.st.nodes[p := File([], now)] == st.nodes[p := File([], now)];
    }
  }

  /** The two `touch` variants leave an existing regular file in the same state. */
  lemma TouchVariantsAgreeOnFiles(st: FsState, p: Path, now: int)
    requires WellFormed(st)
    requires p in st.nodes && st.nodes[p].File? && p !in st.denied
    ensures TouchHandle(st, p, now).st == Touch(st, p, now).st
  {
    TouchExisting(st, p, now);
    TouchHandleCases(st, p, now);
  }

  /** The imperative handle-returning `touch`. */
  method TouchHandleFile(fs: FileSystem, p: Path, now: int) returns (r: Result<Path>)
    modifies fs
    ensures Outcome(fs.st, r) == TouchHandle(old(fs.st), p, now)
  {
    var openRes := fs.Call((s: FsState) => OpenCreate(s, p, false));
    if openRes.Err? {
      return Err(Ctx(openRes.error, "Failed to open or create file at", p));
    }
    var t := fs.Call((s: FsState) => SetTimes(s, p, now));
    r := if t.Ok? then Ok(p) else Err(Ctx(t.error, "Failed to update file atime & mtime for", p));
  }
}
