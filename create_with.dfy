/** Policy-driven creation: make sure the parent directory is there (or fail), then act
  * on a collision with an existing entry as the caller chose: fail, skip, replace, or
  * write under a generated alternate name. */
module CreateWith {
  import opened Io
  import opened Text
  import opened Fs
  import opened IoResultExt
  import opened TempFiles
  import Atomic
  import PathExt

  /** What to do about a missing parent directory. */
  datatype ParentPolicy = RequireExists | CreateIfMissing

  /** How the alternate name is made: the first free counter, or a suffix from the clock
    * or a random identifier (both inputs to the model). */
  datatype RenameOptions = Counter | Timestamp(stamp: string) | Uuid(id: string)

  datatype CollisionStrategy = Error | Skip | Overwrite | Rename(options: RenameOptions)

  datatype WriteOptions = WriteOptions(parent: ParentPolicy, collision: CollisionStrategy)

  /** The highest counter tried before giving up. */
  const MaxCounter: nat := 1000

  /** `ParentPolicy::ensure`: an existing parent is accepted; a missing one is an error
    * (`NotFound`) or is created with all its ancestors. */
  function EnsureParent(st: FsState, dir: Path, policy: ParentPolicy): (o: Outcome<Unit>)
    ensures policy == RequireExists ==> o.st == st && (o.res.Ok? <==> Exists(st, dir))
    ensures policy == RequireExists && o.res.Err? ==> o.res.error.kind == NotFound
    ensures policy == CreateIfMissing && o.res.Ok? ==> IsDir(o.st, dir) || dir == []
    ensures o.st.denied == st.denied && o.st.clock == st.clock
  {
    match policy
    case RequireExists =>
      if Exists(st, dir) then Outcome(st, Ok(Unit))
      else Outcome(st, Err(IoError(NotFound, "parent directory '" + Display(dir) + "' does not exist")))
    case CreateIfMissing => CreateDirAll(st, dir)
  }

  /** In a well-formed tree, a parent that is already a directory is left as it is. */
  lemma EnsureExistingParentUnchanged(st: FsState, dir: Path, policy: ParentPolicy)
    requires WellFormed(st) && IsDir(st, dir)
    ensures EnsureParent(st, dir, policy) == Outcome(st, Ok(Unit))
  {
    if policy == CreateIfMissing && dir != [] {
      assert dir in st.nodes;
      var m := MkDir(st, dir);
      assert m.res.Err? && m.res.error.kind != NotFound;
    }
  }

  /** `name` with `_suffix` inserted before its extension. */
  function Suffixed(name: Name, suffix: string): (r: Name)
    ensures |r| == |name| + 1 + |suffix|
    ensures PathExt.SplitName(name).ext.None? ==> r == name + "_" + suffix
    ensures PathExt.SplitName(name).ext.Some? ==>
      r == PathExt.SplitName(name).stem + "_" + suffix + "." + PathExt.SplitName(name).ext.value
  {
    var s := PathExt.SplitName(name);
    match s.ext
    case None => s.stem + "_" + suffix
    case Some(e) => s.stem + "_" + suffix + "." + e
  }

  /** The sibling of `p` whose name carries `suffix`. */
  function SuffixedPath(p: Path, suffix: string): (q: Path)
    requires p != []
    ensures |q| == |p| && q[..|q| - 1] == p[..|p| - 1] && q != p
  {
    var q := p[..|p| - 1] + [Suffixed(p[|p| - 1], suffix)];
    assert q[|q| - 1] != p[|p| - 1];
    q
  }

  function CounterPath(p: Path, n: nat): Path
    requires p != []
  {
    SuffixedPath(p, NatToString(n))
  }

  /** The first counter from `n` on whose name is free. */
  function FirstFree(st: FsState, p: Path, n: nat): (r: Option<nat>)
    requires p != []
    ensures r.Some? ==> n <= r.value <= MaxCounter && !Exists(st, CounterPath(p, r.value))
    ensures r.Some? ==> forall j :: n <= j < r.value ==> Exists(st, CounterPath(p, j))
    ensures r.None? ==> forall j :: n <= j <= MaxCounter ==> Exists(st, CounterPath(p, j))
    decreases MaxCounter + 1 - n
  {
    if n > MaxCounter then None
    else if !Exists(st, CounterPath(p, n)) then Some(n)
    else FirstFree(st, p, n + 1)
  }

  /** `RenameOptions::generate_unique_path`: a sibling name for `p`. */
  function UniquePath(st: FsState, p: Path, options: RenameOptions): (r: Result<Path>)
    ensures r.Ok? ==> p != [] && |r.value| == |p| && r.value[..|p| - 1] == p[..|p| - 1] && r.value != p
    ensures r.Ok? && options == Counter ==> !Exists(st, r.value)
  {
    if p == [] then Err(IoError(InvalidInput, "path has no file name"))
    else match options
      case Counter =>
        (match FirstFree(st, p, 1)
         case None => Err(IoError(AlreadyExists, "no free name for '" + Display(p) + "'"))
         case Some(n) => Ok(CounterPath(p, n)))
      case Timestamp(stamp) => Ok(SuffixedPath(p, stamp))
      case Uuid(id) => Ok(SuffixedPath(p, id))
  }

  /** The tests' counter names: "test.txt" gives "test_1.txt", or "test_2.txt" when
    * "test_1.txt" is taken too. */
  lemma CounterExamples(st: FsState, dir: Path)
    requires Exists(st, dir + ["test.txt"])
    ensures !Exists(st, dir + ["test_1.txt"]) ==> UniquePath(st, dir + ["test.txt"], Counter) == Ok(dir + ["test_1.txt"])
    ensures Exists(st, dir + ["test_1.txt"]) && !Exists(st, dir + ["test_2.txt"]) ==>
      UniquePath(st, dir + ["test.txt"], Counter) == Ok(dir + ["test_2.txt"])
  {
    var p := dir + ["test.txt"];
    var name := "test.txt";
    assert name[4] == '.' && name[5] == 't' && name[6] == 'x' && name[7] == 't';
    assert PathExt.LastDot(name) == Some(4);
    assert name[..4] == "test" && name[5..] == "txt";
    assert PathExt.SplitName(name) == PathExt.Split("test", Some("txt"));
    assert p[..|p| - 1] == dir && p[|p| - 1] == name;
    assert NatToString(1) == "1" && NatToString(2) == "2";
    assert Suffixed(name, "1") == "test_1.txt";
    assert Suffixed(name, "2") == "test_2.txt";
    assert CounterPath(p, 1) == dir + ["test_1.txt"];
    assert CounterPath(p, 2) == dir + ["test_2.txt"];
  }

  // ---------------------------------------------------------------- the atomic create_with

  /** The atomic `create_with`: ensure the parent, then dispatch on the collision strategy.
    * The closure may run twice under `Rename`: once for the attempt that collides, once
    * for the alternate name. */
  function CreateWithSpec<V>(st: FsState, p: Path, options: WriteOptions, w: Writer<V>, nonce: string)
    : (o: Outcome<Option<V>>)
  {
    var ensured := if p == [] then Outcome(st, Ok(Unit)) else EnsureParent(st, p[..|p| - 1], options.parent);
    if ensured.res.Err? then Outcome(ensured.st, Err(ensured.res.error))
    else Dispatch(ensured.st, p, options.collision, w, nonce)
  }

  /** One atomic write of `p` in the mode `create_with` uses. */
  function Attempt<V>(st: FsState, p: Path, mode: Atomic.Mode, w: Writer<V>, nonce: string): Outcome<V>
  {
    Atomic.AtomicSpec(st, p, mode, Atomic.RequireParent, Atomic.ForceOther, w, nonce)
  }

  /** The collision strategies, once the parent is in place. */
  function Dispatch<V>(s: FsState, p: Path, collision: CollisionStrategy, w: Writer<V>, nonce: string)
    : (o: Outcome<Option<V>>)
  {
    match collision
    case Error => Lift(Attempt(s, p, Atomic.CreateNew, w, nonce))
    case Overwrite => Lift(Attempt(s, p, Atomic.Overwrite, w, nonce))
    case Skip =>
      var first := Attempt(s, p, Atomic.CreateNew, w, nonce);
      if first.res.Err? && first.res.error.kind == AlreadyExists then Outcome(first.st, Ok(None))
      else Lift(first)
    case Rename(ro) => RenameAfter(Attempt(s, p, Atomic.CreateNew, w, nonce), p, ro, w, nonce)
  }

  /** `Rename` once the first attempt is made: on `AlreadyExists`, one more attempt at a
    * generated sibling name. */
  function RenameAfter<V>(first: Outcome<V>, p: Path, ro: RenameOptions, w: Writer<V>, nonce: string)
    : (o: Outcome<Option<V>>)
  {
    if first.res.Err? && first.res.error.kind == AlreadyExists then
      match UniquePath(first.st, p, ro)
      case Err(e) => Outcome(first.st, Err(e))
      case Ok(q) => Lift(Attempt(first.st, q, Atomic.CreateNew, w, nonce))
    else Lift(first)
  }

  /** With the parent already a directory, `create_with` is the bare dispatch. */
  lemma ParentInPlace<V>(st: FsState, p: Path, options: WriteOptions, w: Writer<V>, nonce: string)
    requires WellFormed(st) && p != [] && IsDir(st, p[..|p| - 1])
    ensures CreateWithSpec(st, p, options, w, nonce) == Dispatch(st, p, options.collision, w, nonce)
  {
    EnsureExistingParentUnchanged(st, p[..|p| - 1], options.parent);
  }

  function Lift<V>(o: Outcome<V>): (r: Outcome<Option<V>>)
    ensures r.st == o.st && r.res.Ok? == o.res.Ok?
    ensures o.res.Ok? ==> r.res.value == Some(o.res.value)
    ensures o.res.Err? ==> r.res.error == o.res.error
  {
    match o.res
    case Ok(v) => Outcome(o.st, Ok(Some(v)))
    case Err(e) => Outcome(o.st, Err(e))
  }

  /** Whether an atomic write reaches the closure: the staged file could be made. */
  predicate WriterReached(st: FsState, p: Path, nonce: string)
  {
    Atomic.StagedPath(p, Atomic.RequireParent, nonce).Some? && CreateNewFile(st, Atomic.StagedPath(p, Atomic.RequireParent, nonce).value).res.Ok?
  }

  /** How many times the atomic `create_with` runs the closure. */
  function WriterCalls<V>(st: FsState, p: Path, options: WriteOptions, w: Writer<V>, nonce: string): (n: nat)
    ensures n <= 2
    ensures !options.collision.Rename? ==> n <= 1
  {
    var ensured := if p == [] then Outcome(st, Ok(Unit)) else EnsureParent(st, p[..|p| - 1], options.parent);
    if ensured.res.Err? then 0
    else
      var s := ensured.st;
      var once := if WriterReached(s, p, nonce) then 1 else 0;
      match options.collision
      case Rename(ro) =>
        var first := Attempt(s, p, Atomic.CreateNew, w, nonce);
        if first.res.Err? && first.res.error.kind == AlreadyExists && UniquePath(first.st, p, ro).Ok?
           && WriterReached(first.st, UniquePath(first.st, p, ro).value, nonce)
        then once + 1 else once
      case _ => once
  }

  /** An existing entry as a `create_new` target: the attempt fails and changes nothing;
    * with the staged file made and the closure successful, with `AlreadyExists`. */
  lemma AttemptOnExisting<V>(st: FsState, p: Path, w: Writer<V>, nonce: string)
    requires p in st.nodes
    ensures Attempt(st, p, Atomic.CreateNew, w, nonce).res.Err?
    ensures Attempt(st, p, Atomic.CreateNew, w, nonce).st == st
    ensures WriterReached(st, p, nonce) && w([], 0).outcome.Ok? ==>
      Attempt(st, p, Atomic.CreateNew, w, nonce).res.error.kind == AlreadyExists
  {
    Atomic.CreateNewNeverReplaces(st, p, Atomic.RequireParent, Atomic.ForceOther, w, nonce);
  }

  /** `Error` on an existing entry: an error, `AlreadyExists` when the staged file could
    * be made and the closure succeeded, and the filesystem is unchanged. */
  lemma ErrorOnExisting<V>(st: FsState, p: Path, parent: ParentPolicy, w: Writer<V>, nonce: string)
    requires WellFormed(st) && p in st.nodes && p != [] && p[..|p| - 1] !in st.denied
    ensures var o := CreateWithSpec(st, p, WriteOptions(parent, Error), w, nonce);
      o.st == st && o.res.Err? &&
      (WriterReached(st, p, nonce) && w([], 0).outcome.Ok? ==> o.res.error.kind == AlreadyExists)
  {
    ParentInPlace(st, p, WriteOptions(parent, Error), w, nonce);
    AttemptOnExisting(st, p, w, nonce);
  }

  /** `Skip` on an existing entry: nothing changes, and with the staged file made and the
    * closure successful the result is `None` after the closure has run once. */
  lemma SkipOnExisting<V>(st: FsState, p: Path, parent: ParentPolicy, w: Writer<V>, nonce: string)
    requires WellFormed(st) && p in st.nodes && p != [] && p[..|p| - 1] !in st.denied
    ensures var o := CreateWithSpec(st, p, WriteOptions(parent, Skip), w, nonce);
      o.st == st && (o.res.Ok? ==> o.res.value.None?) &&
      (WriterReached(st, p, nonce) && w([], 0).outcome.Ok? ==>
        o.res == Ok(None) && WriterCalls(st, p, WriteOptions(parent, Skip), w, nonce) == 1)
  {
    ParentInPlace(st, p, WriteOptions(parent, Skip), w, nonce);
    EnsureExistingParentUnchanged(st, p[..|p| - 1], parent);
    AttemptOnExisting(st, p, w, nonce);
  }

  /** `Rename` after a collision: the second attempt goes to the generated sibling. */
  lemma RenameDispatch<V>(st: FsState, p: Path, ro: RenameOptions, w: Writer<V>, nonce: string)
    requires p in st.nodes && WriterReached(st, p, nonce) && w([], 0).outcome.Ok?
    ensures UniquePath(st, p, ro).Err? ==>
      Dispatch(st, p, Rename(ro), w, nonce) == Outcome(st, Err(UniquePath(st, p, ro).error))
    ensures UniquePath(st, p, ro).Ok? ==>
      Dispatch(st, p, Rename(ro), w, nonce) == Lift(Attempt(st, UniquePath(st, p, ro).value, Atomic.CreateNew, w, nonce))
  {
    var first := Attempt(st, p, Atomic.CreateNew, w, nonce);
    AttemptOnExisting(st, p, w, nonce);
    assert first.st == st && first.res.Err? && first.res.error.kind == AlreadyExists;
    assert Dispatch(st, p, Rename(ro), w, nonce) == RenameAfter(first, p, ro, w, nonce);
  }

  /** `Rename` on an existing entry: the original stays as it is; on success the closure's
    * output lands at the generated sibling, which did not exist. */
  lemma RenameOnExisting<V>(st: FsState, p: Path, parent: ParentPolicy, ro: RenameOptions,
                            w: Writer<V>, nonce: string)
    requires WellFormed(st) && p in st.nodes && p != [] && p[..|p| - 1] !in st.denied
    requires WriterReached(st, p, nonce) && w([], 0).outcome.Ok?
    requires CreateWithSpec(st, p, WriteOptions(parent, Rename(ro)), w, nonce).res.Ok?
    ensures UniquePath(st, p, ro).Ok?
    ensures var q := UniquePath(st, p, ro).value;
      q !in st.nodes && q != p &&
      CreateWithSpec(st, p, WriteOptions(parent, Rename(ro)), w, nonce) ==
        Outcome(st.(nodes := st.nodes[q := File(w([], 0).data, st.clock)]), Ok(Some(w([], 0).outcome.value)))
  {
    assert CreateWithSpec(st, p, WriteOptions(parent, Rename(ro)), w, nonce) == Dispatch(st, p, Rename(ro), w, nonce) by {
      ParentInPlace(st, p, WriteOptions(parent, Rename(ro)), w, nonce);
    }
    RenameDispatch(st, p, ro, w, nonce);
    var q := UniquePath(st, p, ro).value;
    FreshAttemptWritten(st, q, Atomic.CreateNew, w, nonce);
    assert q !in st.nodes by {
      if q in st.nodes {
        Atomic.CreateNewNeverReplaces(st, q, Atomic.RequireParent, Atomic.ForceOther, w, nonce);
      }
    }
  }

  /** `Rename` on an existing entry that succeeds has run the closure twice. */
  lemma RenameRunsWriterTwice<V>(st: FsState, p: Path, parent: ParentPolicy, ro: RenameOptions,
                                 w: Writer<V>, nonce: string)
    requires WellFormed(st) && p in st.nodes && p != [] && p[..|p| - 1] !in st.denied
    requires WriterReached(st, p, nonce) && w([], 0).outcome.Ok?
    requires CreateWithSpec(st, p, WriteOptions(parent, Rename(ro)), w, nonce).res.Ok?
    ensures WriterCalls(st, p, WriteOptions(parent, Rename(ro)), w, nonce) == 2
  {
    assert CreateWithSpec(st, p, WriteOptions(parent, Rename(ro)), w, nonce) == Dispatch(st, p, Rename(ro), w, nonce) by {
      ParentInPlace(st, p, WriteOptions(parent, Rename(ro)), w, nonce);
    }
    EnsureExistingParentUnchanged(st, p[..|p| - 1], parent);
    RenameDispatch(st, p, ro, w, nonce);
    AttemptOnExisting(st, p, w, nonce);
    ReachedWhenSucceeded(st, UniquePath(st, p, ro).value, w, nonce);
  }

  /** A successful attempt has run the closure. */
  lemma ReachedWhenSucceeded<V>(st: FsState, p: Path, w: Writer<V>, nonce: string)
    requires Attempt(st, p, Atomic.CreateNew, w, nonce).res.Ok?
    ensures WriterReached(st, p, nonce)
  {
  }

  /** On a fresh path with its parent in place and a free staging name, every strategy
    * that succeeds writes the closure's output at `p` and returns its value. */
  lemma FreshPathWritten<V>(st: FsState, p: Path, options: WriteOptions, w: Writer<V>, nonce: string)
    requires WellFormed(st) && p != [] && IsDir(st, p[..|p| - 1]) && p !in st.nodes
    requires Atomic.StagedPath(p, Atomic.RequireParent, nonce) != Some(p)
    requires Atomic.StagedPath(p, Atomic.RequireParent, nonce).value !in st.nodes
    requires CreateWithSpec(st, p, options, w, nonce).res.Ok?
    ensures CreateWithSpec(st, p, options, w, nonce) ==
      Outcome(st.(nodes := st.nodes[p := File(w([], 0).data, st.clock)]), Ok(Some(w([], 0).outcome.value)))
  {
    var b := Attempt(st, p, ModeOf(options.collision), w, nonce);
    assert CreateWithSpec(st, p, options, w, nonce) == Lift(b) by {
      FreeTargetNoCollision(st, p, w, nonce);
      FreshDispatch(st, p, options, w, nonce);
    }
    FreshAttemptWritten(st, p, ModeOf(options.collision), w, nonce);
  }

  /** A successful first attempt writes the closure's output at `p`. */
  lemma FreshAttemptWritten<V>(st: FsState, p: Path, mode: Atomic.Mode, w: Writer<V>, nonce: string)
    requires mode != Atomic.Update
    requires Attempt(st, p, mode, w, nonce).res.Ok?
    ensures Lift(Attempt(st, p, mode, w, nonce)) ==
      Outcome(st.(nodes := st.nodes[p := File(w([], 0).data, st.clock)]), Ok(Some(w([], 0).outcome.value)))
  {
    Atomic.FreshWriteResult(st, p, mode, Atomic.RequireParent, Atomic.ForceOther, w, nonce);
  }

  /** A free target with a free staging name distinct from it never collides. */
  lemma FreeTargetNoCollision<V>(st: FsState, p: Path, w: Writer<V>, nonce: string)
    requires p !in st.nodes
    requires Atomic.StagedPath(p, Atomic.RequireParent, nonce) != Some(p)
    requires Atomic.StagedPath(p, Atomic.RequireParent, nonce).Some? ==>
      Atomic.StagedPath(p, Atomic.RequireParent, nonce).value !in st.nodes
    ensures var a := Attempt(st, p, Atomic.CreateNew, w, nonce); !(a.res.Err? && a.res.error.kind == AlreadyExists)
  {
    var a := Attempt(st, p, Atomic.CreateNew, w, nonce);
    if a.res.Err? && a.res.error.kind == AlreadyExists {
      Atomic.CreateNewCollisionMeansTaken(st, p, Atomic.RequireParent, w, nonce);
      assert false;
    }
  }

  /** With the parent in place and no collision, `create_with` is its first attempt. */
  lemma FreshDispatch<V>(st: FsState, p: Path, options: WriteOptions, w: Writer<V>, nonce: string)
    requires WellFormed(st) && p != [] && IsDir(st, p[..|p| - 1])
    requires var a := Attempt(st, p, Atomic.CreateNew, w, nonce); !(a.res.Err? && a.res.error.kind == AlreadyExists)
    ensures CreateWithSpec(st, p, options, w, nonce) == Lift(Attempt(st, p, ModeOf(options.collision), w, nonce))
  {
    ParentInPlace(st, p, options, w, nonce);
    NoCollisionDispatch(st, p, options.collision, w, nonce);
  }

  /** The mode of the first attempt each strategy makes. */
  function ModeOf(collision: CollisionStrategy): (m: Atomic.Mode)
    ensures m != Atomic.Update
  {
    if collision.Overwrite? then Atomic.Overwrite else Atomic.CreateNew
  }

  /** Without a collision, every strategy is its first attempt. */
  lemma NoCollisionDispatch<V>(s: FsState, p: Path, collision: CollisionStrategy, w: Writer<V>, nonce: string)
    requires var a := Attempt(s, p, Atomic.CreateNew, w, nonce); !(a.res.Err? && a.res.error.kind == AlreadyExists)
    ensures Dispatch(s, p, collision, w, nonce) == Lift(Attempt(s, p, ModeOf(collision), w, nonce))
  {
  }

  /** The atomic `create_with` as an operation on the filesystem handle. */
  method Create<V>(fs: FileSystem, p: Path, options: WriteOptions, w: Writer<V>, nonce: string)
    returns (r: Result<Option<V>>)
    modifies fs
    ensures fs.st == CreateWithSpec(old(fs.st), p, options, w, nonce).st
    ensures r == CreateWithSpec(old(fs.st), p, options, w, nonce).res
  {
    if p != [] {
      var e := fs.Call((s: FsState) => EnsureParent(s, p[..|p| - 1], options.parent));
      if e.Err? {
        return Err(e.error);
      }
    }
    match options.collision {
      case Error =>
        var a := Atomic.Run(fs, p, Atomic.CreateNew, Atomic.RequireParent, Atomic.ForceOther, w, nonce);
        r := if a.Ok? then Ok(Some(a.value)) else Err(a.error);
      case Overwrite =>
        var a := Atomic.Run(fs, p, Atomic.Overwrite, Atomic.RequireParent, Atomic.ForceOther, w, nonce);
        r := if a.Ok? then Ok(Some(a.value)) else Err(a.error);
      case Skip =>
        var a := Atomic.Run(fs, p, Atomic.CreateNew, Atomic.RequireParent, Atomic.ForceOther, w, nonce);
        if a.Err? && a.error.kind == AlreadyExists {
          r := Ok(None);
        } else {
          r := if a.Ok? then Ok(Some(a.value)) else Err(a.error);
        }
      case Rename(ro) =>
        var a := Atomic.Run(fs, p, Atomic.CreateNew, Atomic.RequireParent, Atomic.ForceOther, w, nonce);
        if a.Err? && a.error.kind == AlreadyExists {
          var q := UniquePath(fs.st, p, ro);
          if q.Err? {
            return Err(q.error);
          }
          var b := Atomic.Run(fs, q.value, Atomic.CreateNew, Atomic.RequireParent, Atomic.ForceOther, w, nonce);
          r := if b.Ok? then Ok(Some(b.value)) else Err(b.error);
        } else {
          r := if a.Ok? then Ok(Some(a.value)) else Err(a.error);
        }
    }
  }

  // ---------------------------------------------------------------- the handle-returning twin

  /** `file::create_new`: a new empty file, failing on any existing entry. */
  function CreateNewHandle(st: FsState, p: Path): (o: Outcome<Path>)
    ensures o.res.Ok? ==> o.res.value == p && p !in st.nodes && o.st == st.(nodes := st.nodes[p := File([], st.clock)])
    ensures o.res.Err? <==> CreateNewFile(st, p).res.Err?
    ensures o.res.Err? ==> o.st == st && o.res.error.kind == CreateNewFile(st, p).res.error.kind
  {
    var c := CreateNewFile(st, p);
    if c.res.Err? then
      Outcome(st, Err(IoError(c.res.error.kind, "Failed to create file at '" + Display(p) + "': " + c.res.error.msg)))
    else Outcome(c.st, Ok(p))
  }

  /** `file::overwrite`: open for writing, creating or truncating. */
  function OverwriteHandle(st: FsState, p: Path): (o: Outcome<Path>)
    ensures o.res.Ok? ==> o.res.value == p && p in o.st.nodes && o.st.nodes[p].File?
    ensures o.res.Ok? ==> o.st.nodes[p].data == []
    ensures o.res.Err? ==> o.st == st
  {
    var c := OpenCreate(st, p, true);
    if c.res.Err? then
      Outcome(st, Err(IoError(c.res.error.kind, "Failed to open or overwrite file at '" + Display(p) + "': " + c.res.error.msg)))
    else Outcome(c.st, Ok(p))
  }

  /** The non-atomic `create_with`: the same dispatch over plain creation, returning the
    * opened file (as its path). */
  function CreateWithHandleSpec(st: FsState, p: Path, options: WriteOptions): (o: Outcome<Option<Path>>)
  {
    var ensured := if p == [] then Outcome(st, Ok(Unit)) else EnsureParent(st, p[..|p| - 1], options.parent);
    if ensured.res.Err? then Outcome(ensured.st, Err(ensured.res.error))
    else HandleDispatch(ensured.st, p, options.collision)
  }

  function HandleDispatch(s: FsState, p: Path, collision: CollisionStrategy): (o: Outcome<Option<Path>>)
  {
    match collision
    case Error => Lift(CreateNewHandle(s, p))
    case Overwrite => Lift(OverwriteHandle(s, p))
    case Skip =>
      var first := CreateNewHandle(s, p);
      if first.res.Err? && first.res.error.kind == AlreadyExists then Outcome(first.st, Ok(None))
      else Lift(first)
    case Rename(ro) =>
      var first := CreateNewHandle(s, p);
      if first.res.Err? && first.res.error.kind == AlreadyExists then
        match UniquePath(first.st, p, ro)
        case Err(e) => Outcome(first.st, Err(e))
        case Ok(q) => Lift(CreateNewHandle(first.st, q))
      else Lift(first)
  }

  /** The handle twin on an existing regular file whose directory can be read: creating it
    * anew fails with `AlreadyExists` and changes nothing. */
  lemma HandleCollides(st: FsState, p: Path, options: WriteOptions)
    requires WellFormed(st) && p != [] && p in st.nodes && p !in st.denied && p[..|p| - 1] !in st.denied
    ensures CreateWithHandleSpec(st, p, options) == HandleDispatch(st, p, options.collision)
    ensures CreateNewHandle(st, p).st == st
    ensures CreateNewHandle(st, p).res.Err? && CreateNewHandle(st, p).res.error.kind == AlreadyExists
  {
    EnsureExistingParentUnchanged(st, p[..|p| - 1], options.parent);
    assert CreateCheck(st, p).None?;
  }

  /** `Error` on an existing file: `AlreadyExists`, nothing changed. */
  lemma HandleErrorOnExisting(st: FsState, p: Path, parent: ParentPolicy)
    requires WellFormed(st) && p != [] && p in st.nodes && p !in st.denied && p[..|p| - 1] !in st.denied
    ensures var o := CreateWithHandleSpec(st, p, WriteOptions(parent, Error));
      o.st == st && o.res.Err? && o.res.error.kind == AlreadyExists
  {
    HandleCollides(st, p, WriteOptions(parent, Error));
  }

  /** `Skip` on an existing file: `None`, nothing changed. */
  lemma HandleSkipOnExisting(st: FsState, p: Path, parent: ParentPolicy)
    requires WellFormed(st) && p != [] && p in st.nodes && p !in st.denied && p[..|p| - 1] !in st.denied
    ensures CreateWithHandleSpec(st, p, WriteOptions(parent, Skip)) == Outcome(st, Ok(None))
  {
    HandleCollides(st, p, WriteOptions(parent, Skip));
  }

  /** `Rename` on an existing file: the file stays as it was, and on success a new empty
    * file is opened at the generated sibling. */
  lemma HandleRenameOnExisting(st: FsState, p: Path, parent: ParentPolicy, ro: RenameOptions)
    requires WellFormed(st) && p != [] && p in st.nodes && p !in st.denied && p[..|p| - 1] !in st.denied
    ensures var o := CreateWithHandleSpec(st, p, WriteOptions(parent, Rename(ro)));
      p in o.st.nodes && o.st.nodes[p] == st.nodes[p] &&
      (o.res.Ok? ==>
         UniquePath(st, p, ro).Ok? && o.res.value == Some(UniquePath(st, p, ro).value) &&
         o.st == st.(nodes := st.nodes[UniquePath(st, p, ro).value := File([], st.clock)]))
  {
    HandleCollides(st, p, WriteOptions(parent, Rename(ro)));
    var u := UniquePath(st, p, ro);
    if u.Ok? {
      var c := CreateNewHandle(st, u.value);
      assert HandleDispatch(st, p, Rename(ro)) == Lift(c);
      assert u.value != p;
    }
  }

  /** `Overwrite` on an existing regular file: it is opened and emptied. */
  lemma HandleOverwriteExisting(st: FsState, p: Path, parent: ParentPolicy)
    requires WellFormed(st) && p != [] && p in st.nodes && st.nodes[p].File? && p !in st.denied
    requires p[..|p| - 1] !in st.denied
    ensures var o := CreateWithHandleSpec(st, p, WriteOptions(parent, Overwrite));
      o.res == Ok(Some(p)) && o.st == st.(nodes := st.nodes[p := File([], st.clock)])
  {
    HandleCollides(st, p, WriteOptions(parent, Overwrite));
  }

  /** The handle-returning `create_with` as an operation on the filesystem handle. */
  method CreateHandle(fs: FileSystem, p: Path, options: WriteOptions) returns (r: Result<Option<Path>>)
    modifies fs
    ensures fs.st == CreateWithHandleSpec(old(fs.st), p, options).st
    ensures r == CreateWithHandleSpec(old(fs.st), p, options).res
  {
    if p != [] {
      var e := fs.Call((s: FsState) => EnsureParent(s, p[..|p| - 1], options.parent));
      if e.Err? {
        return Err(e.error);
      }
    }
    match options.collision {
      case Error =>
        var a := fs.Call((s: FsState) => CreateNewHandle(s, p));
        r := if a.Ok? then Ok(Some(a.value)) else Err(a.error);
      case Overwrite =>
        var a := fs.Call((s: FsState) => OverwriteHandle(s, p));
        r := if a.Ok? then Ok(Some(a.value)) else Err(a.error);
      case Skip =>
        var a := fs.Call((s: FsState) => CreateNewHandle(s, p));
        if a.Err? && a.error.kind == AlreadyExists {
          r := Ok(None);
        } else {
          r := if a.Ok? then Ok(Some(a.value)) else Err(a.error);
        }
      case Rename(ro) =>
        var a := fs.Call((s: FsState) => CreateNewHandle(s, p));
        if a.Err? && a.error.kind == AlreadyExists {
          var q := UniquePath(fs.st, p, ro);
          if q.Err? {
            return Err(q.error);
          }
          var b := fs.Call((s: FsState) => CreateNewHandle(s, q.value));
          r := if b.Ok? then Ok(Some(b.value)) else Err(b.error);
        } else {
          r := if a.Ok? then Ok(Some(a.value)) else Err(a.error);
        }
    }
  }
}
