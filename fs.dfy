/** The filesystem the library talks to, as a value: a map from paths to entries, the
  * paths the process may not touch, and the clock that stamps modification times.
  * Each operating-system call the library makes is a function from the state before
  * the call to the state after it and the call's result; `FileSystem` is the mutable
  * handle through which the imperative parts of the model perform those calls. */
module Fs {
  import opened Io
  import opened Text

  /** One path component (never empty, never "." or ".."). */
  type Name = string

  /** A path as the components below the base directory; `[]` is the base directory
    * itself, which Rust spells "" (or "/" for the root). */
  type Path = seq<Name>

  /** The deepest path the system accepts; deeper ones fail as too long (ENAMETOOLONG). */
  const MaxDepth: nat := 64

  datatype Node =
    | File(data: seq<Byte>, mtime: int)
    | Dir
    | Symlink(target: Path)
    | Special

  datatype FsState = FsState(nodes: map<Path, Node>, denied: set<Path>, clock: int)

  /** The state after a call and what the call returned. */
  datatype Outcome<T> = Outcome(st: FsState, res: Result<T>)

  /** Rust's `Path::parent()`: the path without its last component, absent for the base. */
  function Parent(p: Path): (r: Option<Path>)
    ensures r.None? <==> p == []
    ensures r.Some? ==> |r.value| + 1 == |p| && r.value + [p[|p| - 1]] == p
  {
    if p == [] then None else Some(p[..|p| - 1])
  }

  /** `a` is `b` or one of its ancestors. */
  predicate IsPrefix(a: Path, b: Path) { |a| <= |b| && b[..|a|] == a }

  /** `p` lies strictly below `root`. */
  predicate Below(p: Path, root: Path) { |root| < |p| && p[..|root|] == root }

  /** The text `Path::display()` shows. */
  function Display(p: Path): string
  {
    if p == [] then "." else if |p| == 1 then p[0] else Display(p[..|p| - 1]) + "/" + p[|p| - 1]
  }

  /** An error reported by the operating system; its text is the system's own. */
  function OsError(kind: ErrorKind): (e: IoError)
    ensures e.kind == kind
  {
    IoError(kind, OsMessage(kind))
  }

  /** The message the operating system attaches to each kind of failure. */
  function OsMessage(kind: ErrorKind): string
  {
    match kind
    case NotFound => "No such file or directory (os error 2)"
    case AlreadyExists => "File exists (os error 17)"
    case PermissionDenied => "Permission denied (os error 13)"
    case NotADirectory => "Not a directory (os error 20)"
    case IsADirectory => "Is a directory (os error 21)"
    case DirectoryNotEmpty => "Directory not empty (os error 39)"
    case InvalidFilename => "File name too long (os error 36)"
    case InvalidData => "stream did not contain valid UTF-8"
    case InvalidInput => "invalid input"
    case Other => "unsupported file type"
  }

  // ---------------------------------------------------------------- queries

  /** `fs::metadata`: the entry at `p`, following a symbolic link one step. */
  function Metadata(st: FsState, p: Path): (r: Result<Node>)
    ensures r.Ok? ==> !r.value.Symlink?
  {
    if p in st.denied then Err(OsError(PermissionDenied))
    else if p !in st.nodes then Err(OsError(NotFound))
    else match st.nodes[p]
      case Symlink(t) =>
        if t in st.nodes && t !in st.denied && !st.nodes[t].Symlink? then Ok(st.nodes[t])
        else Err(OsError(NotFound))
      case n => Ok(n)
  }

  /** `fs::symlink_metadata`: the entry at `p` itself. */
  function SymlinkMetadata(st: FsState, p: Path): Result<Node>
  {
    if p in st.denied then Err(OsError(PermissionDenied))
    else if p !in st.nodes then Err(OsError(NotFound))
    else Ok(st.nodes[p])
  }

  /** `Path::exists()`: metadata can be read. */
  predicate Exists(st: FsState, p: Path) { Metadata(st, p).Ok? }

  predicate IsFile(st: FsState, p: Path) { Metadata(st, p).Ok? && Metadata(st, p).value.File? }

  predicate IsDir(st: FsState, p: Path) { Metadata(st, p).Ok? && Metadata(st, p).value.Dir? }

  /** `fs::read`: the whole content of a regular file. */
  function ReadFile(st: FsState, p: Path): (r: Result<seq<Byte>>)
    ensures r.Ok? <==> IsFile(st, p)
    ensures r.Ok? ==> r.value == Metadata(st, p).value.data
  {
    match Metadata(st, p)
    case Err(e) => Err(e)
    case Ok(File(d, _)) => Ok(d)
    case Ok(Dir) => Err(OsError(IsADirectory))
    case Ok(_) => Err(OsError(Other))
  }

  /** `fs::read_to_string`: the file's bytes when they are UTF-8, otherwise `InvalidData`. */
  function ReadToString(st: FsState, p: Path): (r: Result<seq<Byte>>)
    ensures r.Ok? <==> IsFile(st, p) && IsUtf8(ReadFile(st, p).value)
    ensures r.Ok? ==> r.value == ReadFile(st, p).value && IsUtf8(r.value)
    ensures r.Err? && ReadFile(st, p).Err? ==> r.error == ReadFile(st, p).error
    ensures r.Err? && ReadFile(st, p).Ok? ==> r.error == OsError(InvalidData)
    ensures r.Err? && r.error.kind == NotFound <==> Missing(st, p)
  {
    match ReadFile(st, p)
    case Err(e) => Err(e)
    case Ok(d) => if IsUtf8(d) then Ok(d) else Err(OsError(InvalidData))
  }

  /** Reading metadata at `p` reports that nothing is there (no entry, or a dangling link). */
  predicate Missing(st: FsState, p: Path)
  {
    Metadata(st, p).Err? && Metadata(st, p).error.kind == NotFound
  }

  /** The names directly inside `dir`. */
  function Children(st: FsState, dir: Path): set<Name>
  {
    set q | q in st.nodes && |q| == |dir| + 1 && q[..|dir|] == dir :: q[|dir|]
  }

  /** `fs::read_dir`: the names of the entries directly inside `dir`, each once. The order
    * the system yields them in is unspecified; the model takes ascending name order. */
  function ListDir(st: FsState, dir: Path): (r: Result<seq<Name>>)
    ensures r.Ok? <==> IsDir(st, dir)
    ensures r.Ok? ==> (forall n :: n in r.value <==> n in Children(st, dir)) && NoDup(r.value)
    ensures r.Err? ==> Metadata(st, dir).Err? ==> r.error == Metadata(st, dir).error
  {
    match Metadata(st, dir)
    case Err(e) => Err(e)
    case Ok(Dir) => Ok(Ascending(Children(st, dir)))
    case Ok(_) => Err(OsError(NotADirectory))
  }

  /** The entries of `q` and `p` agree: both absent, or both the same node. */
  predicate SameAt(a: FsState, b: FsState, q: Path)
  {
    (q in a.nodes <==> q in b.nodes) && (q in a.nodes ==> a.nodes[q] == b.nodes[q])
  }

  /** `q` is `dir + [n]` or lies below it, for one of `names`. */
  predicate UnderSome(q: Path, dir: Path, names: seq<Name>)
  {
    |dir| < |q| && q[..|dir|] == dir && q[|dir|] in names
  }

  /** Lying under the first name, or under one of the rest, is lying under one of `names`. */
  lemma UnderSomeSplit(dir: Path, names: seq<Name>)
    requires names != []
    ensures forall q :: UnderSome(q, dir, [names[0]]) || UnderSome(q, dir, names[1..]) ==> UnderSome(q, dir, names)
  {
    assert forall n :: n in names[1..] ==> n in names;
  }

  // ---------------------------------------------------------------- listing order

  /** No name occurs twice. */
  predicate NoDup(s: seq<Name>) { forall i, j :: 0 <= i < j < |s| ==> s[i] != s[j] }

  /** `a` sorts before `b` or equals it, comparing characters from the left. */
  predicate NameLe(a: Name, b: Name)
    decreases |a|
  {
    |a| == 0 || (|b| > 0 && (a[0] < b[0] || (a[0] == b[0] && NameLe(a[1..], b[1..]))))
  }

  lemma {:induction false} NameLeTotal(a: Name, b: Name)
    ensures NameLe(a, b) || NameLe(b, a)
    decreases |a|
  {
    if |a| > 0 && |b| > 0 && a[0] == b[0] {
      NameLeTotal(a[1..], b[1..]);
    }
  }

  lemma {:induction false} NameLeAntisymmetric(a: Name, b: Name)
    requires NameLe(a, b) && NameLe(b, a)
    ensures a == b
    decreases |a|
  {
    if |a| > 0 {
      NameLeAntisymmetric(a[1..], b[1..]);
      assert a == [a[0]] + a[1..] && b == [b[0]] + b[1..];
    }
  }

  lemma {:induction false} NameLeTransitive(a: Name, b: Name, c: Name)
    requires NameLe(a, b) && NameLe(b, c)
    ensures NameLe(a, c)
    decreases |a|
  {
    if |a| > 0 && a[0] == b[0] && b[0] == c[0] {
      NameLeTransitive(a[1..], b[1..], c[1..]);
    }
  }

  /** `m` is the first of `s` in name order. */
  predicate IsLeast(m: Name, s: set<Name>) { m in s && forall y :: y in s ==> NameLe(m, y) }

  lemma {:induction false} LeastExists(s: set<Name>)
    requires s != {}
    ensures exists m :: IsLeast(m, s)
    decreases |s|
  {
    var x :| x in s;
    NameLeTotal(x, x);
    if s == {x} {
      assert IsLeast(x, s);
    } else {
      LeastExists(s - {x});
      var m :| IsLeast(m, s - {x});
      NameLeTotal(m, x);
      if NameLe(m, x) {
        assert IsLeast(m, s);
      } else {
        forall y | y in s ensures NameLe(x, y) {
          if y != x {
            NameLeTransitive(x, m, y);
          }
        }
        assert IsLeast(x, s);
      }
    }
  }

  lemma LeastUnique(s: set<Name>)
    ensures forall a, b :: IsLeast(a, s) && IsLeast(b, s) ==> a == b
  {
    forall a, b | IsLeast(a, s) && IsLeast(b, s) ensures a == b {
      NameLeAntisymmetric(a, b);
    }
  }

  /** The names of `s`, each once, in ascending order. */
  function Ascending(s: set<Name>): (r: seq<Name>)
    ensures forall n :: n in r <==> n in s
    ensures NoDup(r)
    ensures forall i, j :: 0 <= i < j < |r| ==> NameLe(r[i], r[j])
    decreases |s|
  {
    if s == {} then []
    else
      LeastExists(s);
      LeastUnique(s);
      var m :| IsLeast(m, s);
      [m] + Ascending(s - {m})
  }

  // ---------------------------------------------------------------- calls that change the state

  /** Why a new entry cannot be made at `p`, apart from `p` being taken: too deep, the
    * parent missing or not a directory, or no permission. */
  function CreateCheck(st: FsState, p: Path): Option<IoError>
  {
    if |p| > MaxDepth then Some(OsError(InvalidFilename))
    else if p != [] && p[..|p| - 1] !in st.nodes then Some(OsError(NotFound))
    else if p != [] && !st.nodes[p[..|p| - 1]].Dir? then Some(OsError(NotADirectory))
    else if p in st.denied then Some(OsError(PermissionDenied))
    else None
  }

  /** `OpenOptions::new().write(true).create_new(true).open(p)`: an empty file, or
    * `AlreadyExists` when anything is at `p`. */
  function CreateNewFile(st: FsState, p: Path): (o: Outcome<Unit>)
    ensures o.res.Ok? ==> p !in st.nodes && o.st == st.(nodes := st.nodes[p := File([], st.clock)])
    ensures o.res.Err? ==> o.st == st
    ensures CreateCheck(st, p).None? && p in st.nodes ==> o.res == Err(OsError(AlreadyExists))
    ensures o.res.Err? && o.res.error.kind == AlreadyExists ==> p in st.nodes
  {
    var c := CreateCheck(st, p);
    if c.Some? then Outcome(st, Err(c.value))
    else if p in st.nodes then Outcome(st, Err(OsError(AlreadyExists)))
    else Outcome(st.(nodes := st.nodes[p := File([], st.clock)]), Ok(Unit))
  }

  /** Opening `p` for writing with `create(true)`, truncating or not. A missing file is
    * made empty; writing through a symbolic link or to a special file is not modelled
    * and fails with `Other`. */
  function OpenCreate(st: FsState, p: Path, truncate: bool): (o: Outcome<Unit>)
    ensures o.res.Ok? ==> p in o.st.nodes && o.st.nodes[p].File? && p !in st.denied
    ensures o.res.Ok? && p in st.nodes ==> st.nodes[p].File?
    ensures o.res.Ok? && (truncate || p !in st.nodes) ==> o.st == st.(nodes := st.nodes[p := File([], st.clock)])
    ensures o.res.Ok? && !truncate && p in st.nodes ==> o.st == st
    ensures p !in st.nodes && CreateCheck(st, p).None? ==> o.res.Ok?
    ensures p in st.nodes && p !in st.denied && st.nodes[p].File? ==> o.res.Ok?
    ensures p in st.nodes && p !in st.denied && st.nodes[p].Dir? ==> o.res == Err(OsError(IsADirectory))
    ensures o.res.Err? ==> o.st == st
  {
    if p in st.nodes && p !in st.denied then
      match st.nodes[p]
      case File(d, m) =>
        if truncate then Outcome(st.(nodes := st.nodes[p := File([], st.clock)]), Ok(Unit))
        else Outcome(st, Ok(Unit))
      case Dir => Outcome(st, Err(OsError(IsADirectory)))
      case _ => Outcome(st, Err(OsError(Other)))
    else
      var c := CreateCheck(st, p);
      if c.Some? then Outcome(st, Err(c.value))
      else Outcome(st.(nodes := st.nodes[p := File([], st.clock)]), Ok(Unit))
  }

  /** `fs::write(p, data)`: create or truncate, then write all of `data`. */
  function WriteFile(st: FsState, p: Path, data: seq<Byte>): (o: Outcome<Unit>)
    ensures o.res.Ok? ==> o.st == st.(nodes := st.nodes[p := File(data, st.clock)]) && p !in st.denied
    ensures o.res.Err? ==> o.st == st
  {
    var o := OpenCreate(st, p, true);
    if o.res.Err? then o else Outcome(st.(nodes := st.nodes[p := File(data, st.clock)]), Ok(Unit))
  }

  /** Writes through an open handle to the file at `p`: its bytes become `data`. */
  function SetData(st: FsState, p: Path, data: seq<Byte>): FsState
    requires p in st.nodes && st.nodes[p].File?
  {
    st.(nodes := st.nodes[p := File(data, st.clock)])
  }

  /** `File::set_times` with both times "now". */
  function SetTimes(st: FsState, p: Path, now: int): (o: Outcome<Unit>)
    ensures Metadata(st, p).Err? ==> o.res == Err(Metadata(st, p).error)
    ensures o.res.Ok? ==> p in st.nodes && Metadata(st, p).Ok?
    ensures o.res.Ok? && st.nodes[p].File? ==> o.st == st.(nodes := st.nodes[p := File(st.nodes[p].data, now)])
    ensures o.res.Ok? && !st.nodes[p].File? ==> o.st == st
    ensures p in st.nodes && p !in st.denied && st.nodes[p].File? ==> o.res.Ok?
    ensures o.res.Err? ==> o.st == st
  {
    match Metadata(st, p)
    case Err(e) => Outcome(st, Err(e))
    case Ok(File(d, _)) =>
      if st.nodes[p].File? then Outcome(st.(nodes := st.nodes[p := File(d, now)]), Ok(Unit))
      else Outcome(st, Err(OsError(Other)))
    case Ok(_) => Outcome(st, Ok(Unit))
  }

  /** `rename(src, dst)`: the file at `src` moves to `dst`, replacing what was there. */
  function Rename(st: FsState, src: Path, dst: Path): (o: Outcome<Unit>)
    ensures o.res.Ok? ==> src in st.nodes && st.nodes[src].File?
    ensures o.res.Ok? && src != dst ==>
      o.st == st.(nodes := (st.nodes - {src})[dst := st.nodes[src]])
    ensures o.res.Ok? && src == dst ==> o.st == st
    ensures o.res.Err? ==> o.st == st && o.res.error.kind != AlreadyExists
  {
    if src !in st.nodes || src in st.denied then Outcome(st, Err(OsError(NotFound)))
    else if !st.nodes[src].File? then Outcome(st, Err(OsError(Other)))
    else if src == dst then Outcome(st, Ok(Unit))
    else if dst in st.nodes && st.nodes[dst].Dir? then Outcome(st, Err(OsError(IsADirectory)))
    else
      var c := CreateCheck(st, dst);
      if c.Some? then Outcome(st, Err(c.value))
      else Outcome(st.(nodes := (st.nodes - {src})[dst := st.nodes[src]]), Ok(Unit))
  }

  /** A rename that refuses to replace (`link` then `unlink`): `AlreadyExists` when
    * anything is at `dst`, including `src` itself. */
  function RenameNoClobber(st: FsState, src: Path, dst: Path): (o: Outcome<Unit>)
    ensures o.res.Ok? ==> dst !in st.nodes && src != dst
    ensures o.res.Err? ==> o.st == st
  {
    if dst in st.nodes then Outcome(st, Err(OsError(AlreadyExists)))
    else Rename(st, src, dst)
  }

  /** `fs::remove_file`. */
  function RemoveFile(st: FsState, p: Path): (o: Outcome<Unit>)
    ensures o.res.Ok? ==> p in st.nodes && o.st == st.(nodes := st.nodes - {p})
    ensures o.res.Err? ==> o.st == st
  {
    if p in st.denied then Outcome(st, Err(OsError(PermissionDenied)))
    else if p !in st.nodes then Outcome(st, Err(OsError(NotFound)))
    else if st.nodes[p].Dir? then Outcome(st, Err(OsError(IsADirectory)))
    else Outcome(st.(nodes := st.nodes - {p}), Ok(Unit))
  }

  /** `p` and everything below it. */
  function Subtree(st: FsState, p: Path): set<Path>
  {
    set q | q in st.nodes && IsPrefix(p, q)
  }

  /** `fs::remove_dir_all`: the directory and everything below it. The removal is
    * refused as a whole when any entry in it is protected. */
  function RemoveDirAll(st: FsState, p: Path): (o: Outcome<Unit>)
    ensures o.res.Ok? ==> o.st == st.(nodes := st.nodes - Subtree(st, p))
    ensures o.res.Err? ==> o.st == st
  {
    if p in st.denied then Outcome(st, Err(OsError(PermissionDenied)))
    else if p !in st.nodes then Outcome(st, Err(OsError(NotFound)))
    else if !st.nodes[p].Dir? then Outcome(st, Err(OsError(NotADirectory)))
    else if exists q :: q in st.denied && IsPrefix(p, q) && q in st.nodes then
      Outcome(st, Err(OsError(PermissionDenied)))
    else Outcome(st.(nodes := st.nodes - Subtree(st, p)), Ok(Unit))
  }

  /** `fs::create_dir`. */
  function MkDir(st: FsState, p: Path): (o: Outcome<Unit>)
    ensures o.res.Ok? ==> p !in st.nodes && o.st == st.(nodes := st.nodes[p := Dir])
    ensures o.res.Err? ==> o.st == st
  {
    var c := CreateCheck(st, p);
    if c.Some? then Outcome(st, Err(c.value))
    else if p in st.nodes then Outcome(st, Err(OsError(AlreadyExists)))
    else Outcome(st.(nodes := st.nodes[p := Dir]), Ok(Unit))
  }

  /** `fs::create_dir_all`, as the standard library writes it: try `mkdir`; when the parent
    * is missing, create the parent first and try again; an entry that is already a
    * directory counts as success. */
  function CreateDirAll(st: FsState, p: Path): (o: Outcome<Unit>)
    ensures o.res.Ok? ==> IsDir(o.st, p) || p == []
    ensures forall q :: q in st.nodes ==> q in o.st.nodes && o.st.nodes[q] == st.nodes[q]
    ensures forall q :: q in o.st.nodes && q !in st.nodes ==> IsPrefix(q, p) && o.st.nodes[q] == Dir
    ensures o.st.denied == st.denied && o.st.clock == st.clock
    decreases |p|
  {
    if p == [] then Outcome(st, Ok(Unit))
    else
      var first := MkDir(st, p);
      if first.res.Ok? then first
      else if first.res.error.kind != NotFound then
        (if IsDir(st, p) then Outcome(st, Ok(Unit)) else first)
      else
        var up := CreateDirAll(st, p[..|p| - 1]);
        if up.res.Err? then up
        else
          var second := MkDir(up.st, p);
          if second.res.Ok? then second
          else if IsDir(up.st, p) then Outcome(up.st, Ok(Unit))
          else second
  }

  /** `fs::copy(src, dst)`: the bytes of `src` into `dst`, created or truncated. */
  function CopyFile(st: FsState, src: Path, dst: Path): (o: Outcome<nat>)
    ensures o.res.Ok? ==> IsFile(st, src) && o.st == st.(nodes := st.nodes[dst := File(ReadFile(st, src).value, st.clock)])
    ensures o.res.Err? ==> o.st == st
  {
    var r := ReadFile(st, src);
    if r.Err? then Outcome(st, Err(r.error))
    else
      var w := WriteFile(st, dst, r.value);
      if w.res.Err? then Outcome(st, Err(w.res.error)) else Outcome(w.st, Ok(|r.value|))
  }

  // ---------------------------------------------------------------- the tree invariant

  /** A well-formed tree: the base directory exists, every proper prefix of an entry is a
    * directory entry, no path is deeper than the limit. */
  predicate WellFormed(st: FsState)
  {
    && [] in st.nodes && st.nodes[[]].Dir?
    && (forall p, k :: p in st.nodes && 0 <= k < |p| ==> p[..k] in st.nodes && st.nodes[p[..k]].Dir?)
    && (forall p :: p in st.nodes ==> |p| <= MaxDepth)
  }

  /** Adding (or replacing a non-directory) entry `p` inside an existing directory keeps
    * the tree well formed. */
  lemma AddEntryWellFormed(st: FsState, p: Path, node: Node)
    requires WellFormed(st) && p != [] && |p| <= MaxDepth
    requires p[..|p| - 1] in st.nodes && st.nodes[p[..|p| - 1]].Dir?
    requires p in st.nodes ==> !st.nodes[p].Dir?
    ensures WellFormed(st.(nodes := st.nodes[p := node]))
  {
    var n := st.nodes[p := node];
    forall q, k | q in n && 0 <= k < |q| ensures q[..k] in n && n[q[..k]].Dir? {
      if q == p {
        var pp := p[..|p| - 1];
        if k < |pp| {
          assert p[..k] == pp[..k];
        }
      } else {
        assert q in st.nodes;
        assert q[..k] in st.nodes && st.nodes[q[..k]].Dir?;
      }
    }
  }

  /** Creating an entry keeps the tree well formed. */
  lemma CreateNewFileWellFormed(st: FsState, p: Path)
    requires WellFormed(st)
    ensures WellFormed(CreateNewFile(st, p).st)
  {
    if CreateNewFile(st, p).res.Ok? {
      AddEntryWellFormed(st, p, File([], st.clock));
    }
  }

  /** Making a directory keeps the tree well formed. */
  lemma MkDirWellFormed(st: FsState, p: Path)
    requires WellFormed(st)
    ensures WellFormed(MkDir(st, p).st)
  {
    if MkDir(st, p).res.Ok? {
      AddEntryWellFormed(st, p, Dir);
    }
  }

  /** `create_dir_all` keeps the tree well formed: each directory it adds has a directory
    * for a parent, because ancestors are made first. */
  lemma {:induction false} CreateDirAllWellFormed(st: FsState, p: Path)
    requires WellFormed(st)
    ensures WellFormed(CreateDirAll(st, p).st)
    decreases |p|
  {
    if p != [] {
      var first := MkDir(st, p);
      MkDirWellFormed(st, p);
      if first.res.Err? && first.res.error.kind == NotFound {
        var up := CreateDirAll(st, p[..|p| - 1]);
        CreateDirAllWellFormed(st, p[..|p| - 1]);
        if up.res.Ok? {
          MkDirWellFormed(up.st, p);
        }
      }
    }
  }

  /** Moving a file keeps the tree well formed. */
  lemma RenameWellFormed(st: FsState, src: Path, dst: Path)
    requires WellFormed(st)
    ensures WellFormed(Rename(st, src, dst).st)
  {
    var o := Rename(st, src, dst);
    if o.res.Ok? && src != dst {
      var n := o.st.nodes;
      assert src != [];
      forall q, k | q in n && 0 <= k < |q| ensures q[..k] in n && n[q[..k]].Dir? {
        if q == dst {
          var pq := q[..|q| - 1];
          if k < |pq| {
            assert q[..k] == pq[..k];
          }
          assert q[..k] != src;
        } else {
          assert q in st.nodes;
          assert q[..k] in st.nodes && st.nodes[q[..k]].Dir?;
        }
      }
    }
  }

  /** Removing an entry that is not a directory keeps the tree well formed. */
  lemma RemoveFileWellFormed(st: FsState, p: Path)
    requires WellFormed(st)
    ensures WellFormed(RemoveFile(st, p).st)
  {
    var o := RemoveFile(st, p);
    if o.res.Ok? {
      var n := o.st.nodes;
      forall q, k | q in n && 0 <= k < |q| ensures q[..k] in n && n[q[..k]].Dir? {
        assert q in st.nodes && q[..k] in st.nodes && st.nodes[q[..k]].Dir?;
      }
    }
  }

  /** Removing a directory with everything below it keeps the tree well formed. */
  lemma RemoveDirAllWellFormed(st: FsState, p: Path)
    requires WellFormed(st)
    requires p != []
    ensures WellFormed(RemoveDirAll(st, p).st)
  {
    var o := RemoveDirAll(st, p);
    if o.res.Ok? {
      var n := o.st.nodes;
      forall q, k | q in n && 0 <= k < |q| ensures q[..k] in n && n[q[..k]].Dir? {
        assert q in st.nodes && !IsPrefix(p, q);
        assert q[..k] in st.nodes;
      }
    }
  }

  /** The imperative handle: the library's calls change the state held here. */
  class FileSystem {
    var st: FsState

    constructor (init: FsState)
      ensures st == init
    {
      st := init;
    }

    /** Performs one call: the state becomes the call's new state and its result is returned. */
    method Call<T>(call: FsState -> Outcome<T>) returns (r: Result<T>)
      modifies this
      ensures st == call(old(st)).st && r == call(old(st)).res
    {
      var o := call(st);
      st := o.st;
      r := o.res;
    }
  }
}
