/** Path helpers: Rust's parent / file-name / stem / extension conventions, the
  * `parent_or_current` and `utf8_stem` helpers, and the strict directory and file
  * probes with their assertions. */
module PathExt {
  import opened Io
  import Fs
  import opened IoResultExt

  /** One element of Rust's `Path::components()`. */
  datatype Component = RootDir | CurDir | ParentDir | Normal(name: string)

  /** A path as Rust sees it: "" is `[]`, "." is `[CurDir]`, "/" is `[RootDir]`,
    * "a/b.txt" is `[Normal("a"), Normal("b.txt")]`. */
  type RustPath = seq<Component>

  /** `Path::parent()`: drop the last component; the empty path and the root have none. */
  function Parent(p: RustPath): (r: Option<RustPath>)
    ensures r.Some? ==> |r.value| + 1 == |p| && r.value == p[..|p| - 1]
    ensures r.None? <==> p == [] || p[|p| - 1] == RootDir
  {
    if p == [] || p[|p| - 1] == RootDir then None else Some(p[..|p| - 1])
  }

  /** `Path::file_name()`: the last component when it is a normal name. */
  function FileName(p: RustPath): Option<string>
  {
    if p != [] && p[|p| - 1].Normal? then Some(p[|p| - 1].name) else None
  }

  /** The position of the last '.' in `s`. */
  function LastDot(s: string): (r: Option<nat>)
    ensures r.Some? ==> r.value < |s| && s[r.value] == '.'
    ensures r.Some? ==> forall j :: r.value < j < |s| ==> s[j] != '.'
    ensures r.None? ==> forall j :: 0 <= j < |s| ==> s[j] != '.'
  {
    if s == [] then None
    else if s[|s| - 1] == '.' then Some(|s| - 1)
    else LastDot(s[..|s| - 1])
  }

  /** A file name split into stem and extension. */
  datatype Split = Split(stem: string, ext: Option<string>)

  /** Rust's split of a file name at its last dot (`file_stem` and `extension`): the
    * extension is what follows the last dot, unless that dot is the first character
    * (".bashrc" has none) or the name is "..". */
  function SplitName(name: string): (r: Split)
    ensures r.ext.None? ==> r.stem == name
    ensures r.ext.Some? ==> name == r.stem + "." + r.ext.value
    ensures r.ext.Some? ==> r.stem != [] && forall j :: 0 <= j < |r.ext.value| ==> r.ext.value[j] != '.'
  {
    if name == ".." then Split(name, None)
    else match LastDot(name)
      case None => Split(name, None)
      case Some(i) =>
        if i == 0 then Split(name, None)
        else
          assert name == name[..i] + "." + name[i + 1..];
          Split(name[..i], Some(name[i + 1..]))
  }

  /** `Path::file_stem()`. */
  function FileStem(p: RustPath): Option<string>
  {
    match FileName(p)
    case None => None
    case Some(n) => Some(SplitName(n).stem)
  }

  /** `Path::extension()`. */
  function Extension(p: RustPath): Option<string>
  {
    match FileName(p)
    case None => None
    case Some(n) => SplitName(n).ext
  }

  /** The extension of a filesystem path's last name. */
  function FsExtension(p: Fs.Path): Option<string>
  {
    if p == [] then None else SplitName(p[|p| - 1]).ext
  }

  /** `parent_or_current`: the parent when it is not empty, otherwise ".". */
  function ParentOrCurrent(p: RustPath): (r: RustPath)
    ensures r != []
    ensures Parent(p).Some? && Parent(p).value != [] ==> r == Parent(p).value
    ensures Parent(p).None? || Parent(p).value == [] ==> r == [CurDir]
  {
    match Parent(p)
    case Some(q) => if q != [] then q else [CurDir]
    case None => [CurDir]
  }

  /** The tests' four cases: "a/b/c.txt" gives "a/b"; "file.txt", "" and "." give ".". */
  lemma ParentOrCurrentExamples()
    ensures ParentOrCurrent([Normal("a"), Normal("b"), Normal("c.txt")]) == [Normal("a"), Normal("b")]
    ensures ParentOrCurrent([Normal("file.txt")]) == [CurDir]
    ensures ParentOrCurrent([]) == [CurDir]
    ensures ParentOrCurrent([CurDir]) == [CurDir]
  {
  }

  /** A filesystem path as Rust components. */
  function ToRust(p: Fs.Path): (r: RustPath)
    ensures |r| == |p| && forall i :: 0 <= i < |p| ==> r[i] == Normal(p[i])
  {
    if p == [] then [] else ToRust(p[..|p| - 1]) + [Normal(p[|p| - 1])]
  }

  /** The directory the filesystem-level operations stage in (`[]` is ".").
    * For a path of two or more names it is the Rust parent; otherwise the current directory. */
  function FsParentOrCurrent(p: Fs.Path): Fs.Path
  {
    if p == [] then [] else p[..|p| - 1]
  }

  lemma {:induction false} FsParentOrCurrentAgrees(p: Fs.Path)
    ensures |p| >= 2 ==> ParentOrCurrent(ToRust(p)) == ToRust(FsParentOrCurrent(p))
    ensures |p| < 2 ==> ParentOrCurrent(ToRust(p)) == [CurDir] && FsParentOrCurrent(p) == []
  {
    if |p| >= 1 {
      var r := ToRust(p);
      assert r[..|r| - 1] == ToRust(p[..|p| - 1]);
    }
  }

  /** `utf8_stem`: the stem of the last component, or `InvalidData` when there is none. */
  function Utf8Stem(p: RustPath): (r: Result<string>)
    ensures r.Ok? <==> FileName(p).Some?
    ensures r.Err? ==> r.error.kind == InvalidData
    ensures r.Ok? && Extension(p).Some? ==> FileName(p).value == r.value + "." + Extension(p).value
    ensures r.Ok? && Extension(p).None? ==> r.value == FileName(p).value
  {
    match FileStem(p)
    case Some(s) => Ok(s)
    case None => Err(IoError(InvalidData, "no UTF-8 file stem"))
  }

  /** The tests' stems: "foo.txt" gives "foo", and "archive.tar.gz" loses only ".gz". */
  lemma Utf8StemExtensions()
    ensures Utf8Stem([Normal("foo.txt")]) == Ok("foo")
    ensures Utf8Stem([Normal("archive.tar.gz")]) == Ok("archive.tar")
  {
    var a, c := "foo.txt", "archive.tar.gz";
    assert a[3] == '.' && a[4] == 't' && a[5] == 'x' && a[6] == 't';
    assert LastDot(a) == Some(3);
    assert a[..3] == "foo";
    assert c[11] == '.' && c[12] == 'g' && c[13] == 'z';
    assert LastDot(c) == Some(11);
    assert c[..11] == "archive.tar";
  }

  /** The tests' stems: ".bashrc" keeps its dot, "foo" has no extension, "name." loses
    * its empty extension, and "/" has no stem at all. */
  lemma Utf8StemDots()
    ensures Utf8Stem([RootDir]).Err? && Utf8Stem([RootDir]).error.kind == InvalidData
    ensures Utf8Stem([Normal(".bashrc")]) == Ok(".bashrc")
    ensures Utf8Stem([Normal("foo")]) == Ok("foo")
    ensures Utf8Stem([Normal("name.")]) == Ok("name")
  {
    var b, d := ".bashrc", "foo";
    assert b[0] == '.' && b[1] == 'b' && b[2] == 'a' && b[3] == 's' && b[4] == 'h' && b[5] == 'r' && b[6] == 'c';
    assert LastDot(b) == Some(0);
    assert d[0] == 'f' && d[1] == 'o' && d[2] == 'o';
    assert LastDot(d) == None;
    assert LastDot("name.") == Some(4);
    assert "name."[..4] == "name";
  }

  // ---------------------------------------------------------------- strict probes

  /** What `kind` reports. */
  datatype PathKind = DirKind | FileKind | SymLinkKind | OtherKind

  /** `is_dir_strict`: whether metadata says directory; a metadata failure keeps its kind
    * and names the path. */
  function IsDirStrict(st: Fs.FsState, p: Fs.Path): (r: Result<bool>)
    ensures r.Ok? <==> Fs.Metadata(st, p).Ok?
    ensures r.Ok? ==> (r.value <==> Fs.IsDir(st, p))
    ensures r.Err? ==> r.error.kind == Fs.Metadata(st, p).error.kind
  {
    match Fs.Metadata(st, p)
    case Err(e) => Err(Ctx(e, "could not read metadata", p))
    case Ok(n) => Ok(n.Dir?)
  }

  /** `is_file_strict`. */
  function IsFileStrict(st: Fs.FsState, p: Fs.Path): (r: Result<bool>)
    ensures r.Ok? <==> Fs.Metadata(st, p).Ok?
    ensures r.Ok? ==> (r.value <==> Fs.IsFile(st, p))
    ensures r.Err? ==> r.error.kind == Fs.Metadata(st, p).error.kind
  {
    match Fs.Metadata(st, p)
    case Err(e) => Err(Ctx(e, "could not read metadata", p))
    case Ok(n) => Ok(n.File?)
  }

  /** `assert_dir`: succeeds exactly for a directory; anything else that exists is
    * `InvalidInput`; a metadata failure keeps its kind. */
  function AssertDir(st: Fs.FsState, p: Fs.Path): (r: Result<Unit>)
    ensures r.Ok? <==> Fs.IsDir(st, p)
    ensures Fs.Metadata(st, p).Ok? && r.Err? ==> r.error.kind == InvalidInput
    ensures Fs.Metadata(st, p).Err? ==> r.Err? && r.error.kind == Fs.Metadata(st, p).error.kind
  {
    match IsDirStrict(st, p)
    case Err(e) => Err(e)
    case Ok(b) =>
      if b then Ok(Unit)
      else Err(IoError(InvalidInput, "Path '" + Fs.Display(p) + "' is not a directory"))
  }

  /** `assert_file`: succeeds exactly for a regular file. */
  function AssertFile(st: Fs.FsState, p: Fs.Path): (r: Result<Unit>)
    ensures r.Ok? <==> Fs.IsFile(st, p)
    ensures Fs.Metadata(st, p).Ok? && r.Err? ==> r.error.kind == InvalidInput
    ensures Fs.Metadata(st, p).Err? ==> r.Err? && r.error.kind == Fs.Metadata(st, p).error.kind
  {
    match IsFileStrict(st, p)
    case Err(e) => Err(e)
    case Ok(b) =>
      if b then Ok(Unit)
      else Err(IoError(InvalidInput, "Path '" + Fs.Display(p) + "' is not a file"))
  }

  /** `kind` as written: it classifies `fs::metadata`, which has already followed a
    * symbolic link, so the symbolic-link test comes too late. */
  function Kind(st: Fs.FsState, p: Fs.Path): (r: Result<PathKind>)
    ensures r.Err? <==> Fs.Metadata(st, p).Err?
    ensures r.Ok? ==> (r.value == DirKind <==> Fs.IsDir(st, p))
    ensures r.Ok? ==> (r.value == FileKind <==> Fs.IsFile(st, p))
  {
    match Fs.Metadata(st, p)
    case Err(e) => Err(e)
    case Ok(n) =>
      Ok(if n.Dir? then DirKind else if n.File? then FileKind else if n.Symlink? then SymLinkKind else OtherKind)
  }

  /** The discrepancy: a symbolic link to a file is reported as a file, and `kind`
    * never reports `SymLink` at all. */
  lemma KindNeverReportsSymLink(st: Fs.FsState, p: Fs.Path, target: Fs.Path)
    requires p in st.nodes && p !in st.denied && st.nodes[p] == Fs.Symlink(target)
    requires target in st.nodes && target !in st.denied && st.nodes[target].File?
    ensures Kind(st, p) == Ok(FileKind)
    ensures forall q :: Kind(st, q) != Ok(SymLinkKind)
  {
  }

  /** `kind` reading `fs::symlink_metadata`, so that the link itself is classified. */
  function KindOfEntry(st: Fs.FsState, p: Fs.Path): (r: Result<PathKind>)
    ensures r.Err? <==> Fs.SymlinkMetadata(st, p).Err?
    ensures r.Ok? ==> (r.value == SymLinkKind <==> st.nodes[p].Symlink?)
    ensures r.Ok? ==> (r.value == DirKind <==> st.nodes[p].Dir?)
    ensures r.Ok? ==> (r.value == FileKind <==> st.nodes[p].File?)
  {
    match Fs.SymlinkMetadata(st, p)
    case Err(e) => Err(e)
    case Ok(n) =>
      Ok(if n.Dir? then DirKind else if n.File? then FileKind else if n.Symlink? then SymLinkKind else OtherKind)
  }

  /** With `symlink_metadata` a link is reported as a link, and everything that is not a
    * link is classified as before. */
  lemma KindOfEntryDetectsSymLink(st: Fs.FsState, p: Fs.Path)
    requires p in st.nodes && p !in st.denied
    ensures st.nodes[p].Symlink? ==> KindOfEntry(st, p) == Ok(SymLinkKind)
    ensures !st.nodes[p].Symlink? ==> KindOfEntry(st, p) == Kind(st, p)
  {
  }
}
