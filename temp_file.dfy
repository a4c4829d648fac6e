/** Named temporary files used for staging writes: created under a random hidden name in
  * a chosen directory, filled through a handle, and either moved into place (persisted),
  * kept, or deleted when dropped. */
module TempFiles {
  import opened Io
  import opened Text
  import opened Fs
  import opened IoResultExt

  /** The hidden staging name `in_dir` asks for: prefix ".", the random part, suffix ".tmp".
    * The random part is a parameter of the model. */
  function StagingName(nonce: string): (n: Name)
    ensures |n| == |nonce| + 5 && n[0] == '.' && n[|n| - 4..] == ".tmp"
  {
    "." + nonce + ".tmp"
  }

  /** What a write through an open handle does to the file: `bytes` replace the content
    * from `cursor` on; a gap past the old end is filled with zero bytes. */
  function WriteAt(content: seq<Byte>, cursor: nat, bytes: seq<Byte>): (r: seq<Byte>)
    ensures |r| == if cursor + |bytes| > |content| then cursor + |bytes| else |content|
    ensures r[cursor..cursor + |bytes|] == bytes
    ensures forall i :: 0 <= i < cursor && i < |content| ==> r[i] == content[i]
    ensures forall i :: cursor <= i - |bytes| && cursor + |bytes| <= i < |content| ==> r[i] == content[i]
  {
    var head := if cursor <= |content| then content[..cursor] else content + seq(cursor - |content|, _ => 0);
    var tail := if cursor + |bytes| <= |content| then content[cursor + |bytes|..] else [];
    head + bytes + tail
  }

  /** Writing at the end appends. */
  lemma WriteAtEndAppends(content: seq<Byte>, bytes: seq<Byte>)
    ensures WriteAt(content, |content|, bytes) == content + bytes
  {
  }

  /** Writing at the start of a longer file leaves the old tail in place: a handle that
    * is not truncated first does not replace the content. */
  lemma WriteAtStartKeepsTail(content: seq<Byte>, bytes: seq<Byte>)
    requires |bytes| < |content|
    ensures WriteAt(content, 0, bytes) == bytes + content[|bytes|..]
    ensures WriteAt(content, 0, bytes) != bytes
  {
    assert |WriteAt(content, 0, bytes)| == |content|;
  }

  /** What the caller's closure does with the staged file: given its content and the
    * handle's position, the new content, the new position, and the closure's result. */
  datatype WriterStep<V> = WriterStep(data: seq<Byte>, cursor: nat, outcome: Result<V>)

  type Writer<V> = (seq<Byte>, nat) -> WriterStep<V>

  // ---------------------------------------------------------------- specifications of the calls

  /** `TempFile::in_dir`: a new empty file under the staging name in `dir`. */
  function InDirSpec(st: FsState, dir: Path, nonce: string): (o: Outcome<Path>)
    ensures o.res.Ok? ==> o.res.value == dir + [StagingName(nonce)]
    ensures o.res.Ok? ==> o.res.value !in st.nodes && o.res.value !in st.denied
    ensures o.res.Ok? ==> o.st == st.(nodes := st.nodes[o.res.value := File([], st.clock)])
    ensures o.res.Err? ==> o.st == st
    ensures o.res.Err? <==> CreateNewFile(st, dir + [StagingName(nonce)]).res.Err?
    ensures o.res.Err? ==> o.res.error.kind == CreateNewFile(st, dir + [StagingName(nonce)]).res.error.kind
  {
    var p := dir + [StagingName(nonce)];
    var c := CreateNewFile(st, p);
    if c.res.Err? then Outcome(st, Err(Ctx(c.res.error, "failed to create tempfile in", dir)))
    else Outcome(c.st, Ok(p))
  }

  /** `TempFile::new`: a staged file in the system's temporary directory `tmpRoot`, under
    * the library's default name (prefix ".tmp", no suffix); failures carry no context. */
  function NewSpec(st: FsState, tmpRoot: Path, nonce: string): (o: Outcome<Path>)
    ensures o.res.Ok? ==> o.res.value == tmpRoot + [".tmp" + nonce]
    ensures o.res.Ok? ==> o.res.value !in st.nodes && o.res.value !in st.denied
    ensures o.res.Ok? ==> o.st == st.(nodes := st.nodes[o.res.value := File([], st.clock)])
    ensures o.res.Err? <==> CreateNewFile(st, tmpRoot + [".tmp" + nonce]).res.Err?
    ensures o.res.Err? ==> o.st == st && o.res.error == CreateNewFile(st, tmpRoot + [".tmp" + nonce]).res.error
  {
    var p := tmpRoot + [".tmp" + nonce];
    var c := CreateNewFile(st, p);
    if c.res.Err? then Outcome(st, Err(c.res.error)) else Outcome(c.st, Ok(p))
  }

  /** `copy_from`: open the source, truncate the staged file, copy the source's bytes in.
    * Opening fails as reading metadata does; a directory opens but cannot be read. */
  function CopyFromSpec(st: FsState, tmp: Path, src: Path): (o: Outcome<Unit>)
    requires tmp in st.nodes && st.nodes[tmp].File?
    ensures tmp in o.st.nodes && o.st.nodes[tmp].File?
    ensures o.st.nodes.Keys == st.nodes.Keys && o.st.denied == st.denied && o.st.clock == st.clock
    ensures forall q :: q in st.nodes && q != tmp ==> o.st.nodes[q] == st.nodes[q]
    ensures o.res.Ok? <==> IsFile(SetData(st, tmp, []), src)
    ensures Metadata(st, src).Err? ==> o.st == st && o.res.error.kind == Metadata(st, src).error.kind
    ensures o.res.Ok? ==> o.st.nodes[tmp].data == ReadFile(SetData(st, tmp, []), src).value
  {
    match Metadata(st, src)
    case Err(e) => Outcome(st, Err(Ctx(e, "failed to open source for copy", src)))
    case Ok(_) =>
      var truncated := SetData(st, tmp, []);
      match ReadFile(truncated, src)
      case Ok(data) => Outcome(SetData(truncated, tmp, data), Ok(Unit))
      case Err(e) => Outcome(truncated, Err(Ctx2(e, "failed to copy", src, tmp)))
  }

  /** When the source is a file other than the staged one, the staged file receives
    * exactly the source's bytes. */
  lemma CopyFromCopiesSource(st: FsState, tmp: Path, src: Path)
    requires tmp in st.nodes && st.nodes[tmp].File?
    requires src != tmp && IsFile(st, src) && st.nodes[src] != Symlink(tmp)
    ensures CopyFromSpec(st, tmp, src).res.Ok?
    ensures CopyFromSpec(st, tmp, src).st == st.(nodes := st.nodes[tmp := File(ReadFile(st, src).value, st.clock)])
  {
    var truncated := SetData(st, tmp, []);
    assert Metadata(truncated, src) == Metadata(st, src);
  }

  /** `persist`: rename the staged file onto `dst`, replacing what is there. On failure
    * the staged file is dropped, which deletes it. */
  function PersistSpec(st: FsState, tmp: Path, dst: Path): (o: Outcome<Unit>)
    requires tmp in st.nodes && st.nodes[tmp].File? && tmp !in st.denied
    ensures o.res.Ok? && tmp != dst ==> o.st == st.(nodes := (st.nodes - {tmp})[dst := st.nodes[tmp]])
    ensures o.res.Ok? && tmp == dst ==> o.st == st
    ensures o.res.Err? ==> o.st == st.(nodes := st.nodes - {tmp})
    ensures o.res.Err? <==> Rename(st, tmp, dst).res.Err?
    ensures o.res.Err? ==> o.res.error.kind == Rename(st, tmp, dst).res.error.kind
  {
    var r := Rename(st, tmp, dst);
    if r.res.Ok? then r
    else Outcome(RemoveFile(st, tmp).st, Err(Ctx2(r.res.error, "failed to persist tempfile", tmp, dst)))
  }

  /** `persist_new`: as `persist`, but an existing `dst` is never replaced. */
  function PersistNewSpec(st: FsState, tmp: Path, dst: Path): (o: Outcome<Unit>)
    requires tmp in st.nodes && st.nodes[tmp].File? && tmp !in st.denied
    ensures o.res.Ok? ==> dst !in st.nodes && o.st == st.(nodes := (st.nodes - {tmp})[dst := st.nodes[tmp]])
    ensures o.res.Err? ==> o.st == st.(nodes := st.nodes - {tmp})
    ensures dst in st.nodes ==> o.res.Err? && o.res.error.kind == AlreadyExists
  {
    var r := RenameNoClobber(st, tmp, dst);
    if r.res.Ok? then r
    else Outcome(RemoveFile(st, tmp).st, Err(Ctx2(r.res.error, "failed to persist tempfile (noclobber)", tmp, dst)))
  }

  /** Dropping the handle deletes the staged file. */
  function DropSpec(st: FsState, tmp: Path): (s: FsState)
    requires tmp in st.nodes && tmp !in st.denied && !st.nodes[tmp].Dir?
    ensures s == st.(nodes := st.nodes - {tmp})
  {
    RemoveFile(st, tmp).st
  }

  /** A staged file that is created and then dropped leaves no trace. */
  lemma InDirThenDropRestores(st: FsState, dir: Path, nonce: string)
    requires InDirSpec(st, dir, nonce).res.Ok?
    ensures DropSpec(InDirSpec(st, dir, nonce).st, InDirSpec(st, dir, nonce).res.value) == st
  {
    var o := InDirSpec(st, dir, nonce);
    assert o.st.nodes - {o.res.value} == st.nodes;
  }

  // ---------------------------------------------------------------- the handle

  /** A staged file and the handle open on it. `consumed` becomes true once it has been persisted,
    * kept or dropped. */
  class TempFile {
    const fs: FileSystem
    const path: Path
    var cursor: nat
    var consumed: bool

    ghost predicate Valid()
      reads this, fs
    {
      !consumed ==> path in fs.st.nodes && fs.st.nodes[path].File? && path !in fs.st.denied
    }

    constructor (fs: FileSystem, path: Path)
      ensures this.fs == fs && this.path == path && cursor == 0 && !consumed
    {
      this.fs := fs;
      this.path := path;
      cursor := 0;
      consumed := false;
    }

    /** The staged bytes. */
    function Contents(): seq<Byte>
      reads this, fs
      requires !consumed && Valid()
    {
      fs.st.nodes[path].data
    }

    /** `TempFile::in_dir`. */
    static method InDir(fs: FileSystem, dir: Path, nonce: string) returns (r: Result<TempFile>)
      modifies fs
      ensures fs.st == InDirSpec(old(fs.st), dir, nonce).st
      ensures r.Err? ==> InDirSpec(old(fs.st), dir, nonce).res == Err(r.error)
      ensures r.Ok? ==> InDirSpec(old(fs.st), dir, nonce).res == Ok(r.value.path)
      ensures r.Ok? ==> fresh(r.value) && r.value.fs == fs && !r.value.consumed && r.value.cursor == 0
      ensures r.Ok? ==> r.value.Valid() && r.value.Contents() == []
    {
      var res := fs.Call((s: FsState) => InDirSpec(s, dir, nonce));
      if res.Err? {
        return Err(res.error);
      }
      var t := new TempFile(fs, res.value);
      return Ok(t);
    }

    /** `TempFile::new`. */
    static method New(fs: FileSystem, tmpRoot: Path, nonce: string) returns (r: Result<TempFile>)
      modifies fs
      ensures fs.st == NewSpec(old(fs.st), tmpRoot, nonce).st
      ensures r.Err? ==> NewSpec(old(fs.st), tmpRoot, nonce).res == Err(r.error)
      ensures r.Ok? ==> NewSpec(old(fs.st), tmpRoot, nonce).res == Ok(r.value.path)
      ensures r.Ok? ==> fresh(r.value) && r.value.fs == fs && !r.value.consumed && r.value.cursor == 0
      ensures r.Ok? ==> r.value.Valid() && r.value.Contents() == []
    {
      var res := fs.Call((s: FsState) => NewSpec(s, tmpRoot, nonce));
      if res.Err? {
        return Err(res.error);
      }
      var t := new TempFile(fs, res.value);
      return Ok(t);
    }

    /** `copy_from`: on success the handle is positioned after the copied bytes. */
    method CopyFrom(src: Path) returns (r: Result<Unit>)
      requires !consumed && Valid()
      modifies this, fs
      ensures !consumed && Valid()
      ensures fs.st == CopyFromSpec(old(fs.st), path, src).st
      ensures r == CopyFromSpec(old(fs.st), path, src).res
      ensures r.Ok? ==> cursor == |Contents()|
    {
      r := fs.Call((s: FsState) => if path in s.nodes && s.nodes[path].File? then CopyFromSpec(s, path, src) else Outcome(s, Err(OsError(Other))));
      if r.Ok? {
        cursor := |fs.st.nodes[path].data|;
      } else {
        cursor := 0;
      }
    }

    /** Hands the open file to the caller's closure. */
    method Write<V>(w: Writer<V>) returns (out: Result<V>)
      requires !consumed && Valid()
      modifies this, fs
      ensures !consumed && Valid()
      ensures fs.st == SetData(old(fs.st), path, w(old(Contents()), old(cursor)).data)
      ensures cursor == w(old(Contents()), old(cursor)).cursor
      ensures out == w(old(Contents()), old(cursor)).outcome
    {
      var step := w(Contents(), cursor);
      fs.st := SetData(fs.st, path, step.data);
      cursor := step.cursor;
      out := step.outcome;
    }

    /** `persist`. */
    method Persist(dst: Path) returns (r: Result<Unit>)
      requires !consumed && Valid()
      modifies this, fs
      ensures consumed
      ensures fs.st == PersistSpec(old(fs.st), path, dst).st
      ensures r == PersistSpec(old(fs.st), path, dst).res
    {
      r := fs.Call((s: FsState) => if path in s.nodes && s.nodes[path].File? && path !in s.denied then PersistSpec(s, path, dst) else Outcome(s, Err(OsError(Other))));
      consumed := true;
    }

    /** `persist_new`. */
    method PersistNew(dst: Path) returns (r: Result<Unit>)
      requires !consumed && Valid()
      modifies this, fs
      ensures consumed
      ensures fs.st == PersistNewSpec(old(fs.st), path, dst).st
      ensures r == PersistNewSpec(old(fs.st), path, dst).res
    {
      r := fs.Call((s: FsState) => if path in s.nodes && s.nodes[path].File? && path !in s.denied then PersistNewSpec(s, path, dst) else Outcome(s, Err(OsError(Other))));
      consumed := true;
    }

    /** `keep`: the file stays where it is and is no longer deleted. */
    method Keep() returns (p: Path)
      requires !consumed
      modifies this
      ensures consumed && p == path
    {
      consumed := true;
      p := path;
    }

    /** Dropping the handle. */
    method Drop()
      requires !consumed && Valid()
      modifies this, fs
      ensures consumed
      ensures fs.st == DropSpec(old(fs.st), path)
    {
      fs.st := DropSpec(fs.st, path);
      consumed := true;
    }
  }
}
