/** Atomic whole-file writes: the caller's closure fills a hidden staged file next to the
  * target, which then replaces the target in one rename. A failure at any step deletes
  * the staged file, so the target is either the complete new content or untouched. */
module Atomic {
  import opened Io
  import opened Text
  import opened Fs
  import opened IoResultExt
  import opened TempFiles
  import PathExt

  /** `create_new` refuses an existing target; `overwrite` starts from an empty staged
    * file; `update` starts from a copy of the target. */
  datatype Mode = CreateNew | Overwrite | Update

  /** Where the staged file goes: the target's parent, failing when it has none, or the
    * parent with the current directory standing in for an empty one. */
  datatype ParentRule = RequireParent | ParentOrCurrent

  /** How a closure's error becomes an I/O error: wrapped as kind `Other` with its message
    * kept, or converted keeping its kind. */
  datatype ErrorMapping = ForceOther | KeepKind

  function StagingDir(p: Path, rule: ParentRule): (r: Option<Path>)
    ensures r.None? <==> rule == RequireParent && p == []
    ensures r.Some? && p != [] ==> r.value == p[..|p| - 1]
    ensures r.Some? && p == [] ==> r.value == []
  {
    match rule
    case RequireParent => Fs.Parent(p)
    case ParentOrCurrent => Some(PathExt.FsParentOrCurrent(p))
  }

  function MapWriterError(e: IoError, mapping: ErrorMapping): (r: IoError)
    ensures r.msg == e.msg
    ensures mapping == ForceOther ==> r.kind == Other
    ensures mapping == KeepKind ==> r == e
  {
    match mapping
    case ForceOther => IoError(Other, e.msg)
    case KeepKind => e
  }

  /** What the closure is handed: the staged content and the handle's position. */
  function Seed(staged: seq<Byte>, mode: Mode): (seq<Byte>, nat)
  {
    (staged, if mode == Update then |staged| else 0)
  }

  /** One atomic write of `p`, step by step: stage, copy the target in (`update`), run the
    * closure, persist. Every failure leaves the filesystem exactly as it was. */
  function AtomicSpec<V>(st: FsState, p: Path, mode: Mode, rule: ParentRule, mapping: ErrorMapping,
                         w: Writer<V>, nonce: string): (o: Outcome<V>)
    ensures o.res.Err? ==> o.st == st
  {
    match StagingDir(p, rule)
    case None => Outcome(st, Err(IoError(InvalidInput, "'" + Display(p) + "' has no parent")))
    case Some(dir) =>
      var t := InDirSpec(st, dir, nonce);
      if t.res.Err? then Outcome(st, Err(t.res.error))
      else
        var tmp := t.res.value;
        var c := if mode == Update then CopyFromSpec(t.st, tmp, p) else Outcome(t.st, Ok(Unit));
        if c.res.Err? then
          assert c.st.nodes - {tmp} == st.nodes;
          Outcome(DropSpec(c.st, tmp), Err(c.res.error))
        else
          var staged := c.st.nodes[tmp].data;
          var seed := Seed(staged, mode);
          var step := w(seed.0, seed.1);
          var s2 := SetData(c.st, tmp, step.data);
          assert s2.nodes - {tmp} == st.nodes;
          if step.outcome.Err? then Outcome(DropSpec(s2, tmp), Err(MapWriterError(step.outcome.error, mapping)))
          else
            var pr := if mode == CreateNew then PersistNewSpec(s2, tmp, p) else PersistSpec(s2, tmp, p);
            if pr.res.Err? then Outcome(pr.st, Err(pr.res.error))
            else Outcome(pr.st, Ok(step.outcome.value))
  }

  /** Where the staged file of a write of `p` is made. */
  function StagedPath(p: Path, rule: ParentRule, nonce: string): Option<Path>
  {
    match StagingDir(p, rule)
    case None => None
    case Some(dir) => Some(dir + [StagingName(nonce)])
  }

  /** Every symbolic link points at an existing entry. */
  predicate LinksResolve(st: FsState)
  {
    forall q :: q in st.nodes && st.nodes[q].Symlink? ==> st.nodes[q].target in st.nodes
  }

  /** `create_new` and `overwrite`: on success the target holds exactly what the closure
    * wrote into an empty file, nothing else changed, and the closure's value is returned. */
  lemma FreshWriteResult<V>(st: FsState, p: Path, mode: Mode, rule: ParentRule, mapping: ErrorMapping,
                            w: Writer<V>, nonce: string)
    requires mode != Update
    requires AtomicSpec(st, p, mode, rule, mapping, w, nonce).res.Ok?
    ensures AtomicSpec(st, p, mode, rule, mapping, w, nonce).st ==
      st.(nodes := st.nodes[p := File(w([], 0).data, st.clock)])
    ensures AtomicSpec(st, p, mode, rule, mapping, w, nonce).res == w([], 0).outcome
  {
    var dir := StagingDir(p, rule).value;
    var t := InDirSpec(st, dir, nonce);
    var tmp := t.res.value;
    var s2 := SetData(t.st, tmp, w([], 0).data);
    if tmp != p {
      assert (s2.nodes - {tmp})[p := s2.nodes[tmp]] == st.nodes[p := File(w([], 0).data, st.clock)];
    }
  }

  /** `update`: on success the target held a regular file, and now holds what the closure
    * made of its bytes, handed over with the position at their end. */
  lemma UpdateResult<V>(st: FsState, p: Path, rule: ParentRule, mapping: ErrorMapping,
                        w: Writer<V>, nonce: string)
    requires LinksResolve(st)
    requires StagedPath(p, rule, nonce) != Some(p)
    requires AtomicSpec(st, p, Update, rule, mapping, w, nonce).res.Ok?
    ensures IsFile(st, p)
    ensures var d := ReadFile(st, p).value;
      AtomicSpec(st, p, Update, rule, mapping, w, nonce).st ==
        st.(nodes := st.nodes[p := File(w(d, |d|).data, st.clock)]) &&
      AtomicSpec(st, p, Update, rule, mapping, w, nonce).res == w(d, |d|).outcome
  {
    var dir := StagingDir(p, rule).value;
    var t := InDirSpec(st, dir, nonce);
    var tmp := t.res.value;
    var truncated := SetData(t.st, tmp, []);
    assert truncated == t.st;
    MetadataUnaffected(st, tmp, p);
    var d := ReadFile(st, p).value;
    var s2 := SetData(t.st, tmp, w(d, |d|).data);
    assert (s2.nodes - {tmp})[p := s2.nodes[tmp]] == st.nodes[p := File(w(d, |d|).data, st.clock)];
  }

  /** Adding an entry under a fresh name does not change what another path resolves to,
    * as long as no link was waiting for that name. */
  lemma MetadataUnaffected(st: FsState, tmp: Path, p: Path)
    requires LinksResolve(st) && tmp !in st.nodes && p != tmp
    ensures Metadata(st.(nodes := st.nodes[tmp := File([], st.clock)]), p) == Metadata(st, p)
  {
  }

  /** `update` of a path whose metadata cannot be read fails with that error's kind,
    * once the staged file could be made. */
  lemma UpdateMissingFails<V>(st: FsState, p: Path, rule: ParentRule, mapping: ErrorMapping,
                              w: Writer<V>, nonce: string)
    requires LinksResolve(st)
    requires StagedPath(p, rule, nonce).Some? && StagedPath(p, rule, nonce) != Some(p)
    requires CreateNewFile(st, StagedPath(p, rule, nonce).value).res.Ok?
    requires Metadata(st, p).Err?
    ensures AtomicSpec(st, p, Update, rule, mapping, w, nonce).res.Err?
    ensures AtomicSpec(st, p, Update, rule, mapping, w, nonce).res.error.kind == Metadata(st, p).error.kind
  {
    var dir := StagingDir(p, rule).value;
    var t := InDirSpec(st, dir, nonce);
    MetadataUnaffected(st, t.res.value, p);
  }

  /** `create_new` never replaces an existing entry: with the staged file made and the
    * closure successful, it fails with `AlreadyExists`. */
  lemma CreateNewNeverReplaces<V>(st: FsState, p: Path, rule: ParentRule, mapping: ErrorMapping,
                                  w: Writer<V>, nonce: string)
    requires p in st.nodes
    ensures AtomicSpec(st, p, CreateNew, rule, mapping, w, nonce).res.Err?
    ensures (StagedPath(p, rule, nonce).Some? && CreateNewFile(st, StagedPath(p, rule, nonce).value).res.Ok? &&
             w([], 0).outcome.Ok?) ==>
      AtomicSpec(st, p, CreateNew, rule, mapping, w, nonce).res.error.kind == AlreadyExists
  {
  }

  /** The converse: with closure errors forced to `Other`, `create_new` reports
    * `AlreadyExists` only when the target or the staging name is already taken. */
  lemma CreateNewCollisionMeansTaken<V>(st: FsState, p: Path, rule: ParentRule, w: Writer<V>, nonce: string)
    requires AtomicSpec(st, p, CreateNew, rule, ForceOther, w, nonce).res.Err?
    requires AtomicSpec(st, p, CreateNew, rule, ForceOther, w, nonce).res.error.kind == AlreadyExists
    ensures p in st.nodes || StagedPath(p, rule, nonce) == Some(p) ||
      (StagedPath(p, rule, nonce).Some? && StagedPath(p, rule, nonce).value in st.nodes)
  {
    var dir := StagingDir(p, rule).value;
    var t := InDirSpec(st, dir, nonce);
    if t.res.Ok? {
      var tmp := t.res.value;
      var step := w([], 0);
      var s2 := SetData(t.st, tmp, step.data);
      assert step.outcome.Ok?;
      var pr := PersistNewSpec(s2, tmp, p);
      assert pr.res.Err? && pr.res.error.kind == AlreadyExists;
      assert p in s2.nodes;
    }
  }

  /** A failing closure: nothing is written, and its error comes back mapped. */
  lemma WriterFailure<V>(st: FsState, p: Path, mode: Mode, rule: ParentRule, mapping: ErrorMapping,
                         w: Writer<V>, nonce: string)
    requires mode != Update
    requires StagedPath(p, rule, nonce).Some? && CreateNewFile(st, StagedPath(p, rule, nonce).value).res.Ok?
    requires w([], 0).outcome.Err?
    ensures AtomicSpec(st, p, mode, rule, mapping, w, nonce) ==
      Outcome(st, Err(MapWriterError(w([], 0).outcome.error, mapping)))
  {
  }

  /** With the parent required, a path without one is refused before anything happens. */
  lemma NoParentRefused<V>(st: FsState, mode: Mode, mapping: ErrorMapping, w: Writer<V>, nonce: string)
    ensures AtomicSpec(st, [], mode, RequireParent, mapping, w, nonce) ==
      Outcome(st, Err(IoError(InvalidInput, "'.' has no parent")))
  {
  }

  // ---------------------------------------------------------------- closures from the tests

  /** `f.write_all(bytes)` at the handle's position. */
  function WriteAll(bytes: seq<Byte>): Writer<Unit>
  {
    (c: seq<Byte>, k: nat) => WriterStep(WriteAt(c, k, bytes), k + |bytes|, Ok(Unit))
  }

  /** `f.seek(SeekFrom::End(0))` then `f.write_all(bytes)`. */
  function SeekEndWriteAll(bytes: seq<Byte>): Writer<Unit>
  {
    (c: seq<Byte>, k: nat) => WriterStep(WriteAt(c, |c|, bytes), |c| + |bytes|, Ok(Unit))
  }

  /** `overwrite` replaces longer old content entirely: the staged file starts empty. */
  lemma OverwriteReplacesLongerContent(st: FsState, p: Path, rule: ParentRule, mapping: ErrorMapping,
                                       bytes: seq<Byte>, nonce: string)
    requires AtomicSpec(st, p, Overwrite, rule, mapping, WriteAll(bytes), nonce).res.Ok?
    ensures AtomicSpec(st, p, Overwrite, rule, mapping, WriteAll(bytes), nonce).st.nodes[p] == File(bytes, st.clock)
  {
    FreshWriteResult(st, p, Overwrite, rule, mapping, WriteAll(bytes), nonce);
  }

  /** `update` with seek-to-end and write appends to the old content ("base" + "+more"). */
  lemma UpdateAppends(st: FsState, p: Path, rule: ParentRule, mapping: ErrorMapping,
                      bytes: seq<Byte>, nonce: string)
    requires LinksResolve(st)
    requires StagedPath(p, rule, nonce) != Some(p)
    requires AtomicSpec(st, p, Update, rule, mapping, SeekEndWriteAll(bytes), nonce).res.Ok?
    ensures IsFile(st, p)
    ensures AtomicSpec(st, p, Update, rule, mapping, SeekEndWriteAll(bytes), nonce).st.nodes[p] ==
      File(ReadFile(st, p).value + bytes, st.clock)
  {
    UpdateResult(st, p, rule, mapping, SeekEndWriteAll(bytes), nonce);
    WriteAtEndAppends(ReadFile(st, p).value, bytes);
  }

  // ---------------------------------------------------------------- the imperative operation

  /** Runs one atomic write through the staged-file handle. */
  method Run<V>(fs: FileSystem, p: Path, mode: Mode, rule: ParentRule, mapping: ErrorMapping,
                w: Writer<V>, nonce: string) returns (r: Result<V>)
    modifies fs
    ensures fs.st == AtomicSpec(old(fs.st), p, mode, rule, mapping, w, nonce).st
    ensures r == AtomicSpec(old(fs.st), p, mode, rule, mapping, w, nonce).res
  {
    var dir := StagingDir(p, rule);
    if dir.None? {
      return Err(IoError(InvalidInput, "'" + Display(p) + "' has no parent"));
    }
    var staged := TempFile.InDir(fs, dir.value, nonce);
    if staged.Err? {
      return Err(staged.error);
    }
    var t := staged.value;
    if mode == Update {
      var c := t.CopyFrom(p);
      if c.Err? {
        t.Drop();
        return Err(c.error);
      }
    }
    var out := t.Write(w);
    if out.Err? {
      t.Drop();
      return Err(MapWriterError(out.error, mapping));
    }
    var persisted;
    if mode == CreateNew {
      persisted := t.PersistNew(p);
    } else {
      persisted := t.Persist(p);
    }
    if persisted.Err? {
      return Err(persisted.error);
    }
    return Ok(out.value);
  }
}

/** `file::atomic` (atomic.rs): the staged file goes in the target's parent, which must
  * exist as a path component; closure errors become kind `Other`. */
module AtomicFile {
  import opened Io
  import opened Fs
  import opened TempFiles
  import opened Atomic

  method CreateNew<V>(fs: FileSystem, p: Path, w: Writer<V>, nonce: string) returns (r: Result<V>)
    modifies fs
    ensures fs.st == AtomicSpec(old(fs.st), p, Atomic.CreateNew, RequireParent, ForceOther, w, nonce).st
    ensures r == AtomicSpec(old(fs.st), p, Atomic.CreateNew, RequireParent, ForceOther, w, nonce).res
  {
    r := Run(fs, p, Atomic.CreateNew, RequireParent, ForceOther, w, nonce);
  }

  method Overwrite<V>(fs: FileSystem, p: Path, w: Writer<V>, nonce: string) returns (r: Result<V>)
    modifies fs
    ensures fs.st == AtomicSpec(old(fs.st), p, Atomic.Overwrite, RequireParent, ForceOther, w, nonce).st
    ensures r == AtomicSpec(old(fs.st), p, Atomic.Overwrite, RequireParent, ForceOther, w, nonce).res
  {
    r := Run(fs, p, Atomic.Overwrite, RequireParent, ForceOther, w, nonce);
  }

  method Update<V>(fs: FileSystem, p: Path, w: Writer<V>, nonce: string) returns (r: Result<V>)
    modifies fs
    ensures fs.st == AtomicSpec(old(fs.st), p, Atomic.Update, RequireParent, ForceOther, w, nonce).st
    ensures r == AtomicSpec(old(fs.st), p, Atomic.Update, RequireParent, ForceOther, w, nonce).res
  {
    r := Run(fs, p, Atomic.Update, RequireParent, ForceOther, w, nonce);
  }
}

/** The per-operation files (atomic/create_new.rs, overwrite.rs, update.rs): the staged
  * file goes in `parent_or_current`; closure errors become kind `Other`. */
module AtomicInCurrent {
  import opened Io
  import opened Fs
  import opened TempFiles
  import opened Atomic

  method CreateNew<V>(fs: FileSystem, p: Path, w: Writer<V>, nonce: string) returns (r: Result<V>)
    modifies fs
    ensures fs.st == AtomicSpec(old(fs.st), p, Atomic.CreateNew, ParentOrCurrent, ForceOther, w, nonce).st
    ensures r == AtomicSpec(old(fs.st), p, Atomic.CreateNew, ParentOrCurrent, ForceOther, w, nonce).res
  {
    r := Run(fs, p, Atomic.CreateNew, ParentOrCurrent, ForceOther, w, nonce);
  }

  method Overwrite<V>(fs: FileSystem, p: Path, w: Writer<V>, nonce: string) returns (r: Result<V>)
    modifies fs
    ensures fs.st == AtomicSpec(old(fs.st), p, Atomic.Overwrite, ParentOrCurrent, ForceOther, w, nonce).st
    ensures r == AtomicSpec(old(fs.st), p, Atomic.Overwrite, ParentOrCurrent, ForceOther, w, nonce).res
  {
    r := Run(fs, p, Atomic.Overwrite, ParentOrCurrent, ForceOther, w, nonce);
  }

  method Update<V>(fs: FileSystem, p: Path, w: Writer<V>, nonce: string) returns (r: Result<V>)
    modifies fs
    ensures fs.st == AtomicSpec(old(fs.st), p, Atomic.Update, ParentOrCurrent, ForceOther, w, nonce).st
    ensures r == AtomicSpec(old(fs.st), p, Atomic.Update, ParentOrCurrent, ForceOther, w, nonce).res
  {
    r := Run(fs, p, Atomic.Update, ParentOrCurrent, ForceOther, w, nonce);
  }
}

/** `fsx::file::atomic`: as `file::atomic`, but a closure's error, already an I/O error,
  * keeps its kind. */
module FsxAtomic {
  import opened Io
  import opened Fs
  import opened TempFiles
  import opened Atomic

  method CreateNew<V>(fs: FileSystem, p: Path, w: Writer<V>, nonce: string) returns (r: Result<V>)
    modifies fs
    ensures fs.st == AtomicSpec(old(fs.st), p, Atomic.CreateNew, RequireParent, KeepKind, w, nonce).st
    ensures r == AtomicSpec(old(fs.st), p, Atomic.CreateNew, RequireParent, KeepKind, w, nonce).res
  {
    r := Run(fs, p, Atomic.CreateNew, RequireParent, KeepKind, w, nonce);
  }

  method Overwrite<V>(fs: FileSystem, p: Path, w: Writer<V>, nonce: string) returns (r: Result<V>)
    modifies fs
    ensures fs.st == AtomicSpec(old(fs.st), p, Atomic.Overwrite, RequireParent, KeepKind, w, nonce).st
    ensures r == AtomicSpec(old(fs.st), p, Atomic.Overwrite, RequireParent, KeepKind, w, nonce).res
  {
    r := Run(fs, p, Atomic.Overwrite, RequireParent, KeepKind, w, nonce);
  }

  method Update<V>(fs: FileSystem, p: Path, w: Writer<V>, nonce: string) returns (r: Result<V>)
    modifies fs
    ensures fs.st == AtomicSpec(old(fs.st), p, Atomic.Update, RequireParent, KeepKind, w, nonce).st
    ensures r == AtomicSpec(old(fs.st), p, Atomic.Update, RequireParent, KeepKind, w, nonce).res
  {
    r := Run(fs, p, Atomic.Update, RequireParent, KeepKind, w, nonce);
  }
}
