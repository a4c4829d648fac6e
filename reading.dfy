/** Reading a file as text, creating it with default content when it is missing. Three
  * variants differ in when the default content is made and when it is checked to be
  * UTF-8: the lazy one checks before writing, the other two write and then check. */
module Reading {
  import opened Io
  import opened Text
  import opened Fs
  import opened IoResultExt

  /** A read-or-initialise call: the new state, the text, and how many times the closure ran. */
  datatype ReadInit = ReadInit(st: FsState, res: Result<seq<Byte>>, calls: nat)

  /** The description `std::str::Utf8Error` gives; its byte index is not modelled. */
  const Utf8Detail: string := "invalid utf-8 sequence"

  /** A read failure other than a missing file, naming the path. */
  function ReadFailed(e: IoError, p: Path): (o: IoError)
    ensures o.kind == e.kind
    ensures OccursAt(o.msg, Display(p), |"Failed to read file '"|)
    ensures EndsWith(o.msg, e.msg)
  {
    IoError(e.kind, "Failed to read file '" + Display(p) + "' as string: " + e.msg)
  }

  /** Default content that is not UTF-8. */
  function NotUtf8(p: Path): (o: IoError)
    ensures o.kind == InvalidData
    ensures OccursAt(o.msg, Display(p), |"Default content for '"|)
  {
    IoError(InvalidData, "Default content for '" + Display(p) + "' is not valid UTF-8: " + Utf8Detail)
  }

  /** A failed write of the default content, naming the path. */
  function WriteFailed(e: IoError, p: Path): (o: IoError)
    ensures o.kind == e.kind
  {
    Ctx(e, "Failed to write default content to", p)
  }

  // ---------------------------------------------------------------- lazy, checked before writing

  /** `read_string_or_init_with` (fsx): an existing file's text is returned; a missing file
    * calls the closure, checks its bytes are UTF-8, writes them and returns them. */
  function ReadOrInitLazy(st: FsState, p: Path, make: () -> seq<Byte>): (o: ReadInit)
    ensures o.calls == (if Missing(st, p) then 1 else 0)
    ensures !Missing(st, p) ==> o.st == st
    ensures o.res.Err? ==> o.st == st
    ensures o.res.Ok? ==> IsUtf8(o.res.value)
    ensures IsFile(st, p) && IsUtf8(ReadFile(st, p).value) ==> o.res == Ok(ReadFile(st, p).value)
    ensures IsFile(st, p) && !IsUtf8(ReadFile(st, p).value) ==> o.res.Err? && o.res.error.kind == InvalidData
    ensures Missing(st, p) && !IsUtf8(make()) ==> o == ReadInit(st, Err(NotUtf8(p)), 1)
    ensures !Missing(st, p) && o.res.Err? ==> o.res.error == ReadFailed(ReadToString(st, p).error, p)
  {
    match ReadToString(st, p)
    case Ok(text) => ReadInit(st, Ok(text), 0)
    case Err(e) =>
      if e.kind == NotFound then
        var bytes := make();
        if !IsUtf8(bytes) then ReadInit(st, Err(NotUtf8(p)), 1)
        else
          var w := WriteFile(st, p, bytes);
          if w.res.Err? then ReadInit(st, Err(WriteFailed(w.res.error, p)), 1)
          else ReadInit(w.st, Ok(bytes), 1)
      else ReadInit(st, Err(ReadFailed(e, p)), 0)
  }

  /** A missing file that is initialised holds exactly the closure's bytes, which are
    * returned and which the next read gives back. */
  lemma LazyInitThenRead(st: FsState, p: Path, make: () -> seq<Byte>)
    requires Missing(st, p)
    requires ReadOrInitLazy(st, p, make).res.Ok?
    ensures ReadOrInitLazy(st, p, make) == ReadInit(st.(nodes := st.nodes[p := File(make(), st.clock)]), Ok(make()), 1)
    ensures ReadToString(ReadOrInitLazy(st, p, make).st, p) == Ok(make())
  {
    var w := WriteFile(st, p, make());
    assert w.res.Ok?;
    assert ReadFile(w.st, p) == Ok(make());
  }

  /** The imperative lazy variant, counting the closure's calls. */
  method ReadStringOrInitLazy(fs: FileSystem, p: Path, make: () -> seq<Byte>) returns (r: Result<seq<Byte>>, calls: nat)
    modifies fs
    ensures ReadInit(fs.st, r, calls) == ReadOrInitLazy(old(fs.st), p, make)
  {
    calls := 0;
    var read := ReadToString(fs.st, p);
    if read.Ok? {
      return read, calls;
    }
    if read.error.kind != NotFound {
      return Err(ReadFailed(read.error, p)), calls;
    }
    var bytes := make();
    calls := calls + 1;
    if !IsUtf8(bytes) {
      return Err(NotUtf8(p)), calls;
    }
    var w := fs.Call((s: FsState) => WriteFile(s, p, bytes));
    if w.Err? {
      return Err(WriteFailed(w.error, p)), calls;
    }
    return Ok(bytes), calls;
  }

  // ---------------------------------------------------------------- written, then checked

  /** `read_string_or_init` (src): an existing file's text is returned; for a missing file
    * the bytes are written first and checked to be UTF-8 afterwards, so content that is not
    * UTF-8 is left on disk and `InvalidData` is returned. */
  function ReadOrInit(st: FsState, p: Path, contents: seq<Byte>): (o: Outcome<seq<Byte>>)
    ensures !Missing(st, p) ==> o.st == st
    ensures o.res.Ok? ==> IsUtf8(o.res.value)
    ensures IsFile(st, p) && IsUtf8(ReadFile(st, p).value) ==> o.res == Ok(ReadFile(st, p).value)
    ensures !Missing(st, p) && o.res.Err? ==> o.res.error == ReadFailed(ReadToString(st, p).error, p)
    ensures Missing(st, p) && WriteFile(st, p, contents).res.Ok? ==>
      o == Outcome(st.(nodes := st.nodes[p := File(contents, st.clock)]),
                   if IsUtf8(contents) then Ok(contents) else Err(NotUtf8(p)))
  {
    match ReadToString(st, p)
    case Ok(text) => Outcome(st, Ok(text))
    case Err(e) =>
      if e.kind == NotFound then
        var w := WriteFile(st, p, contents);
        if w.res.Err? then Outcome(st, Err(WriteFailed(w.res.error, p)))
        else if IsUtf8(contents) then Outcome(w.st, Ok(contents))
        else Outcome(w.st, Err(NotUtf8(p)))
      else Outcome(st, Err(ReadFailed(e, p)))
  }

  /** The two orders differ exactly on content that is not UTF-8: checked first, nothing is
    * written; written first, the file is there although the call failed. */
  lemma CheckOrderMatters(st: FsState, p: Path, contents: seq<Byte>)
    requires Missing(st, p)
    requires WriteFile(st, p, contents).res.Ok?
    requires !IsUtf8(contents)
    ensures ReadOrInitLazy(st, p, () => contents).st == st
    ensures ReadOrInit(st, p, contents).st != st
    ensures ReadOrInitLazy(st, p, () => contents).res == ReadOrInit(st, p, contents).res
  {
    assert p !in st.nodes;
    assert p in ReadOrInit(st, p, contents).st.nodes;
  }

  /** On UTF-8 content the two orders agree on the state and on the result. */
  lemma CheckOrderAgreesOnText(st: FsState, p: Path, contents: seq<Byte>)
    requires IsUtf8(contents)
    ensures var lazy := ReadOrInitLazy(st, p, () => contents);
      Outcome(lazy.st, lazy.res) == ReadOrInit(st, p, contents)
  {
  }

  /** The imperative write-then-check variant. */
  method ReadStringOrInit(fs: FileSystem, p: Path, contents: seq<Byte>) returns (r: Result<seq<Byte>>)
    modifies fs
    ensures fs.st == ReadOrInit(old(fs.st), p, contents).st
    ensures r == ReadOrInit(old(fs.st), p, contents).res
  {
    var read := ReadToString(fs.st, p);
    if read.Ok? {
      return read;
    }
    if read.error.kind != NotFound {
      return Err(ReadFailed(read.error, p));
    }
    var w := fs.Call((s: FsState) => WriteFile(s, p, contents));
    if w.Err? {
      return Err(WriteFailed(w.error, p));
    }
    r := if IsUtf8(contents) then Ok(contents) else Err(NotUtf8(p));
  }

  // ---------------------------------------------------------------- eager closure

  /** `read_string_or_init_with` (src): the closure runs before the file is read, even when
    * the file exists, and its bytes go through the write-then-check variant. */
  function ReadOrInitEager(st: FsState, p: Path, make: () -> seq<Byte>): (o: ReadInit)
    ensures o.calls == 1
    ensures Outcome(o.st, o.res) == ReadOrInit(st, p, make())
  {
    var contents := make();
    var o := ReadOrInit(st, p, contents);
    ReadInit(o.st, o.res, 1)
  }

  /** For a closure producing UTF-8 the eager and the lazy variants agree on state and
    * result; they differ only in whether the closure ran on an existing file. */
  lemma EagerAgreesWithLazy(st: FsState, p: Path, make: () -> seq<Byte>)
    requires IsUtf8(make())
    ensures ReadOrInitEager(st, p, make).st == ReadOrInitLazy(st, p, make).st
    ensures ReadOrInitEager(st, p, make).res == ReadOrInitLazy(st, p, make).res
    ensures !Missing(st, p) ==> ReadOrInitLazy(st, p, make).calls == 0
  {
  }

  /** The imperative eager variant. */
  method ReadStringOrInitEager(fs: FileSystem, p: Path, make: () -> seq<Byte>) returns (r: Result<seq<Byte>>, calls: nat)
    modifies fs
    ensures ReadInit(fs.st, r, calls) == ReadOrInitEager(old(fs.st), p, make)
  {
    var contents := make();
    calls := 1;
    r := ReadStringOrInit(fs, p, contents);
  }
}
