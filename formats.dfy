/** The serialisation layer: a `Format` reads a whole file as text and parses it, or
  * serialises a value and writes it through the atomic overwrite; the `load_or_*` calls
  * create the file from a value when it is missing; `save_auto` and `load_auto` pick the
  * format from the file's extension. The codecs themselves (serde) are parameters. */
module Formats {
  import opened Io
  import opened Text
  import opened Fs
  import opened IoResultExt
  import opened TempFiles
  import Atomic
  import PathExt

  // ---------------------------------------------------------------- codecs and their errors

  /** What a codec's parser or serialiser produced. */
  datatype Parsed<T> = Parsed(value: T) | Invalid(reason: string)

  /** A format: `parse_str` from text to a value and `to_string` back. Text is held as its
    * UTF-8 bytes, which is what `as_bytes` hands to the file. */
  datatype Codec<!T> = Codec(parse: Utf8 -> Parsed<T>, render: T -> Parsed<Utf8>)

  /** `CodecError`: an I/O error, a parse error or a serialisation error. */
  datatype CodecError = IoErr(io: IoError) | DeserializeErr(reason: string) | SerializeErr(reason: string)

  datatype Coded<T> = Done(value: T) | Failed(error: CodecError)

  /** The new state and the result of a call that may fail with a `CodecError`. */
  datatype CodecOutcome<T> = CodecOutcome(st: FsState, res: Coded<T>)

  /** The codec reads back what it wrote for `v`. */
  predicate RoundTrips<T(==)>(codec: Codec<T>, v: T)
  {
    codec.render(v).Parsed? && codec.parse(codec.render(v).value) == Parsed(v)
  }

  /** The error `load` reports for a missing file. */
  predicate IsNotFound(e: CodecError)
  {
    e.IoErr? && e.io.kind == NotFound
  }

  // ---------------------------------------------------------------- read_string, load, save

  /** `read_string`: the file's bytes when they are UTF-8; otherwise `InvalidData`. Every
    * error names the path. */
  function ReadString(st: FsState, p: Path): (r: Result<seq<Byte>>)
    ensures r.Ok? <==> IsFile(st, p) && IsUtf8(ReadFile(st, p).value)
    ensures r.Ok? ==> r.value == ReadFile(st, p).value && IsUtf8(r.value)
    ensures r.Err? ==> r.error.kind == ReadToString(st, p).error.kind
    ensures r.Err? ==> OccursAt(r.error.msg, Display(p), |"failed to read file as string"| + 2)
  {
    WithPathContext(ReadToString(st, p), "failed to read file as string", p)
  }

  /** `Format::load`: read the whole file as text and parse it. I/O failures keep their
    * kind; a missing file is the one `NotFound`; a parse failure is `Deserialize`. */
  function Load<T>(st: FsState, p: Path, codec: Codec<T>): (r: Coded<T>)
    ensures r.Done? ==>
      (IsFile(st, p) && IsUtf8(ReadFile(st, p).value) && codec.parse(ReadFile(st, p).value) == Parsed(r.value))
    ensures r.Failed? && r.error.DeserializeErr? ==>
      (IsFile(st, p) && IsUtf8(ReadFile(st, p).value) && codec.parse(ReadFile(st, p).value).Invalid?)
    ensures r.Failed? && r.error.IoErr? <==> ReadString(st, p).Err?
    ensures r.Failed? ==> !r.error.SerializeErr?
    ensures r.Failed? && IsNotFound(r.error) <==> Missing(st, p)
  {
    match ReadString(st, p)
    case Err(e) => Failed(IoErr(e))
    case Ok(s) =>
      match codec.parse(s)
      case Parsed(v) => Done(v)
      case Invalid(m) => Failed(DeserializeErr(m))
  }

  /** The atomic overwrite `save` writes through (`file::atomic::overwrite`). */
  function OverwriteText(st: FsState, p: Path, text: Utf8, nonce: string): Outcome<Unit>
  {
    Atomic.AtomicSpec(st, p, Atomic.Overwrite, Atomic.RequireParent, Atomic.ForceOther, Atomic.WriteAll(text), nonce)
  }

  /** `Format::save`: serialise first, so a serialisation error touches nothing; then write
    * the text through the atomic overwrite, so the file either holds it or is unchanged. */
  function Save<T>(st: FsState, p: Path, codec: Codec<T>, value: T, nonce: string): (o: CodecOutcome<Unit>)
    ensures o.res.Failed? ==> o.st == st
    ensures codec.render(value).Invalid? ==> o == CodecOutcome(st, Failed(SerializeErr(codec.render(value).reason)))
    ensures o.res.Failed? && codec.render(value).Parsed? ==> o.res.error.IoErr?
  {
    match codec.render(value)
    case Invalid(m) => CodecOutcome(st, Failed(SerializeErr(m)))
    case Parsed(text) =>
      var w := OverwriteText(st, p, text, nonce);
      CodecOutcome(w.st, if w.res.Ok? then Done(Unit) else Failed(IoErr(w.res.error)))
  }

  /** A successful overwrite replaced the entry at `p` by a regular file, which therefore
    * was not protected. */
  lemma OverwriteWrites(st: FsState, p: Path, text: Utf8, nonce: string)
    requires OverwriteText(st, p, text, nonce).res.Ok?
    ensures OverwriteText(st, p, text, nonce).st == st.(nodes := st.nodes[p := File(text, st.clock)])
    ensures p !in st.denied
  {
    var w := Atomic.WriteAll(text);
    Atomic.FreshWriteResult(st, p, Atomic.Overwrite, Atomic.RequireParent, Atomic.ForceOther, w, nonce);
    Atomic.OverwriteReplacesLongerContent(st, p, Atomic.RequireParent, Atomic.ForceOther, text, nonce);
    var dir := Atomic.StagingDir(p, Atomic.RequireParent).value;
    var t := TempFiles.InDirSpec(st, dir, nonce);
    var tmp := t.res.value;
    var s2 := SetData(t.st, tmp, w([], 0).data);
    assert PersistSpec(s2, tmp, p).res.Ok?;
    assert Rename(s2, tmp, p).res.Ok?;
  }

  /** A successful `save` leaves exactly the serialised text at `p` and changes nothing else. */
  lemma SaveWrites<T>(st: FsState, p: Path, codec: Codec<T>, value: T, nonce: string)
    requires Save(st, p, codec, value, nonce).res.Done?
    ensures codec.render(value).Parsed?
    ensures Save(st, p, codec, value, nonce).st ==
      st.(nodes := st.nodes[p := File(codec.render(value).value, st.clock)])
    ensures p !in st.denied
  {
    OverwriteWrites(st, p, codec.render(value).value, nonce);
  }

  /** Saving and then loading gives the value back, for any value the codec reads back. */
  lemma SaveThenLoad<T>(st: FsState, p: Path, codec: Codec<T>, value: T, nonce: string)
    requires Save(st, p, codec, value, nonce).res.Done?
    requires RoundTrips(codec, value)
    ensures Load(Save(st, p, codec, value, nonce).st, p, codec) == Done(value)
  {
    SaveWrites(st, p, codec, value, nonce);
    var s := Save(st, p, codec, value, nonce).st;
    assert ReadFile(s, p).value == codec.render(value).value;
  }

  /** A missing parent directory makes `save` fail with an I/O error before anything is
    * written. */
  lemma SaveWithoutParentFails<T>(st: FsState, p: Path, codec: Codec<T>, value: T, nonce: string)
    requires p != [] && p[..|p| - 1] !in st.nodes
    requires codec.render(value).Parsed?
    ensures Save(st, p, codec, value, nonce).st == st
    ensures Save(st, p, codec, value, nonce).res.Failed? && Save(st, p, codec, value, nonce).res.error.IoErr?
  {
    var dir := p[..|p| - 1];
    var staged := dir + [StagingName(nonce)];
    assert staged[..|staged| - 1] == dir;
    assert CreateNewFile(st, staged).res.Err?;
  }

  /** The imperative `save`: serialise, then run the atomic overwrite on the filesystem. */
  method SaveFile<T>(fs: FileSystem, p: Path, codec: Codec<T>, value: T, nonce: string) returns (r: Coded<Unit>)
    modifies fs
    ensures CodecOutcome(fs.st, r) == Save(old(fs.st), p, codec, value, nonce)
  {
    var text := codec.render(value);
    if text.Invalid? {
      return Failed(SerializeErr(text.reason));
    }
    var w := Atomic.Run(fs, p, Atomic.Overwrite, Atomic.RequireParent, Atomic.ForceOther,
                        Atomic.WriteAll(text.value), nonce);
    r := if w.Ok? then Done(Unit) else Failed(IoErr(w.error));
  }

  // ---------------------------------------------------------------- load, or create from a value

  /** A `load_or_init_with` call: the new state, the result, and how many times the closure ran. */
  datatype Initialized<T> = Initialized(st: FsState, res: Coded<T>, calls: nat)

  /** `load_or_init_with`: a loaded value is returned as it is; a missing file calls the
    * closure once, saves its value and returns it; every other error is returned as it is. */
  function LoadOrInitWithSpec<T>(st: FsState, p: Path, codec: Codec<T>, make: () -> T, nonce: string)
    : (o: Initialized<T>)
    ensures o.calls == (if Missing(st, p) then 1 else 0)
    ensures !Missing(st, p) ==> o.st == st && o.res == Load(st, p, codec)
    ensures o.res.Failed? ==> o.st == st
  {
    match Load(st, p, codec)
    case Done(v) => Initialized(st, Done(v), 0)
    case Failed(e) =>
      if IsNotFound(e) then
        var value := make();
        var saved := Save(st, p, codec, value, nonce);
        Initialized(saved.st, if saved.res.Done? then Done(value) else Failed(saved.res.error), 1)
      else Initialized(st, Failed(e), 0)
  }

  /** A missing file that is created holds the closure's serialised value, which is returned
    * and which loading the file gives back. */
  lemma InitWithCreatesMissing<T>(st: FsState, p: Path, codec: Codec<T>, make: () -> T, nonce: string)
    requires Missing(st, p)
    requires LoadOrInitWithSpec(st, p, codec, make, nonce).res.Done?
    requires RoundTrips(codec, make())
    ensures LoadOrInitWithSpec(st, p, codec, make, nonce) ==
      Initialized(st.(nodes := st.nodes[p := File(codec.render(make()).value, st.clock)]), Done(make()), 1)
    ensures Load(LoadOrInitWithSpec(st, p, codec, make, nonce).st, p, codec) == Done(make())
  {
    SaveWrites(st, p, codec, make(), nonce);
    SaveThenLoad(st, p, codec, make(), nonce);
  }

  /** The closure runs once even when the save then fails for want of a parent directory;
    * the failure is an I/O error and nothing is written. */
  lemma InitWithSaveFailure<T>(st: FsState, p: Path, codec: Codec<T>, make: () -> T, nonce: string)
    requires Missing(st, p)
    requires p != [] && p[..|p| - 1] !in st.nodes
    requires codec.render(make()).Parsed?
    ensures var o := LoadOrInitWithSpec(st, p, codec, make, nonce);
      o.st == st && o.calls == 1 && o.res.Failed? && o.res.error.IoErr?
  {
    SaveWithoutParentFails(st, p, codec, make(), nonce);
  }

  /** The imperative `load_or_init_with`, counting the closure's calls. */
  method LoadOrInitWith<T>(fs: FileSystem, p: Path, codec: Codec<T>, make: () -> T, nonce: string)
    returns (r: Coded<T>, calls: nat)
    modifies fs
    ensures Initialized(fs.st, r, calls) == LoadOrInitWithSpec(old(fs.st), p, codec, make, nonce)
  {
    calls := 0;
    r := Load(fs.st, p, codec);
    if r.Failed? && IsNotFound(r.error) {
      var value := make();
      calls := calls + 1;
      var saved := SaveFile(fs, p, codec, value, nonce);
      r := if saved.Done? then Done(value) else Failed(saved.error);
    }
  }

  /** `load_or_init`: as `load_or_init_with`, with the value to save given up front. */
  function LoadOrInit<T>(st: FsState, p: Path, codec: Codec<T>, model: T, nonce: string): (o: CodecOutcome<T>)
    ensures !Missing(st, p) ==> o == CodecOutcome(st, Load(st, p, codec))
    ensures o.res.Failed? ==> o.st == st
  {
    match Load(st, p, codec)
    case Done(v) => CodecOutcome(st, Done(v))
    case Failed(e) =>
      if IsNotFound(e) then
        var saved := Save(st, p, codec, model, nonce);
        CodecOutcome(saved.st, if saved.res.Done? then Done(model) else Failed(saved.res.error))
      else CodecOutcome(st, Failed(e))
  }

  /** `load_or_init` is `load_or_init_with` with a closure returning the model. */
  lemma LoadOrInitIsConstantInit<T>(st: FsState, p: Path, codec: Codec<T>, model: T, nonce: string)
    ensures var i := LoadOrInitWithSpec(st, p, codec, () => model, nonce);
      LoadOrInit(st, p, codec, model, nonce) == CodecOutcome(i.st, i.res)
  {
  }

  /** A missing file gets the model saved, and the model is returned. */
  lemma LoadOrInitCreatesMissing<T>(st: FsState, p: Path, codec: Codec<T>, model: T, nonce: string)
    requires Missing(st, p)
    requires LoadOrInit(st, p, codec, model, nonce).res.Done?
    ensures LoadOrInit(st, p, codec, model, nonce) ==
      CodecOutcome(st.(nodes := st.nodes[p := File(codec.render(model).value, st.clock)]), Done(model))
  {
    SaveWrites(st, p, codec, model, nonce);
  }

  /** The imperative `load_or_init`. */
  method LoadOrInitFile<T>(fs: FileSystem, p: Path, codec: Codec<T>, model: T, nonce: string) returns (r: Coded<T>)
    modifies fs
    ensures CodecOutcome(fs.st, r) == LoadOrInit(old(fs.st), p, codec, model, nonce)
  {
    r := Load(fs.st, p, codec);
    if r.Failed? && IsNotFound(r.error) {
      var saved := SaveFile(fs, p, codec, model, nonce);
      r := if saved.Done? then Done(model) else Failed(saved.error);
    }
  }

  /** `load_or_default`: `load_or_init` with the type's default value `dflt`, which is made
    * only when the file is missing. */
  method LoadOrDefault<T>(fs: FileSystem, p: Path, codec: Codec<T>, dflt: T, nonce: string) returns (r: Coded<T>)
    modifies fs
    ensures CodecOutcome(fs.st, r) == LoadOrInit(old(fs.st), p, codec, dflt, nonce)
  {
    r := Load(fs.st, p, codec);
    if r.Failed? && IsNotFound(r.error) {
      var model := dflt;
      var saved := SaveFile(fs, p, codec, model, nonce);
      r := if saved.Done? then Done(model) else Failed(saved.error);
    }
  }

  // ---------------------------------------------------------------- load, or write given text

  /** The atomic no-clobber create `load_or_write_str` writes through. */
  function CreateText(st: FsState, p: Path, text: Utf8, nonce: string): Outcome<Unit>
  {
    Atomic.AtomicSpec(st, p, Atomic.CreateNew, Atomic.RequireParent, Atomic.ForceOther, Atomic.WriteAll(text), nonce)
  }

  /** The result of parsing text, as a `CodecError` on failure. */
  function ParseText<T>(codec: Codec<T>, text: Utf8): (r: Coded<T>)
    ensures r.Done? <==> codec.parse(text).Parsed?
    ensures r.Done? ==> r.value == codec.parse(text).value
    ensures r.Failed? ==> r.error == DeserializeErr(codec.parse(text).reason)
  {
    match codec.parse(text)
    case Parsed(v) => Done(v)
    case Invalid(m) => Failed(DeserializeErr(m))
  }

  /** `load_or_write_str`: a loaded value is returned and nothing is written; a missing file
    * is created with `text` through the no-clobber atomic create, and then `text` is parsed;
    * every other error is returned without writing. */
  function LoadOrWriteStr<T>(st: FsState, p: Path, codec: Codec<T>, text: Utf8, nonce: string): (o: CodecOutcome<T>)
    ensures !Missing(st, p) ==> o == CodecOutcome(st, Load(st, p, codec))
    ensures o.res.Failed? && o.res.error.IoErr? ==> o.st == st
  {
    match Load(st, p, codec)
    case Done(v) => CodecOutcome(st, Done(v))
    case Failed(e) =>
      if IsNotFound(e) then
        var c := CreateText(st, p, text, nonce);
        if c.res.Err? then CodecOutcome(st, Failed(IoErr(c.res.error)))
        else CodecOutcome(c.st, ParseText(codec, text))
      else CodecOutcome(st, Failed(e))
  }

  /** Once the create succeeds the file holds `text` verbatim, even when `text` does not
    * parse: the write comes first, and the parse result is what is returned. */
  lemma WriteStrWritesFirst<T>(st: FsState, p: Path, codec: Codec<T>, text: Utf8, nonce: string)
    requires Missing(st, p)
    requires CreateText(st, p, text, nonce).res.Ok?
    ensures LoadOrWriteStr(st, p, codec, text, nonce) ==
      CodecOutcome(st.(nodes := st.nodes[p := File(text, st.clock)]), ParseText(codec, text))
  {
    Atomic.FreshWriteResult(st, p, Atomic.CreateNew, Atomic.RequireParent, Atomic.ForceOther, Atomic.WriteAll(text), nonce);
    assert Load(st, p, codec).Failed? && IsNotFound(Load(st, p, codec).error);
    WriteAtEndAppends([], text);
    assert [] + text == text;
    assert CreateText(st, p, text, nonce).st == st.(nodes := st.nodes[p := File(text, st.clock)]);
  }

  /** An entry at `p` that cannot be read (a dangling symbolic link) is never replaced: the
    * create fails and nothing changes. */
  lemma WriteStrNeverReplaces<T>(st: FsState, p: Path, codec: Codec<T>, text: Utf8, nonce: string)
    requires Missing(st, p) && p in st.nodes
    ensures LoadOrWriteStr(st, p, codec, text, nonce).st == st
    ensures LoadOrWriteStr(st, p, codec, text, nonce).res.Failed?
    ensures LoadOrWriteStr(st, p, codec, text, nonce).res.error.IoErr?
  {
    Atomic.CreateNewNeverReplaces(st, p, Atomic.RequireParent, Atomic.ForceOther, Atomic.WriteAll(text), nonce);
  }

  /** The imperative `load_or_write_str`. */
  method LoadOrWriteText<T>(fs: FileSystem, p: Path, codec: Codec<T>, text: Utf8, nonce: string) returns (r: Coded<T>)
    modifies fs
    ensures CodecOutcome(fs.st, r) == LoadOrWriteStr(old(fs.st), p, codec, text, nonce)
  {
    r := Load(fs.st, p, codec);
    if r.Failed? && IsNotFound(r.error) {
      var c := Atomic.Run(fs, p, Atomic.CreateNew, Atomic.RequireParent, Atomic.ForceOther,
                          Atomic.WriteAll(text), nonce);
      r := if c.Err? then Failed(IoErr(c.error)) else ParseText(codec, text);
    }
  }

  // ---------------------------------------------------------------- format chosen by extension

  datatype FormatKind = Toml | Json | Yaml

  /** One codec per format. */
  datatype Codecs<!T> = Codecs(toml: Codec<T>, json: Codec<T>, yaml: Codec<T>)

  function CodecFor<T>(codecs: Codecs<T>, f: FormatKind): Codec<T>
  {
    match f
    case Toml => codecs.toml
    case Json => codecs.json
    case Yaml => codecs.yaml
  }

  /** The format an extension names, compared after ASCII lower-casing. */
  function FormatOfExt(ext: string): (r: Option<FormatKind>)
    ensures r == Some(Toml) <==> Lower(ext) == "toml"
    ensures r == Some(Json) <==> Lower(ext) == "json"
    ensures r == Some(Yaml) <==> Lower(ext) == "yaml" || Lower(ext) == "yml"
  {
    var e := Lower(ext);
    if e == "toml" then Some(Toml)
    else if e == "json" then Some(Json)
    else if e == "yaml" || e == "yml" then Some(Yaml)
    else None
  }

  /** Extensions differing only in case choose the same format. */
  lemma FormatOfExtIgnoresCase(a: string, b: string)
    requires SameIgnoringCase(a, b)
    ensures FormatOfExt(a) == FormatOfExt(b)
  {
  }

  /** The tests' mixed-case extensions: "JSON", "YaMl" and "ToMl" are recognised; "txt" is not. */
  lemma FormatOfExtExamples()
    ensures FormatOfExt("JSON") == Some(Json)
    ensures FormatOfExt("YaMl") == Some(Yaml)
    ensures FormatOfExt("ToMl") == Some(Toml)
    ensures FormatOfExt("yml") == Some(Yaml)
    ensures FormatOfExt("txt") == None
  {
    assert Lower("JSON") == "json";
    assert Lower("YaMl") == "yaml";
    assert Lower("ToMl") == "toml";
    assert Lower("yml") == "yml";
    assert Lower("txt") == "txt";
  }

  /** The extension dispatch shared by `save_auto` and `load_auto`: no extension and an
    * unsupported one are both `InvalidInput`, naming the path (and the extension). */
  function FormatFor(p: Path): (r: Result<FormatKind>)
    ensures r.Err? ==> r.error.kind == InvalidInput
    ensures r.Ok? <==> PathExt.FsExtension(p).Some? && FormatOfExt(PathExt.FsExtension(p).value).Some?
    ensures r.Ok? ==> r.value == FormatOfExt(PathExt.FsExtension(p).value).value
    ensures PathExt.FsExtension(p).None? ==> r.error.msg == "path '" + Display(p) + "' has no extension"
    ensures r.Err? && PathExt.FsExtension(p).Some? ==>
      OccursAt(r.error.msg, Lower(PathExt.FsExtension(p).value), |"unsupported extension '"|)
  {
    match PathExt.FsExtension(p)
    case None => Err(IoError(InvalidInput, "path '" + Display(p) + "' has no extension"))
    case Some(x) =>
      match FormatOfExt(x)
      case Some(f) => Ok(f)
      case None =>
        Err(IoError(InvalidInput, "unsupported extension '" + Lower(x) + "' for '" + Display(p) +
                                  "'; expected one of: toml, json, yaml/yml"))
  }

  /** `save_auto`: save with the format the extension names; an unrecognised extension
    * writes nothing. */
  function SaveAuto<T>(st: FsState, p: Path, codecs: Codecs<T>, value: T, nonce: string): (o: CodecOutcome<Unit>)
    ensures FormatFor(p).Err? ==> o == CodecOutcome(st, Failed(IoErr(FormatFor(p).error)))
    ensures FormatFor(p).Ok? ==> o == Save(st, p, CodecFor(codecs, FormatFor(p).value), value, nonce)
  {
    match FormatFor(p)
    case Err(e) => CodecOutcome(st, Failed(IoErr(e)))
    case Ok(f) => Save(st, p, CodecFor(codecs, f), value, nonce)
  }

  /** `load_auto`: load with the format the extension names; an unrecognised extension
    * attempts no load. */
  function LoadAuto<T>(st: FsState, p: Path, codecs: Codecs<T>): (r: Coded<T>)
    ensures FormatFor(p).Err? ==> r == Failed(IoErr(FormatFor(p).error))
    ensures FormatFor(p).Ok? ==> r == Load(st, p, CodecFor(codecs, FormatFor(p).value))
  {
    match FormatFor(p)
    case Err(e) => Failed(IoErr(e))
    case Ok(f) => Load(st, p, CodecFor(codecs, f))
  }

  /** What `save_auto` wrote, `load_auto` reads back, whatever the case of the extension. */
  lemma SaveAutoThenLoadAuto<T>(st: FsState, p: Path, codecs: Codecs<T>, value: T, nonce: string)
    requires SaveAuto(st, p, codecs, value, nonce).res.Done?
    requires forall f :: RoundTrips(CodecFor(codecs, f), value)
    ensures LoadAuto(SaveAuto(st, p, codecs, value, nonce).st, p, codecs) == Done(value)
  {
    var f := FormatFor(p).value;
    SaveThenLoad(st, p, CodecFor(codecs, f), value, nonce);
  }

  /** The imperative `save_auto`. */
  method SaveAutoFile<T>(fs: FileSystem, p: Path, codecs: Codecs<T>, value: T, nonce: string) returns (r: Coded<Unit>)
    modifies fs
    ensures CodecOutcome(fs.st, r) == SaveAuto(old(fs.st), p, codecs, value, nonce)
  {
    var f := FormatFor(p);
    if f.Err? {
      return Failed(IoErr(f.error));
    }
    r := SaveFile(fs, p, CodecFor(codecs, f.value), value, nonce);
  }
}
