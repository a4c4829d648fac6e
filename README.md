# fs_ext in Dafny

A model of the core of `fs_ext`, a Rust library of filesystem helpers, with proofs of what
its operations promise. The model covers:

- path helpers such as `parent_or_current`, `utf8_stem`, `assert_dir`, `assert_file` and `kind`;
- error context (`with_path_context`, `with_paths_context`);
- the staging types `TempFile` and `TempDir`;
- atomic whole-file writes (`create_new`, `overwrite`, `update`) and the policy-driven `create_with`;
- the serialisation layer (`Format::load` / `save`, the `load_or_*` family, `save_auto` / `load_auto`);
- read-or-initialise and ensure-or-initialise calls, both `touch` variants, `create_if_missing`;
- the file and directory existence checks;
- recursive directory `copy`, `clear` and `size`;
- the `DirQuery` builders, extension filters and `collect`, in their core and `fsx` versions;
- the chunked byte stream `stream_bytes`.

The filesystem is a value, `Fs.FsState`:

- a map from paths (sequences of names below a base directory) to entries: regular files with
  bytes and a modification time, directories, symbolic links and other entries;
- the set of paths whose access the system refuses;
- the current time.

Each std::fs primitive the library calls is a function from a state to a new state and a
result (`Fs.CreateNewFile`, `Fs.Rename`, `Fs.RemoveDirAll`, ...). Every library operation is
defined twice:

- a specification function over the state;
- an imperative method on a `Fs.FileSystem` object (or on `TempFile`, `TempDir`,
  `ByteChunkIterator`) whose postcondition ties its new state and result to that function.

The lemmas state the library's promises about the specification functions: round trips, what
is created or left alone, which errors arise and with which kind, idempotence, and agreement
between the variants the library ships side by side.

Files: `io.dfy` (error kinds, results), `text.dfy` (bytes, UTF-8, ASCII case), `fs.dfy`
(state and primitives), `walk.dfy` (the `walkdir` traversal), and one file per library area.

## Model

| member | source | states |
|---|---|---|
| IoResultExt.WithPathContext | fs_ext/src/traits/io_result_ext.rs:11-15 | an `Ok` passes through unchanged; an error keeps its kind, and its new message starts with the action, names the path in quotes, and ends with the original message |
| IoResultExt.WithPathsContext | fs_ext/src/traits/io_result_ext.rs:17-30 | an `Ok` passes through unchanged; an error keeps its kind, and its message holds the action, then the source and destination paths in quotes, and ends with the original message |
| IoResultExt.Ctx | fs_ext/src/traits/io_result_ext.rs:12-13 | the single-path context on a bare error keeps its kind |
| IoResultExt.Ctx2 | fs_ext/src/traits/io_result_ext.rs:20-28 | the two-path context on a bare error keeps its kind |
| IoResultExt.NestedContextKeepsKindAndMessage | fs_ext/src/traits/io_result_ext.rs:11-15 | context added twice still keeps the original kind and still ends with the original message |
| PathExt.Parent | fs_ext/src/traits/path_ext.rs:66 | `Path::parent` drops exactly the last component, and there is none for the empty path or the root |
| PathExt.LastDot | fs_ext/src/traits/path_ext.rs:72 | finds the last '.' of a name: it is a dot, and no dot follows it; `None` means the name has no dot |
| PathExt.SplitName | fs_ext/src/traits/path_ext.rs:71-75 | the file name is the stem, or the stem, a dot and the extension; the stem is never empty and the extension holds no dot |
| PathExt.ParentOrCurrent | fs_ext/src/traits/path_ext.rs:65-69 | the result is never empty: it is the parent when there is a non-empty one, otherwise "." |
| PathExt.ParentOrCurrentExamples | fs_ext/src/traits/path_ext.rs:90-112 | "a/b/c.txt" gives "a/b"; "file.txt", "" and "." give "." |
| PathExt.ToRust | fs_ext/src/traits/path_ext.rs:65-69 | a path of names becomes the same number of normal components, name by name |
| PathExt.FsParentOrCurrentAgrees | fs_ext/src/traits/path_ext.rs:65-69 | the staging directory the filesystem operations use agrees with `parent_or_current`: the parent for two names or more, "." otherwise |
| PathExt.Utf8Stem | fs_ext/src/traits/path_ext.rs:71-75 | succeeds exactly when the path ends in a file name; the name is the stem plus "." plus the extension when there is one, or the stem itself; a failure is `InvalidData` |
| PathExt.Utf8StemExtensions | fs_ext/src/traits/path_ext.rs:116-138 | "foo.txt" has stem "foo", and "archive.tar.gz" loses only ".gz" |
| PathExt.Utf8StemDots | fs_ext/src/traits/path_ext.rs:122-160 | ".bashrc" is its own stem, "foo" and "name." give "foo" and "name", and "/" fails with `InvalidData` |
| PathExt.IsDirStrict | fs_ext/src/traits/path_ext.rs:20-23 | succeeds exactly when metadata can be read, and then says whether the path is a directory; a failure keeps its kind |
| PathExt.IsFileStrict | fs_ext/src/traits/path_ext.rs:36-39 | succeeds exactly when metadata can be read, and then says whether the path is a regular file; a failure keeps its kind |
| PathExt.AssertDir | fs_ext/src/traits/path_ext.rs:25-34 | succeeds exactly on a directory; another existing entry gives `InvalidInput`; a metadata failure keeps its kind |
| PathExt.AssertFile | fs_ext/src/traits/path_ext.rs:41-50 | succeeds exactly on a regular file; another existing entry gives `InvalidInput`; a metadata failure keeps its kind |
| PathExt.Kind | fs_ext/src/traits/path_ext.rs:52-63 | as written: fails exactly when the followed metadata fails; reports `Dir` exactly for directories and `File` exactly for regular files, after links are followed |
| PathExt.KindNeverReportsSymLink | fs_ext/src/traits/path_ext.rs:52-63 | a link to a file is reported as `File`, and no path is ever reported as `SymLink` |
| PathExt.KindOfEntry | fs_ext/src/traits/path_ext.rs:52-63 | classifying the entry itself: `SymLink`, `Dir` and `File` each exactly for the matching kind of entry |
| PathExt.KindOfEntryDetectsSymLink | fs_ext/src/traits/path_ext.rs:58-59 | a link is reported as `SymLink`; any other entry is classified as `kind` classifies it |
| TempFiles.StagingName | fs_ext/src/core/types/temp_file.rs:21-24 | the staging name starts with "." and ends with ".tmp" around the random part |
| TempFiles.WriteAt | fs_ext/src/core/types/temp_file.rs:185-198 | a write through the handle puts the bytes at the cursor, keeps what lies before and after them, and grows the file only as far as the write reaches |
| TempFiles.WriteAtEndAppends | fs_ext/src/core/types/temp_file.rs:185-198 | a write at the end of the content appends ("base" then "+more" gives "base+more") |
| TempFiles.WriteAtStartKeepsTail | fs_ext/src/core/types/temp_file.rs:169-183 | a write at the start of a longer file leaves the old tail, which is why `copy_from` must truncate |
| TempFiles.InDirSpec | fs_ext/src/core/types/temp_file.rs:19-27 | success creates exactly one new empty file, named with the staging name, directly inside `dir`, where nothing was; failure changes nothing and keeps the creation error's kind |
| TempFiles.NewSpec | fs_ext/src/core/types/temp_file.rs:15-17 | the same in the system's temporary directory under the default name; a failure is the creation error itself |
| TempFiles.CopyFromSpec | fs_ext/src/core/types/temp_file.rs:66-83 | only the staged file changes; it succeeds exactly when the source is a regular file, and the staged content is then exactly the source's bytes; a source whose metadata fails leaves everything unchanged and keeps the kind |
| TempFiles.CopyFromCopiesSource | fs_ext/src/core/types/temp_file.rs:169-183 | copying another regular file succeeds and replaces the staged content with the source's bytes, old content truncated |
| TempFiles.PersistSpec | fs_ext/src/core/types/temp_file.rs:51-59 | success moves the staged file onto `dst`, replacing what was there; failure deletes the staged file and keeps the rename error's kind |
| TempFiles.PersistNewSpec | fs_ext/src/core/types/temp_file.rs:41-49 | success only when `dst` did not exist, moving the staged file there; an existing `dst` fails with `AlreadyExists`; failure deletes the staged file |
| TempFiles.DropSpec | fs_ext/src/core/types/temp_file.rs:97-108 | dropping removes the staged file and nothing else |
| TempFiles.InDirThenDropRestores | fs_ext/src/core/types/temp_file.rs:97-108 | a staged file created and then dropped leaves the filesystem exactly as it was |
| TempFiles.TempFile.InDir | fs_ext/src/core/types/temp_file.rs:19-27 | the new state and result are those of `InDirSpec`; the handle is fresh, at position 0, over empty content |
| TempFiles.TempFile.New | fs_ext/src/core/types/temp_file.rs:15-17 | the new state and result are those of `NewSpec`; the handle is fresh, at position 0, over empty content |
| TempFiles.TempFile.CopyFrom | fs_ext/src/core/types/temp_file.rs:66-83 | the new state and result are those of `CopyFromSpec`, and after success the cursor is at the end of the content |
| TempFiles.TempFile.Write | fs_ext/src/core/types/temp_file.rs:29-35 | the caller's closure sees the staged content and cursor; the file then holds what it wrote, and the cursor and result are the closure's |
| TempFiles.TempFile.Persist | fs_ext/src/core/types/temp_file.rs:51-59 | consumes the handle; the state and result are those of `PersistSpec` |
| TempFiles.TempFile.PersistNew | fs_ext/src/core/types/temp_file.rs:41-49 | consumes the handle; the state and result are those of `PersistNewSpec` |
| TempFiles.TempFile.Keep | fs_ext/src/core/types/temp_file.rs:61-64 | consumes the handle without touching the filesystem and returns the staged path |
| TempFiles.TempFile.Drop | fs_ext/src/core/types/temp_file.rs:97-108 | consumes the handle and removes the staged file, as `DropSpec` says |
| TempDirs.InDirName | fs_ext/src/core/types/temp_dir.rs:18-25 | the directory name starts with ".tmp-" followed by the random part |
| TempDirs.DefaultName | fs_ext/src/core/types/temp_dir.rs:14-16 | the default name starts with ".tmp" followed by the random part |
| TempDirs.InDirSpec | fs_ext/src/core/types/temp_dir.rs:18-25 | success adds exactly one new empty directory directly inside `dir`, where nothing was; failure changes nothing and keeps the kind of the directory-creation error |
| TempDirs.NewSpec | fs_ext/src/core/types/temp_dir.rs:14-16 | the same in the system's temporary directory; a failure is the creation error itself |
| TempDirs.CloseSpec | fs_ext/src/core/types/temp_dir.rs:35-38 | success removes the directory and everything below it; failure changes nothing and keeps the removal error's kind |
| TempDirs.InDirThenCloseRestores | fs_ext/src/core/types/temp_dir.rs:79-88 | on a well-formed tree, a temporary directory created and closed untouched leaves the tree exactly as it was, and the close succeeds |
| TempDirs.TempDir.New | fs_ext/src/core/types/temp_dir.rs:14-16 | the new state and result are those of `NewSpec`; the handle is fresh and live |
| TempDirs.TempDir.InDir | fs_ext/src/core/types/temp_dir.rs:18-25 | the new state and result are those of `InDirSpec`; the handle is fresh and live |
| TempDirs.TempDir.Keep | fs_ext/src/core/types/temp_dir.rs:31-33 | consumes the handle without touching the filesystem and returns the path |
| TempDirs.TempDir.Close | fs_ext/src/core/types/temp_dir.rs:35-38 | consumes the handle; the state and result are those of `CloseSpec` |
| TempDirs.TempDir.Drop | fs_ext/src/core/types/temp_dir.rs:49-59 | consumes the handle and removes the directory tree, ignoring a failure |
| Atomic.StagingDir | fs_ext/src/core/file/atomic.rs:12-14 | the staging directory is the target's parent; with the parent required, only a path without one has none; under `parent_or_current` a one-name path stages in the current directory |
| Atomic.MapWriterError | fs_ext/src/core/file/atomic.rs:18-19 | a closure error keeps its message; under `file::atomic` it becomes kind `Other`, under `fsx` it is passed on as it is |
| Atomic.AtomicSpec | fs_ext/src/core/file/atomic.rs:6-63 | stage in the parent, copy the target in for `update`, run the closure, then rename; any failure leaves the filesystem exactly as it was |
| Atomic.FreshWriteResult | fs_ext/src/core/file/atomic.rs:6-42 | after a successful `create_new` or `overwrite`, the target holds exactly what the closure wrote into an empty file, nothing else changed, and the closure's value is returned |
| Atomic.UpdateResult | fs_ext/src/core/file/atomic.rs:44-63 | after a successful `update`, the target was a regular file and now holds what the closure made of its old bytes, with the cursor starting at their end; nothing else changed |
| Atomic.MetadataUnaffected | fs_ext/src/core/file/atomic.rs:54-56 | creating the staged file does not change what the target resolves to, so `copy_from` reads the old target |
| Atomic.UpdateMissingFails | fs_ext/src/core/file/atomic/update.rs:77-87 | `update` of a path whose metadata cannot be read fails with that error's kind |
| Atomic.CreateNewNeverReplaces | fs_ext/src/core/file/atomic.rs:104-120 | `create_new` on an existing entry always fails, with `AlreadyExists` once staging and the closure succeed |
| Atomic.CreateNewCollisionMeansTaken | fs_ext/src/core/file/atomic.rs:6-23 | the converse: `AlreadyExists` from `create_new` (closure errors forced to `Other`) means the target or the staging name was taken |
| Atomic.WriterFailure | fs_ext/src/core/file/atomic.rs:86-102 | a failing closure leaves the filesystem exactly as it was and its error comes back mapped |
| Atomic.NoParentRefused | fs_ext/src/core/file/atomic.rs:12-14 | with the parent required, a path without one fails `InvalidInput` before anything happens |
| Atomic.OverwriteReplacesLongerContent | fs_ext/src/core/file/atomic.rs:122-138 | `overwrite` with a closure that writes "new" leaves exactly "new", however long the old content was |
| Atomic.UpdateAppends | fs_ext/src/core/file/atomic.rs:140-155 | `update` with seek-to-end and a write appends to the old content: "base" becomes "base+more" |
| Atomic.Run | fs_ext/src/core/file/atomic.rs:6-63 | the imperative write through the staged-file handle ends in the state and result of `AtomicSpec` |
| AtomicFile.CreateNew | fs_ext/src/core/file/atomic.rs:6-23 | `AtomicSpec` for `create_new`, parent required, closure errors forced to `Other` |
| AtomicFile.Overwrite | fs_ext/src/core/file/atomic.rs:25-42 | `AtomicSpec` for `overwrite`, parent required, closure errors forced to `Other` |
| AtomicFile.Update | fs_ext/src/core/file/atomic.rs:44-63 | `AtomicSpec` for `update`, parent required, closure errors forced to `Other` |
| AtomicInCurrent.CreateNew | fs_ext/src/core/file/atomic/create_new.rs:6-21 | `AtomicSpec` for `create_new`, staging in `parent_or_current`, closure errors forced to `Other` |
| AtomicInCurrent.Overwrite | fs_ext/src/core/file/atomic/overwrite.rs:6-21 | `AtomicSpec` for `overwrite`, staging in `parent_or_current`, closure errors forced to `Other` |
| AtomicInCurrent.Update | fs_ext/src/core/file/atomic/update.rs:6-23 | `AtomicSpec` for `update`, staging in `parent_or_current`, closure errors forced to `Other` |
| FsxAtomic.CreateNew | fs_ext/src/core/fsx/file/atomic.rs:6-22 | `AtomicSpec` for `create_new`, parent required, closure errors kept as they are |
| FsxAtomic.Overwrite | fs_ext/src/core/fsx/file/atomic.rs:24-40 | `AtomicSpec` for `overwrite`, parent required, closure errors kept as they are |
| FsxAtomic.Update | fs_ext/src/core/fsx/file/atomic.rs:42-60 | `AtomicSpec` for `update`, parent required, closure errors kept as they are |
| CreateWith.EnsureParent | fs_ext/src/core/file/atomic/create_with.rs:393-466 | `RequireExists` changes nothing and succeeds exactly when the parent exists, failing `NotFound` otherwise; `CreateIfMissing` leaves the parent a directory on success |
| CreateWith.EnsureExistingParentUnchanged | fs_ext/src/core/file/atomic/create_with.rs:16-18 | in a well-formed tree, a parent that is already a directory passes either policy with nothing changed |
| CreateWith.Suffixed | fs_ext/src/core/file/atomic/create_with.rs:248-317 | the suffix goes between stem and extension after an underscore (`test.txt` becomes `test_1.txt`), or after the whole name when there is no extension |
| CreateWith.SuffixedPath | fs_ext/src/core/file/atomic/create_with.rs:248-283 | the alternate path is a sibling of the original in the same directory, and differs from it |
| CreateWith.FirstFree | fs_ext/src/core/file/atomic/create_with.rs:285-317 | the counter chosen is the first one, from the start value on, whose name is free; `None` means every counter up to the bound is taken |
| CreateWith.UniquePath | fs_ext/src/core/file/atomic/create_with.rs:31-35 | the generated path is a different sibling of the original; under `Counter` it does not exist |
| CreateWith.CounterExamples | fs_ext/src/core/file/atomic/create_with.rs:248-317 | beside an existing "test.txt" the counter gives "test_1.txt", or "test_2.txt" when "test_1.txt" is taken too |
| CreateWith.ParentInPlace | fs_ext/src/core/file/atomic/create_with.rs:16-20 | with the parent already a directory, `create_with` is the bare dispatch on the collision strategy |
| CreateWith.Lift | fs_ext/src/core/file/atomic/create_with.rs:21 | a result wrapped in `Some`: same state, same success, the value in `Some`, the error unchanged |
| CreateWith.WriterCalls | fs_ext/src/core/file/atomic/create_with.rs:20-39 | the closure runs at most twice, and at most once unless the strategy is `Rename` |
| CreateWith.AttemptOnExisting | fs_ext/src/core/file/atomic/create_with.rs:21 | a `create_new` attempt on an existing entry fails and changes nothing; with staging and the closure successful the error is `AlreadyExists` |
| CreateWith.ErrorOnExisting | fs_ext/src/core/file/atomic/create_with.rs:85-113 | `Error` on an existing entry fails with the filesystem unchanged, with `AlreadyExists` once staging and the closure succeed |
| CreateWith.SkipOnExisting | fs_ext/src/core/file/atomic/create_with.rs:23-27 | `Skip` on an existing entry changes nothing and never returns a value; with staging and the closure successful it returns `None` after one closure run |
| CreateWith.RenameDispatch | fs_ext/src/core/file/atomic/create_with.rs:31-38 | after a collision under `Rename`, a failure to generate a path is the result; otherwise the second attempt goes to the generated path |
| CreateWith.RenameOnExisting | fs_ext/src/core/file/atomic/create_with.rs:248-283 | a successful `Rename` on an existing entry leaves it as it was and writes the closure's output at the generated sibling, which did not exist |
| CreateWith.RenameRunsWriterTwice | fs_ext/src/core/file/atomic/create_with.rs:31-36 | a successful `Rename` on an existing entry has run the closure twice |
| CreateWith.ReachedWhenSucceeded | fs_ext/src/core/file/atomic/create_with.rs:21 | a successful attempt got far enough to run the closure |
| CreateWith.FreshPathWritten | fs_ext/src/core/file/atomic/create_with.rs:58-83 | on a free path whose parent is a directory, every strategy that succeeds writes the closure's output at the path and returns its value |
| CreateWith.FreshAttemptWritten | fs_ext/src/core/file/atomic/create_with.rs:21-29 | a successful first attempt writes the closure's output at the path |
| CreateWith.FreeTargetNoCollision | fs_ext/src/core/file/atomic/create_with.rs:23-33 | a free target with a free staging name never produces `AlreadyExists` |
| CreateWith.FreshDispatch | fs_ext/src/core/file/atomic/create_with.rs:20-39 | with the parent in place and no collision, every strategy is just its first attempt |
| CreateWith.ModeOf | fs_ext/src/core/file/atomic/create_with.rs:21-31 | the first attempt is never an `update` |
| CreateWith.NoCollisionDispatch | fs_ext/src/core/file/atomic/create_with.rs:20-39 | when the first attempt does not collide, the dispatch returns it, whatever the strategy |
| CreateWith.Create | fs_ext/src/core/file/atomic/create_with.rs:6-40 | the imperative `create_with` ends in the state and result of its specification |
| CreateWith.CreateNewHandle | fs_ext/src/core/file/creation/create_with.rs:18 | success means the path was free and now holds an empty file; failure changes nothing and keeps the kind of the creation error |
| CreateWith.OverwriteHandle | fs_ext/src/core/file/creation/create_with.rs:26 | success leaves an empty regular file at the path; failure changes nothing |
| CreateWith.HandleCollides | fs_ext/src/core/file/creation/create_with.rs:12-20 | on an existing file whose directory can be read, the parent step changes nothing, and creating anew fails `AlreadyExists` with nothing changed |
| CreateWith.HandleErrorOnExisting | fs_ext/src/core/file/creation/create_with.rs:71-86 | `Error` on an existing file fails `AlreadyExists` with nothing changed |
| CreateWith.HandleSkipOnExisting | fs_ext/src/core/file/creation/create_with.rs:103-124 | `Skip` on an existing file returns `None` with nothing changed |
| CreateWith.HandleRenameOnExisting | fs_ext/src/core/file/creation/create_with.rs:180-200 | `Rename` on an existing file leaves it as it was; on success a new empty file is opened at the generated sibling and nothing else changes |
| CreateWith.HandleOverwriteExisting | fs_ext/src/core/file/creation/create_with.rs:141-163 | `Overwrite` on an existing regular file opens it and empties it |
| CreateWith.CreateHandle | fs_ext/src/core/file/creation/create_with.rs:6-37 | the imperative handle-returning `create_with` ends in the state and result of its specification |
| Formats.ReadString | fs_ext/src/core/file/reading/read_string.rs:11-12 | succeeds exactly on a regular file holding UTF-8, returning its bytes; an error keeps the kind of `read_to_string`'s error and names the path after the action |
| Formats.Load | fs_ext/src/traits/format.rs:16-23 | a loaded value is what the parser made of the file's text; an I/O error arises exactly when reading fails, and a parse failure is `Deserialize`; `load` never reports a serialisation error; the error is `NotFound` exactly when the file is missing |
| Formats.Save | fs_ext/src/traits/format.rs:25-34 | a failure changes nothing; a value that cannot be serialised fails `Serialize` before anything is touched; any other failure is an I/O error |
| Formats.OverwriteWrites | fs_ext/src/traits/format.rs:31 | a successful atomic overwrite leaves exactly the text at the path and changes nothing else |
| Formats.SaveWrites | fs_ext/src/traits/format.rs:25-34 | a successful `save` serialised the value and left exactly that text at the path, nothing else changed |
| Formats.SaveThenLoad | fs_ext/src/traits/format.rs:16-34 | loading what `save` wrote gives the value back, for any value the codec reads back |
| Formats.SaveWithoutParentFails | fs_ext/src/core/file/loading/load_or_init.rs:94-105 | with the parent directory missing, `save` fails with an I/O error and writes nothing |
| Formats.SaveFile | fs_ext/src/traits/format.rs:25-34 | the imperative `save` ends in the state and result of `Save` |
| Formats.LoadOrInitWithSpec | fs_ext/src/core/file/loading/load_or_init_with.rs:7-26 | the closure runs exactly once when the file is missing and never otherwise; an existing file is just loaded, with nothing written; a failure changes nothing |
| Formats.InitWithCreatesMissing | fs_ext/src/core/file/loading/load_or_init_with.rs:45-65 | a missing file is created holding the closure's serialised value, which is returned and which loading gives back |
| Formats.InitWithSaveFailure | fs_ext/src/core/file/loading/load_or_init_with.rs:116-133 | with the parent missing, the closure still runs once, the failure is an I/O error, and nothing is written |
| Formats.LoadOrInitWith | fs_ext/src/core/file/loading/load_or_init_with.rs:7-26 | the imperative version ends in the state, result and closure-call count of `LoadOrInitWithSpec` |
| Formats.LoadOrInit | fs_ext/src/core/file/loading/load_or_init.rs:7-22 | an existing file is just loaded, with nothing written; a failure changes nothing |
| Formats.LoadOrInitIsConstantInit | fs_ext/src/core/file/loading/load_or_init.rs:7-22 | `load_or_init` is `load_or_init_with` with a closure that returns the model |
| Formats.LoadOrInitCreatesMissing | fs_ext/src/core/file/loading/load_or_init.rs:41-55 | a missing file gets the model saved, and the model is returned |
| Formats.LoadOrInitFile | fs_ext/src/core/file/loading/load_or_init.rs:7-22 | the imperative version ends in the state and result of `LoadOrInit` |
| Formats.LoadOrDefault | fs_ext/src/core/file/loading/load_or_default.rs:7-23 | `load_or_default` behaves as `load_or_init` with the default value |
| Formats.ParseText | fs_ext/src/core/file/loading/load_or_write_str.rs:30 | the parse succeeds exactly when the codec parses the text, with its value; a failure is `Deserialize` with the codec's reason |
| Formats.LoadOrWriteStr | fs_ext/src/core/file/loading/load_or_write_str.rs:10-35 | an existing file is just loaded, with nothing written; an I/O failure changes nothing |
| Formats.WriteStrWritesFirst | fs_ext/src/core/file/loading/load_or_write_str.rs:23-31 | once the create succeeds the file holds the text verbatim, even when it does not parse, and the result is the parse of the text |
| Formats.WriteStrNeverReplaces | fs_ext/src/core/file/loading/load_or_write_str.rs:24-28 | an entry at the path that cannot be read is never replaced: the create fails with an I/O error and nothing changes |
| Formats.LoadOrWriteText | fs_ext/src/core/file/loading/load_or_write_str.rs:10-35 | the imperative version ends in the state and result of `LoadOrWriteStr` |
| Formats.FormatOfExt | fs_ext/src/core/file/saving/save_auto.rs:26-29 | after ASCII lower-casing: TOML exactly for "toml", JSON exactly for "json", YAML exactly for "yaml" or "yml" |
| Formats.FormatOfExtIgnoresCase | fs_ext/src/core/file/saving/save_auto.rs:16-17 | extensions that differ only in ASCII case choose the same format |
| Formats.FormatOfExtExamples | fs_ext/src/core/file/saving/save_auto.rs:102-126 | "JSON", "YaMl", "ToMl" and "yml" are recognised; "txt" is not |
| Formats.FormatFor | fs_ext/src/core/file/saving/save_auto.rs:16-39 | a format is chosen exactly when the path has a recognised extension; otherwise `InvalidInput`, saying "has no extension" or naming the unsupported extension and the path |
| Formats.SaveAuto | fs_ext/src/core/file/saving/save_auto.rs:10-40 | an unrecognised or missing extension fails with nothing written; otherwise `save` with the chosen format |
| Formats.LoadAuto | fs_ext/src/core/file/loading/load_auto.rs:10-40 | an unrecognised or missing extension fails without loading; otherwise `load` with the chosen format |
| Formats.SaveAutoThenLoadAuto | fs_ext/src/core/file/saving/save_auto.rs:57-126 | what `save_auto` wrote, `load_auto` reads back, whatever the case of the extension |
| Formats.SaveAutoFile | fs_ext/src/core/file/saving/save_auto.rs:10-40 | the imperative `save_auto` ends in the state and result of `SaveAuto` |
| Reading.ReadFailed | src/fsx/file/reading/read_string_or_init.rs:30-33 | a read failure keeps the system's kind, names the path and ends with the system's message |
| Reading.NotUtf8 | src/fsx/file/reading/read_string_or_init.rs:22-27 | default content that is not UTF-8 gives `InvalidData`, naming the path |
| Reading.WriteFailed | src/fsx/file/reading/read_string_or_init.rs:15-20 | a failed write of the default content keeps the system's kind and names the path |
| Reading.ReadOrInitLazy | fs_ext/src/fsx/file/reading/read_string_or_init_with.rs:3-40 | the closure runs exactly when the file is missing; an existing file is never written; a failure changes nothing; a result is always UTF-8; an existing UTF-8 file's text is returned; a non-UTF-8 file or non-UTF-8 default content is `InvalidData`, the latter with nothing written |
| Reading.LazyInitThenRead | fs_ext/src/fsx/file/reading/read_string_or_init_with.rs:66-112 | a missing file is created holding exactly the closure's bytes, which are returned once with one closure call, and reading the file afterwards gives them back |
| Reading.ReadStringOrInitLazy | fs_ext/src/fsx/file/reading/read_string_or_init_with.rs:3-40 | the imperative version ends in the state, result and closure-call count of `ReadOrInitLazy` |
| Reading.ReadOrInit | src/fsx/file/reading/read_string_or_init.rs:10-35 | an existing file is never written, and its UTF-8 text is returned; a read failure names the path; a result is always UTF-8; a missing file is written first and the content checked afterwards |
| Reading.CheckOrderMatters | src/fsx/file/reading/read_string_or_init.rs:14-28 | on non-UTF-8 default content both orders fail alike, but checking first leaves the state untouched while writing first leaves the file on disk |
| Reading.CheckOrderAgreesOnText | fs_ext/src/fsx/file/reading/read_string_or_init_with.rs:13-33 | on UTF-8 default content the check-first and write-first orders give the same state and result |
| Reading.ReadStringOrInit | src/fsx/file/reading/read_string_or_init.rs:10-35 | the imperative version ends in the state and result of `ReadOrInit` |
| Reading.ReadOrInitEager | src/fsx/file/reading/read_string_or_init_with.rs:3-34 | the closure runs exactly once, before the file is read, and the call then behaves as `read_string_or_init` with its bytes |
| Reading.EagerAgreesWithLazy | src/fsx/file/reading/read_string_or_init_with.rs:3-34 | for UTF-8 default content the eager and the lazy variant agree on state and result; only the lazy one skips the closure for an existing file |
| Reading.ReadStringOrInitEager | src/fsx/file/reading/read_string_or_init_with.rs:3-34 | the imperative version ends in the state, result and closure-call count of `ReadOrInitEager` |
| Ensure.NotAFile | src/fsx/file/creation/ensure_or_init.rs:23-31 | an existing entry that is not a file is refused with `InvalidInput`, naming the path |
| Ensure.InspectExisting | src/fsx/file/creation/ensure_or_init.rs:18-34 | an existing entry passes exactly when, links followed, it is a regular file; otherwise the metadata error's kind or the not-a-file error |
| Ensure.CreateNewOnExisting | src/fsx/file/creation/ensure_or_init.rs:12-18 | `create_new` on anything already there fails with `AlreadyExists` and changes nothing |
| Ensure.EnsureOrInitWithSpec | src/fsx/file/creation/ensure_or_init_with.rs:15-51 | `true` exactly when `create_new` succeeded, and then the file holds the closure's bytes after one closure call; otherwise nothing changes and the closure is not called; `false` only for an existing regular file; other create failures name the path |
| Ensure.EnsureOnExisting | src/fsx/file/creation/ensure_or_init_with.rs:74-100 | an existing file gives `false` with nothing changed and no closure call; a directory is refused as not a file |
| Ensure.EnsureInitThenRead | src/fsx/file/creation/ensure_or_init_with.rs:62-72 | after the call, reading the file gives the closure's bytes |
| Ensure.EnsureOrInitWith | src/fsx/file/creation/ensure_or_init_with.rs:15-51 | the imperative version ends in the state, result and closure-call count of `EnsureOrInitWithSpec` |
| Ensure.EnsureOrInit | src/fsx/file/creation/ensure_or_init.rs:11-42 | `ensure_or_init` is `ensure_or_init_with` with a closure returning the content |
| Ensure.EnsureOrInitFile | src/fsx/file/creation/ensure_or_init.rs:11-42 | the imperative version ends in the state and result of `EnsureOrInit` |
| Ensure.Touch | src/fsx/file/creation/touch.rs:7-38 | `true` exactly when `create_new` succeeded, leaving an empty file; any failure changes nothing; other create failures name the path |
| Ensure.TouchExisting | src/fsx/file/creation/touch.rs:65-111 | an existing file keeps its bytes and gets modification time `now`, so a later `now` makes it newer; a directory is refused with nothing changed |
| Ensure.TouchFile | src/fsx/file/creation/touch.rs:7-38 | the imperative version ends in the state and result of `Touch` |
| Ensure.TouchHandle | fs_ext/src/core/file/creation/touch.rs:16-33 | on success the handle is on the path, which is a regular file with modification time `now`; an open failure changes nothing and names the path |
| Ensure.TouchHandleCases | fs_ext/src/core/file/creation/touch.rs:48-92 | a missing file is created empty with time `now`; an existing file keeps its bytes with time `now`; a directory is refused with `IsADirectory` and nothing changed |
| Ensure.TouchVariantsAgreeOnFiles | fs_ext/src/core/file/creation/touch.rs:16-33 | on an existing regular file both `touch` variants reach the same state |
| Ensure.TouchHandleFile | fs_ext/src/core/file/creation/touch.rs:16-33 | the imperative version ends in the state and result of `TouchHandle` |
| CreateIfMissing.InferPathType | src/utils/infer_path_type.rs:3-10 | a path whose text ends in '/' or '\\' is a directory; otherwise a file exactly when it has an extension |
| CreateIfMissing.InferPathTypeExamples | src/utils/infer_path_type.rs:3-10 | "notes.txt" is a file; "notes.txt/", "Makefile" and ".bashrc" are directories |
| CreateIfMissing.CreateFileOrDir | src/utils/create_file_or_dir.rs:7-19 | a directory path gets `create_dir_all`; a file path, once its parents are created, ends as an empty regular file |
| CreateIfMissing.CreateFileOrDirWellFormed | src/utils/create_file_or_dir.rs:7-19 | creating a file or a directory keeps every entry's parent a directory |
| CreateIfMissing.WritableWellFormed | src/utils/create_file_or_dir.rs:14 | where `File::create` succeeds, putting a file there keeps the tree well formed |
| CreateIfMissing.CreateIfMissingSpec | src/fsx/core/create_if_missing.rs:10-16 | any existing entry gives `Ok` with nothing changed; a missing path is `create_file_or_dir`; any other metadata error is returned unchanged with nothing changed |
| CreateIfMissing.CreateIfMissingLeavesEntry | src/fsx/core/create_if_missing.rs:10-16 | after success something is at the path |
| CreateIfMissing.CreateIfMissing | src/fsx/core/create_if_missing.rs:10-16 | the imperative version ends in the state and result of `CreateIfMissingSpec` |
| CreateIfMissing.CreateFileIfMissing | src/fsx/file/create_if_missing.rs:1-38 | an existing regular file is left alone, content ignored; any other entry gives `InvalidInput` "Path exists but is not a file"; other metadata errors pass through; a created file holds exactly the content, or nothing in the one-argument arm |
| CreateIfMissing.CreateFileIfMissingWellFormed | src/fsx/file/create_if_missing.rs:11-17 | creating the file and its parents keeps the tree well formed |
| Checks.WrongType | fs_ext/src/core/file/checks/assert_exists.rs:13-22 | an entry of the wrong type gives `InvalidInput`, naming the path |
| Checks.AccessFailed | fs_ext/src/core/file/checks/assert_exists.rs:9-11 | an access error keeps its kind and names the path |
| Checks.FileAssertExists | fs_ext/src/core/file/checks/assert_exists.rs:8-25 | `Ok` exactly for an existing regular file; a missing path gives `NotFound`; a non-file gives the wrong-type error; a metadata error keeps its kind and names the path |
| Checks.FileAssertNotExists | fs_ext/src/core/fsx/file/checks/assert_not_exists.rs:7-32 | `Ok` exactly for a missing path; a file gives `AlreadyExists` "unexpectedly exists"; a non-file gives the wrong-type error; other errors keep their kind and name the path |
| Checks.FileExists | fs_ext/src/core/file/checks/exists.rs:8-16 | `true` exactly for a regular file; an error exactly for a metadata failure other than `NotFound`, naming the path |
| Checks.FileChecksAgree | fs_ext/src/core/file/checks/exists.rs:8-16 | `exists` is `true` exactly when `assert_exists` passes; `assert_exists` and `assert_not_exists` never both pass |
| Checks.DirAssertExists | fs_ext/src/fsx/dir/checks/assert_exists.rs:11-26 | `Ok` exactly for an existing directory; a missing path gives `NotFound`; a non-directory gives the wrong-type error |
| Checks.DirExists | fs_ext/src/fsx/dir/checks/exists.rs:13-19 | `true` exactly for a directory; an error exactly for a metadata failure other than `NotFound`, naming the path |
| Checks.DirAssertNotExists | fs_ext/src/core/dir/checks/assert_not_exists.rs:11-24 | `Ok` exactly for a missing path; any existing entry gives `AlreadyExists`; other errors carry "Failed to get metadata" and the path |
| Checks.DirChecksAgree | fs_ext/src/core/dir/checks/assert_not_exists.rs:6-24 | `exists` agrees with `assert_exists`; the file and directory not-exists checks pass on the same paths; no path is both a directory and a file |
| Fs.Parent | fs_ext/src/core/file/atomic.rs:12-14 | a path has a parent exactly when it has a component, and the parent is the path without its last component |
| Fs.Metadata | src/fsx/core/create_if_missing.rs:11 | `fs::metadata` follows links, so it never reports a symbolic link |
| Fs.ReadFile | fs_ext/src/core/dir/utils/copy_contents.rs:30 | reading succeeds exactly on a regular file, links followed, and gives its bytes |
| Fs.ReadToString | src/fsx/file/reading/read_string_or_init.rs:11 | succeeds exactly on a regular file holding UTF-8 and gives its bytes; an unreadable path keeps the read's error; non-UTF-8 content is `InvalidData`; the error is `NotFound` exactly when the path is missing |
| Fs.ListDir | fs_ext/src/core/dir/utils/clear.rs:14-16 | `read_dir` succeeds exactly on a directory and lists each child name once |
| Fs.Ascending | fs_ext/src/core/dir/utils/copy_contents.rs:14-16 | the listing order: every child once, in ascending name order |
| Fs.CreateNewFile | src/fsx/file/creation/ensure_or_init.rs:12 | `create_new` adds an empty file only where nothing was; a failure changes nothing; an existing entry gives `AlreadyExists`, and `AlreadyExists` means something is there |
| Fs.OpenCreate | fs_ext/src/core/file/creation/touch.rs:17 | opening with `create` makes an empty file on a free path with a usable parent; on a regular file it succeeds, emptying it when truncating and otherwise changing nothing; a directory gives `IsADirectory`; a failure changes nothing |
| Fs.WriteFile | src/fsx/file/reading/read_string_or_init.rs:15 | `fs::write` leaves exactly the bytes at the path and changes nothing else; a failure changes nothing |
| Fs.SetTimes | src/fsx/file/creation/touch.rs:28-29 | on a regular file the bytes stay and the modification time becomes `now`; a directory is left as it is; a metadata error is the result; a failure changes nothing |
| Fs.Rename | fs_ext/src/core/types/temp_file.rs:51-59 | a rename moves a regular file onto the destination, replacing what was there, all or nothing |
| Fs.RenameNoClobber | fs_ext/src/core/types/temp_file.rs:41-49 | the no-clobber rename succeeds only where the destination is free; a failure changes nothing |
| Fs.RemoveFile | fs_ext/src/core/dir/utils/clear.rs:26 | removing deletes exactly that entry; a failure changes nothing |
| Fs.RemoveDirAll | fs_ext/src/core/dir/utils/clear.rs:23-24 | `remove_dir_all` deletes exactly the subtree, all or nothing |
| Fs.MkDir | fs_ext/src/core/dir/utils/copy_contents.rs:27 | creating a directory adds it only where nothing was; a failure changes nothing |
| Fs.CreateDirAll | src/utils/create_file_or_dir.rs:11-17 | `create_dir_all` leaves a directory at the path, keeps every existing entry, and adds only directories on the path's own prefixes |
| Fs.CopyFile | fs_ext/src/core/dir/utils/copy_contents.rs:30 | `fs::copy` gives the destination exactly the source's bytes and changes nothing else; a failure changes nothing |
| Fs.CreateNewFileWellFormed | src/fsx/file/creation/ensure_or_init.rs:12 | `create_new` keeps every entry's parent a directory |
| Fs.MkDirWellFormed | fs_ext/src/core/dir/utils/copy_contents.rs:27 | creating a directory keeps the tree well formed |
| Fs.CreateDirAllWellFormed | src/utils/create_file_or_dir.rs:11-17 | `create_dir_all` keeps the tree well formed |
| Fs.RenameWellFormed | fs_ext/src/core/types/temp_file.rs:51-59 | renaming a file keeps the tree well formed |
| Fs.RemoveFileWellFormed | fs_ext/src/core/dir/utils/clear.rs:26 | removing a file keeps the tree well formed |
| Fs.RemoveDirAllWellFormed | fs_ext/src/core/dir/utils/clear.rs:23-24 | removing a subtree keeps the tree well formed |
| Text.LeadWidth | src/fsx/file/reading/read_string_or_init.rs:22 | the well-formed sequence at the head of the bytes is at most four bytes long, and one byte long exactly for an ASCII byte |
| Text.AsciiIsUtf8 | src/fsx/file/reading/read_string_or_init.rs:22 | ASCII bytes always pass the UTF-8 check |
| Text.Utf8Concat | src/fsx/file/reading/read_string_or_init.rs:22 | two UTF-8 texts laid end to end are UTF-8 |
| Text.LeadWidthPrefix | src/fsx/file/reading/read_string_or_init.rs:22 | the width of the head sequence depends only on its own bytes |
| Text.InvalidLeadByte | fs_ext/src/fsx/file/reading/read_string_or_init_with.rs:114-133 | bytes starting with 0xFF fail the UTF-8 check |
| Text.Lower | fs_ext/src/core/file/saving/save_auto.rs:17 | ASCII lower-casing keeps the length and changes each character on its own |
| Text.LowerIdempotent | fs_ext/src/core/file/saving/save_auto.rs:17 | lower-casing twice gives what lower-casing once gives |
| Text.NormalizeExt | fs_ext/src/core/types/dir_query/impls/helpers.rs:12 | a normalised extension is no longer than the input, has no leading dot, and is lower case |
| Text.NormalizeExtOpt | fs_ext/src/fsx/dir/query/executors/collect.rs:73 | the `Option` variant is `None` exactly when the normalised text is empty, and otherwise that text |
| Text.NatToString | fs_ext/src/core/file/atomic/create_with.rs:285-317 | a counter's decimal text: digits only, no leading zero, and it denotes the counter (`Text.DigitsValue`) |
| Text.NatToStringInjective | fs_ext/src/core/file/atomic/create_with.rs:285-317 | different counters give different texts, so different `_n` names |
| DirCopy.CreateNewDir | fs_ext/src/core/dir/utils/copy_contents.rs:27 | `dir::create_new` adds a directory only where nothing was, fails wherever something is, and changes nothing on failure |
| DirCopy.EnsureDir | fs_ext/src/core/fsx/dir/utils/copy.rs:12 | `dir::ensure` leaves a directory at the path, keeps every existing entry and adds only the path's missing prefixes |
| DirCopy.CopyContents | fs_ext/src/core/dir/utils/copy_contents.rs:10-39 | nothing outside `dst`'s subtree changes and nothing is removed; unless both ends are directories it fails with nothing changed |
| DirCopy.CopyEntries | fs_ext/src/core/dir/utils/copy_contents.rs:16-36 | the loop changes only what lies under `dst` at the listed names and removes nothing |
| DirCopy.CopyEntry | fs_ext/src/core/dir/utils/copy_contents.rs:17-35 | one entry changes only what lies under `dst` at its own name and removes nothing |
| DirCopy.ContentsReproduced | fs_ext/src/core/dir/utils/copy_contents.rs:49-78 | after a successful copy between disjoint directories, every regular file anywhere below `src` is at the same relative path below `dst` with the same bytes, and every subdirectory is a directory there |
| DirCopy.EntriesReproduced | fs_ext/src/core/dir/utils/copy_contents.rs:16-36 | the loop reproduces everything under each name it went through |
| DirCopy.EntryReproduced | fs_ext/src/core/dir/utils/copy_contents.rs:26-35 | one entry, and everything below it, is reproduced: a file by copy, a directory by creation and recursion |
| DirCopy.EntriesStopAtTakenDir | fs_ext/src/core/dir/utils/copy_contents.rs:27 | the loop fails once it reaches a source directory whose name is already taken in `dst` |
| DirCopy.ExistingSubdirFails | fs_ext/src/core/dir/utils/copy_contents.rs:118-130 | a source subdirectory whose name already exists in `dst` makes the copy fail |
| DirCopy.Copy | fs_ext/src/core/fsx/dir/utils/copy.rs:10-14 | a `src` that is not a directory fails as `dir::assert_exists` does; a `dst` that is a file fails |
| DirCopy.CopyIntoNewDst | fs_ext/src/core/fsx/dir/utils/copy.rs:24-41 | a missing `dst` is created as a directory and the whole tree is reproduced in it |
| DirCopy.CopyTwiceFails | fs_ext/src/core/fsx/dir/utils/copy.rs:87-107 | copying a tree holding a subdirectory into the same `dst` twice fails the second time |
| DirCopy.CopyDirContents | fs_ext/src/core/dir/utils/copy_contents.rs:10-39 | the imperative loop with recursion ends in the state and result of `CopyContents` |
| DirCopy.CopyDir | fs_ext/src/core/fsx/dir/utils/copy.rs:10-14 | the imperative `copy` ends in the state and result of `Copy` |
| DirClear.ClearEntry | fs_ext/src/core/dir/utils/clear.rs:17-27 | one entry removes only what lies under its own name and adds nothing; a failure changes nothing and names the child path |
| DirClear.ClearEntries | fs_ext/src/core/dir/utils/clear.rs:16-28 | the loop removes only what lies under the listed names and adds nothing; a failure names one of those children |
| DirClear.Clear | fs_ext/src/core/dir/utils/clear.rs:11-31 | a path that is not a directory fails as `dir::assert_exists` does: `NotFound` if missing, `InvalidInput` otherwise; nothing outside the subtree changes and nothing is added |
| DirClear.EntriesRemoved | fs_ext/src/core/dir/utils/clear.rs:16-28 | a finished loop has removed everything under each name it went through |
| DirClear.ClearEmpties | fs_ext/src/core/dir/utils/clear.rs:52-66 | after a successful clear nothing is below the directory, which has no children, and the directory itself remains |
| DirClear.ClearIdempotent | fs_ext/src/core/dir/utils/clear.rs:68-82 | clearing the emptied directory again succeeds and changes nothing |
| DirClear.ClearDir | fs_ext/src/core/dir/utils/clear.rs:11-31 | the imperative loop ends in the state and result of `Clear` |
| DirWalk.Walk | fs_ext/src/core/fsx/dir/checks/size.rs:17 | the walk yields the root first, and every entry lies at or below the root with its depth counted from the root and within the limit |
| DirWalk.Contents | fs_ext/src/core/types/dir_query/impls/executors/collect.rs:19 | what a directory yields lies below it within the limit; a walk inside it without error means its listing succeeded |
| DirWalk.Names | fs_ext/src/core/types/dir_query/impls/executors/collect.rs:19 | what the loop over listed names yields lies below the directory within the limit |
| DirWalk.WalkError | fs_ext/src/core/types/dir_query/impls/executors/collect.rs:20-27 | a walk error keeps its kind and says "walk error at" with the path |
| DirWalk.MetadataError | fs_ext/src/core/types/dir_query/impls/executors/collect.rs:31-41 | an entry's metadata error keeps its kind and says "metadata error under" with the root |
| DirWalk.ContentsCover | fs_ext/src/core/types/dir_query/impls/executors/collect.rs:19 | on a well-formed tree a directory's walk without error yields exactly the entries below it within the limit, each once |
| DirWalk.NamesCover | fs_ext/src/core/types/dir_query/impls/executors/collect.rs:19 | the loop over listed names yields exactly the entries under those names within the limit, each once |
| DirWalk.WalkCovers | fs_ext/src/core/fsx/dir/checks/size.rs:17 | a walk without error yields exactly the root and the entries below it within the limit, each once |
| DirWalk.ContentsSucceed | fs_ext/src/core/fsx/dir/checks/size.rs:17-25 | where every entry may be read, walking a directory meets no error |
| DirWalk.NamesSucceed | fs_ext/src/core/fsx/dir/checks/size.rs:17-25 | where every entry may be read, the loop over listed names meets no error |
| DirWalk.WalkSucceeds | fs_ext/src/core/fsx/dir/checks/size.rs:17-25 | where every entry may be read, a walk from a directory meets no error |
| DirSize.Contribution | fs_ext/src/core/fsx/dir/checks/size.rs:18-40 | a walk error fails with its kind; a regular file adds its length; anything else adds nothing; only an unreadable file's metadata fails |
| DirSize.Total | fs_ext/src/core/fsx/dir/checks/size.rs:17-41 | the total succeeds exactly when every item contributes, and only on a walk without error |
| DirSize.Size | fs_ext/src/core/fsx/dir/checks/size.rs:12-44 | a path that is not a directory fails as `dir::assert_exists` does |
| DirSize.SetBytesRemove | fs_ext/src/core/fsx/dir/checks/size.rs:39 | the sum over a set of files does not depend on the order of adding |
| DirSize.SeqBytesIsSetBytes | fs_ext/src/core/fsx/dir/checks/size.rs:17-41 | a sequence of paths without repeats adds up to the sum over its members |
| DirSize.TotalIsSeqBytes | fs_ext/src/core/fsx/dir/checks/size.rs:17-41 | a total that succeeds is the sum of the file lengths along the walk |
| DirSize.SizeCountsEveryFile | fs_ext/src/core/fsx/dir/checks/size.rs:17-41 | on a well-formed tree, a size that succeeds is the total length of the regular files anywhere in the subtree |
| DirSize.SizeSucceeds | fs_ext/src/core/fsx/dir/checks/size.rs:12-44 | on a well-formed tree where every entry may be read, the size of a directory succeeds |
| DirSize.EmptyDirIsZero | fs_ext/src/core/fsx/dir/checks/size.rs:54-59 | a directory with nothing in it has size 0 |
| DirSize.NestedTreeWellFormed | fs_ext/src/core/fsx/dir/checks/size.rs:61-74 | the test's tree is well formed |
| DirSize.NestedSubtree | fs_ext/src/core/fsx/dir/checks/size.rs:61-74 | the test's tree holds the root, `a.bin`, `sub` and `sub/b.txt` |
| DirSize.NestedBytes | fs_ext/src/core/fsx/dir/checks/size.rs:61-74 | its files hold 10 and 5 bytes |
| DirSize.NestedFilesExample | fs_ext/src/core/fsx/dir/checks/size.rs:61-74 | a 10-byte file beside a directory holding a 5-byte file gives 15 |
| DirSize.DirSizeOf | fs_ext/src/core/fsx/dir/checks/size.rs:12-44 | the imperative loop returns `Size` |
| ExtFilter.NormalizedSet | fs_ext/src/core/types/dir_query/types/extension_filter.rs:15-21 | the set holds exactly the non-empty normalised forms of the given extensions |
| ExtFilter.AllowList | fs_ext/src/core/types/dir_query/types/extension_filter.rs:10-22 | `allow` is an allow list over the normalised, non-empty extensions |
| ExtFilter.DenyList | fs_ext/src/core/types/dir_query/types/extension_filter.rs:24-36 | `deny` is a deny list over the normalised, non-empty extensions |
| ExtFilter.NormalizedSetIsNormal | fs_ext/src/core/types/dir_query/types/extension_filter.rs:18-19 | a built set never holds the empty extension, and its members are already normal |
| ExtFilter.NormalizeExtIdempotent | fs_ext/src/core/types/dir_query/impls/helpers.rs:12 | normalising twice gives what normalising once gives |
| ExtFilter.ExtAllowed | fs_ext/src/core/types/dir_query/impls/helpers.rs:7-21 | no filter passes everything; an allow list passes exactly the names whose normalised extension it holds; a deny list passes exactly the extensionless names and those whose normalised extension it lacks |
| ExtFilter.IsExtensionAllowed | fs_ext/src/core/types/dir_query/impls/helpers.rs:7-21 | the check on a path is the check on the extension of its last name |
| ExtFilter.EmptyListsDecideEverything | fs_ext/src/core/types/dir_query/impls/helpers.rs:139-156 | an empty allow list rejects everything; an empty deny list passes everything |
| ExtFilter.AllowDenyComplement | fs_ext/src/core/types/dir_query/impls/helpers.rs:15-16 | on names with an extension, allow and deny over one set are complements |
| ExtFilter.NormalizeUndotted | fs_ext/src/core/types/dir_query/impls/helpers.rs:12 | for an extension without dots, normalising is ASCII lower-casing |
| ExtFilter.ExtAllowedIgnoresCase | fs_ext/src/core/types/dir_query/impls/helpers.rs:127-136 | extensions that differ only in ASCII case pass the same filters |
| ExtFilter.ExtAllowedExamples | fs_ext/src/core/types/dir_query/impls/helpers.rs:47-177 | only the last extension counts; dotfiles have none; "RS" passes "rs"; an allow list rejects extensionless names and a deny list keeps them |
| ExtFilter.MatchesExtensionFilter | fs_ext/src/fsx/dir/query/executors/collect.rs:72-94 | a name with an extension passes exactly when a non-empty allow set holds it (or the allow set is empty) and the deny set lacks it; an extensionless name passes exactly when both sets are empty |
| ExtFilter.NoSetsPassEverything | fs_ext/src/fsx/dir/query/executors/collect.rs:89-92 | with both sets empty every file passes |
| ExtFilter.CoreAndFsxFilters | fs_ext/src/fsx/dir/query/executors/collect.rs:72-94 | the two filters agree on names with an extension, but for extensionless names a non-empty deny set keeps them in the core filter and drops them in the fsx one |
| DirQuery.NewQuery | fs_ext/src/core/types/dir_query/core.rs:18-28 | a new query has the given root, files, directories and recursion on, no limit, no depth cap and no filter |
| DirQuery.IncludeFiles | fs_ext/src/core/types/dir_query/impls/builder.rs:4-7 | sets `include_files` and changes no other field |
| DirQuery.IncludeDirs | fs_ext/src/core/types/dir_query/impls/builder.rs:9-12 | sets `include_dirs` and changes no other field |
| DirQuery.Recursive | fs_ext/src/core/types/dir_query/impls/builder.rs:14-17 | sets `recursive` and changes no other field |
| DirQuery.Limit | fs_ext/src/core/types/dir_query/impls/builder.rs:19-22 | sets the limit to `Some(n)` and changes no other field |
| DirQuery.Depth | fs_ext/src/core/types/dir_query/impls/builder.rs:24-27 | sets the depth to `Some(n)` and changes no other field |
| DirQuery.WithExtensionFilter | fs_ext/src/core/types/dir_query/impls/filters.rs:4-7 | sets the filter to `Some(f)` and changes no other field |
| DirQuery.AllowExtensions | fs_ext/src/core/types/dir_query/impls/filters.rs:9-16 | replaces the filter with an allow list built from the extensions, nothing else changed |
| DirQuery.DenyExtensions | fs_ext/src/core/types/dir_query/impls/filters.rs:18-25 | replaces the filter with a deny list built from the extensions, nothing else changed |
| DirQuery.LastSetterWins | fs_ext/src/core/types/dir_query/impls/filters.rs:14-23 | setting a field twice keeps the last value; an allow call and a deny call overwrite each other, without merging |
| DirQuery.DefaultOptions | fs_ext/src/core/types/dir_query/types/dir_query_options.rs:13-29 | the default options have files, directories and recursion on and no limit, depth or filter |
| DirQuery.DefaultOptionsMatchNewQuery | fs_ext/src/core/types/dir_query/types/dir_query_options.rs:13-29 | the default options carry exactly the defaults of `DirQuery::new` |
| DirQuery.OptIncludeFiles | fs_ext/src/core/types/dir_query/types/dir_query_options.rs:31-34 | sets `include_files` and changes no other field |
| DirQuery.OptIncludeDirs | fs_ext/src/core/types/dir_query/types/dir_query_options.rs:36-39 | sets `include_dirs` and changes no other field |
| DirQuery.OptRecursive | fs_ext/src/core/types/dir_query/types/dir_query_options.rs:41-44 | sets `recursive` and changes no other field |
| DirQuery.OptLimit | fs_ext/src/core/types/dir_query/types/dir_query_options.rs:46-49 | sets the limit and changes no other field |
| DirQuery.OptDepth | fs_ext/src/core/types/dir_query/types/dir_query_options.rs:51-54 | sets the depth and changes no other field |
| DirQuery.OptExtensionFilter | fs_ext/src/core/types/dir_query/types/dir_query_options.rs:56-59 | sets the filter and changes no other field |
| DirQuery.OptAllowExtensions | fs_ext/src/core/types/dir_query/types/dir_query_options.rs:61-68 | replaces the filter with a freshly built allow list |
| DirQuery.OptDenyExtensions | fs_ext/src/core/types/dir_query/types/dir_query_options.rs:70-77 | replaces the filter with a freshly built deny list |
| DirQuery.NewFsxQuery | fs_ext/src/fsx/dir/query/builder.rs:19-30 | a new fsx query has the given root, files, directories and recursion on, no limit or depth, and empty allow and deny sets |
| DirQuery.FsxIncludeFiles | fs_ext/src/fsx/dir/query/builder.rs:32-35 | sets `include_files` and changes no other field |
| DirQuery.FsxIncludeDirs | fs_ext/src/fsx/dir/query/builder.rs:37-40 | sets `include_dirs` and changes no other field |
| DirQuery.FsxRecursive | fs_ext/src/fsx/dir/query/builder.rs:42-45 | sets `recursive` and changes no other field |
| DirQuery.FsxLimit | fs_ext/src/fsx/dir/query/builder.rs:47-50 | sets the limit and changes no other field |
| DirQuery.FsxDepth | fs_ext/src/fsx/dir/query/builder.rs:52-55 | sets the depth and changes no other field |
| DirQuery.FilterExtension | fs_ext/src/core/types/dir_query/filters.rs:4-9 | the allow set gains the normalised extension, or nothing when it normalises to nothing; no other field changes |
| DirQuery.ExcludeExtension | fs_ext/src/core/types/dir_query/filters.rs:24-29 | the deny set gains the normalised extension, or nothing; no other field changes |
| DirQuery.FilterExtensions | fs_ext/src/core/types/dir_query/filters.rs:11-22 | the loop leaves the allow set as the old set united with the normalised extensions, the deny set untouched |
| DirQuery.ExcludeExtensions | fs_ext/src/core/types/dir_query/filters.rs:31-42 | the loop leaves the deny set as the old set united with the normalised extensions, the allow set untouched |
| DirQuery.NormalizedSetConcat | fs_ext/src/core/types/dir_query/filters.rs:16-20 | normalising two lists laid end to end gives the union of their sets, so calls accumulate |
| DirQuery.Entries | fs_ext/src/fsx/dir/query/mod.rs:8-10 | `entries` is a query with every default |
| DirQuery.Files | fs_ext/src/fsx/dir/query/mod.rs:12-14 | `files` includes files and not directories, with the other defaults |
| DirQuery.Subdirs | fs_ext/src/fsx/dir/query/mod.rs:16-18 | `subdirs` includes directories and not files, with the other defaults |
| DirCollect.OfQuery | fs_ext/src/core/types/dir_query/impls/executors/collect.rs:46-52 | a core query selects files by its extension filter |
| DirCollect.OfFsxQuery | fs_ext/src/fsx/dir/query/executors/collect.rs:11-70 | an fsx query selects files by its allow and deny sets |
| DirCollect.MaxWalkDepth | fs_ext/src/core/types/dir_query/impls/executors/collect.rs:9-15 | a non-recursive query walks one level; a recursive one walks to its depth, or without a cap; a depth of 0 still walks one level, since walkdir raises a maximum below the minimum of 1 |
| DirCollect.Cap | fs_ext/src/core/types/dir_query/impls/executors/collect.rs:57-62 | with a limit, the result holds at most the larger of the limit and 1, since the limit is checked only after a push |
| DirCollect.Gather | fs_ext/src/core/types/dir_query/impls/executors/collect.rs:19-64 | the loop only appends to what it has gathered |
| DirCollect.Take | fs_ext/src/core/types/dir_query/impls/executors/collect.rs:57-62 | the result is the first `cap` items, or all of them when there are fewer or no cap |
| DirCollect.GatherTakes | fs_ext/src/core/types/dir_query/impls/executors/collect.rs:19-64 | a loop that succeeds returns, in walk order, the first `cap` matching entries |
| DirCollect.CollectTakes | fs_ext/src/core/types/dir_query/impls/executors/collect.rs:137-153 | `collect` returns the first matches of the walk in walk order, at most `max(limit, 1)` of them |
| DirCollect.MatchesMembers | fs_ext/src/core/types/dir_query/impls/executors/collect.rs:43-55 | an entry matches exactly when it is walked, is not the root, and is an included directory or accepted file; matches are distinct when the walk is |
| DirCollect.CollectResultsQualify | fs_ext/src/core/types/dir_query/impls/executors/collect.rs:87-135 | every result lies below the root within the walk depth and is included by the selection |
| DirCollect.PathsOfHas | fs_ext/src/core/types/dir_query/impls/executors/collect.rs:19 | a walked path comes from an entry of the walk |
| DirCollect.CollectFindsAll | fs_ext/src/core/types/dir_query/impls/executors/collect.rs:8-67 | on a readable well-formed tree with no limit, `collect` succeeds and returns exactly the included entries below the root within the depth, each once |
| DirCollect.GatherSucceeds | fs_ext/src/core/types/dir_query/impls/executors/collect.rs:19-64 | a walk without error over existing readable entries never fails the loop |
| DirCollect.MissingRootFails | fs_ext/src/core/types/dir_query/impls/executors/collect.rs:155-162 | a missing root fails with `NotFound` and "walk error at" |
| DirCollect.RunCollect | fs_ext/src/core/types/dir_query/impls/executors/collect.rs:8-67 | the imperative push-and-break loop returns `Collect` |
| StreamBytes.OpenRead | src/fsx/file/streaming/stream_bytes.rs:15 | a regular file opens onto its bytes; a directory opens but cannot be read; a metadata failure is the open's error |
| StreamBytes.OpenFailed | src/fsx/file/streaming/stream_bytes.rs:15-17 | an open failure keeps its kind and names the path |
| StreamBytes.ChunkFailed | src/fsx/file/streaming/stream_bytes.rs:41-44 | a read failure keeps its kind and names the path |
| StreamBytes.Open | src/fsx/file/streaming/stream_bytes.rs:9-18 | a zero chunk size is `InvalidInput` before the file is opened; an open failure names the path |
| StreamBytes.ReadCount | src/fsx/file/streaming/stream_bytes.rs:38-40 | one read returns nothing exactly at the end of the file, and otherwise between 1 byte and the smaller of the buffer and what is left, all of that when the system grants it |
| StreamBytes.NextStep | src/fsx/file/streaming/stream_bytes.rs:37-46 | a chunk is the next 1 to `chunk_size` bytes of the file, `None` comes exactly at the end of the file without a fault, and a failing read yields its error without moving |
| StreamBytes.ByteChunkIterator.Next | src/fsx/file/streaming/stream_bytes.rs:37-46 | the read into the buffer hands out the chunk and position of `NextStep` |
| StreamBytes.Stream | src/fsx/file/streaming/stream_bytes.rs:9-31 | an error is `Open`'s error; otherwise a fresh iterator at the start of the file with a buffer of `chunk_size` bytes |
| StreamBytes.Drain | src/fsx/file/streaming/stream_bytes.rs:37-46 | successive calls never move backwards or past the end of the file |
| StreamBytes.DrainRebuilds | src/fsx/file/streaming/stream_bytes.rs:30-40 | the chunks laid end to end are the bytes read so far, all of the rest of the file once `None` came, and each chunk holds 1 to `chunk_size` bytes |
| StreamBytes.DrainEnds | src/fsx/file/streaming/stream_bytes.rs:39 | more calls than bytes left always reach `None` |
| StreamBytes.FullReadsFillChunks | src/fsx/file/streaming/stream_bytes.rs:38-40 | when the system fills the buffer on each read, every chunk but the last holds exactly `chunk_size` bytes |

## Left out

- Asynchronous versions: the `tokio` facades run the same synchronous code on a blocking thread. Only the synchronous code is modelled.
- Serde codecs: `parse_str` and `to_string` are parameters of the model (`Formats.Codec`), and so are their error texts.
- Clock and randomness: the current time (`touch`), tempfile's random staging name, and the `Timestamp` / `Uuid` rename suffixes are parameters.
- Durability: fsync and crash behaviour are not modelled. A rename, and `remove_dir_all`, succeed or fail as a whole.
- Concurrency: other processes changing the filesystem between two calls are not modelled.
- Path text: paths are sequences of names below one base directory. Non-UTF-8 names, absolute paths, `..` and platform separators are left out, except where `PathExt` models Rust's `Components` view.
- Symbolic links: a link is followed, one level, only by `Fs.Metadata` and `Fs.ReadFile` and what is built on them. A link to a link, or a link that leaves the tree, does not resolve. A path is never resolved through a link in its middle, so nothing is listed, created or written below a link. The walk does not follow links into directories.
- ListDir (`Fs.ListDir`): `read_dir` on a link to a directory lists the link's own children, which are none, instead of the target's.
- Walk (`DirWalk.Walk`): a root that is a link to a directory yields nothing below it, where walkdir follows a root link; `collect` from such a root finds nothing.
- Clear (`DirClear.Clear`): on a link to a directory it removes nothing and succeeds, where the library empties the target.
- Size (`DirSize.Size`): on a link to a directory it gives 0, where the library sums the target's files.
- CopyContents (`DirCopy.CopyContents`): a source that is a link to a directory copies nothing, and a destination that is one fails with `NotADirectory`, where the library copies through the link.
- CreateCheck (`Fs.CreateCheck`): a parent that is a link to a directory is refused with `NotADirectory`.
- OpenCreate (`Fs.OpenCreate`): opening a link or a special file for writing fails with `Other`, where the system opens the link's target.
- WriteFile (`Fs.WriteFile`): writing through a link fails with `Other`, where `fs::write` writes the target.
- CopyFile (`Fs.CopyFile`): a destination that is a link fails with `Other`, where `fs::copy` writes the target.
- SetTimes (`Fs.SetTimes`): setting the times of a link to a file fails with `Other`, where the system sets the target's times.
- ReadFile (`Fs.ReadFile`): a special file (device, FIFO, socket) has no modelled contents; reading it fails with `Other`. The same holds for `StreamBytes.OpenRead`.
- Case: lower-casing is ASCII only, as `to_ascii_lowercase` does.
- `normalize_ext`: this collaborator is not part of this model. Its contract (drop leading dots, ASCII lower-case) is written from its uses. It is called as returning a `String` in the core filter and an `Option` in the `fsx` filter, and both shapes are modelled (`Text.NormalizeExt`, `Text.NormalizeExtOpt`).
- Directory listing order: `read_dir` is modelled as listing names in ascending order. The library promises no order, so the lemmas about `copy`, `clear`, `size` and `collect` that matter hold for the set of names.
- Depth bound: paths are at most `Fs.MaxDepth` (64) names deep; creating deeper ones fails with `InvalidFilename`. This bound is what lets the recursive copy and the walk terminate. The real limit is the system's path length.
- `walkdir`'s own error texts are modelled only up to the prefix the library adds ("walk error at"). Its rule that a maximum depth below the minimum is raised to the minimum is modelled in `DirCollect.MaxWalkDepth`.
- `size` adds lengths as unbounded numbers; overflow of the `u64` total is not modelled.
- `stream_bytes`: how many bytes one `read` returns and whether it fails are parameters of `Next` (`grant`, `fault`). Buffering in `BufReader` is not modelled.
- `ensure_or_init`: a `write_all` that fails after `create_new` succeeded (leaving an empty file) is not modelled; writes into a freshly created file succeed.
- `RenameOptions::generate_unique_path` and `ParentPolicy::ensure` are not part of this model. Their contracts come from the library's tests. The counter strategy tries 1 to `CreateWith.MaxCounter` (1000); that bound is a stand-in for the unshown one.
- Error messages are modelled as text where the library builds them. For messages the system or a crate produces, only the parts the library controls are stated (kind kept, path named).
- `Formats.ReadString`: the UTF-8 error's byte position in `std::str::Utf8Error`'s message is not modelled.
- The thin single-call wrappers (plain `read_string`, `read_bytes`, `read_lines`, file `size` and `is_empty`, permission probes, `remove` and `trash`), the test-generating macro and the convenience macros are not modelled separately. Their behaviour is that of the `Fs` primitives they call.

## Findings

| source | as written | input that shows it | evidently intended | confidence | as-written member | corrected member |
|---|---|---|---|---|---|---|
| fs_ext/src/traits/path_ext.rs:52-63 | `kind` reads `fs::metadata`, which follows symbolic links, then tests for a directory, a file and a link in that order, so the link arm can never be taken | a symbolic link to a regular file: `kind` reports `File`, never `SymLink` | read `fs::symlink_metadata`, so that a link is reported as `SymLink` | not executed | PathExt.KindNeverReportsSymLink | PathExt.KindOfEntryDetectsSymLink |
