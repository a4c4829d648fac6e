/** Copying a directory tree: every regular file under the source is copied to the same
  * relative path under the destination, subdirectories are created new (so one already in
  * the destination is an error), and entries that are neither are skipped. */
module DirCopy {
  import opened Io
  import opened Fs
  import opened IoResultExt
  import Checks

  /** `dir::create_new`: `create_dir`, naming the path in an error. */
  function CreateNewDir(st: FsState, p: Path): (o: Outcome<Unit>)
    ensures o.res.Ok? ==> p !in st.nodes && o.st == st.(nodes := st.nodes[p := Dir])
    ensures o.res.Err? ==> o.st == st
    ensures p in st.nodes ==> o.res.Err?
  {
    var m := MkDir(st, p);
    Outcome(m.st, WithPathContext(m.res, "failed to create directory", p))
  }

  /** The directory `ensure`: `create_dir_all`, naming the path in an error. */
  function EnsureDir(st: FsState, p: Path): (o: Outcome<Unit>)
    ensures o.res.Ok? ==> IsDir(o.st, p) || p == []
    ensures forall q :: q in st.nodes ==> q in o.st.nodes && o.st.nodes[q] == st.nodes[q]
    ensures forall q :: q in o.st.nodes && q !in st.nodes ==> IsPrefix(q, p)
    ensures o.st.denied == st.denied && o.st.clock == st.clock
  {
    var c := CreateDirAll(st, p);
    Outcome(c.st, WithPathContext(c.res, "failed to create directory at", p))
  }

  /** Neither path is the other or lies below it. */
  predicate Disjoint(src: Path, dst: Path) { !IsPrefix(src, dst) && !IsPrefix(dst, src) }

  // ---------------------------------------------------------------- copy_dir_contents

  /** `copy_dir_contents(src, dst)`: both must be directories; then each entry of `src`, in
    * listing order, is copied under `dst`, and the first failure ends the copy with what was
    * copied so far left in place. The copy only ever adds or overwrites entries below
    * `dst`. */
  function CopyContents(st: FsState, src: Path, dst: Path): (o: Outcome<Unit>)
    ensures o.st.clock == st.clock && o.st.denied == st.denied
    ensures forall q :: !Below(q, dst) ==> SameAt(st, o.st, q)
    ensures forall q :: q in st.nodes ==> q in o.st.nodes
    ensures !IsDir(st, src) || !IsDir(st, dst) ==> o.st == st && o.res.Err?
    decreases MaxDepth - |src|, 1
  {
    var a := Checks.DirAssertExists(st, src);
    if a.Err? then Outcome(st, Err(a.error))
    else
      var b := Checks.DirAssertExists(st, dst);
      if b.Err? then Outcome(st, Err(b.error))
      else
        match WithPathContext(ListDir(st, src), "failed to read source directory", src)
        case Err(e) => Outcome(st, Err(e))
        case Ok(names) => CopyEntries(st, src, dst, names)
  }

  /** The loop over the listed names of `src`. A directory entry is created new under `dst`
    * and copied into; a regular file is copied over whatever file is there; anything else
    * is skipped. The file type is the entry's own (a link is not followed). */
  function CopyEntries(st: FsState, src: Path, dst: Path, names: seq<Name>): (o: Outcome<Unit>)
    ensures o.st.clock == st.clock && o.st.denied == st.denied
    ensures forall q :: !UnderSome(q, dst, names) ==> SameAt(st, o.st, q)
    ensures forall q :: q in st.nodes ==> q in o.st.nodes
    decreases MaxDepth - |src|, 0, |names|
  {
    if names == [] then Outcome(st, Ok(Unit))
    else
      var first := CopyEntry(st, src, dst, names[0]);
      if first.res.Err? then first
      else
        UnderSomeSplit(dst, names);
        CopyEntries(first.st, src, dst, names[1..])
  }

  /** One entry of the loop. */
  function CopyEntry(st: FsState, src: Path, dst: Path, n: Name): (o: Outcome<Unit>)
    ensures o.st.clock == st.clock && o.st.denied == st.denied
    ensures forall q :: !UnderSome(q, dst, [n]) ==> SameAt(st, o.st, q)
    ensures forall q :: q in st.nodes ==> q in o.st.nodes
    decreases MaxDepth - |src|, 0, 0
  {
    var child, target := src + [n], dst + [n];
    var ft := if |child| > MaxDepth then Err(OsError(InvalidFilename)) else SymlinkMetadata(st, child);
    if ft.Err? then Outcome(st, Err(Ctx(ft.error, "failed to read file type", child)))
    else if ft.value.Dir? then
      var mk := CreateNewDir(st, target);
      if mk.res.Err? then mk
      else
        var sub := CopyContents(mk.st, child, target);
        FrameBelow(st, mk.st, sub.st, dst, n);
        sub
    else if ft.value.File? then
      var cp := CopyFile(st, child, target);
      Outcome(cp.st, if cp.res.Ok? then Ok(Unit) else Err(Ctx2(cp.res.error, "failed to copy", child, target)))
    else Outcome(st, Ok(Unit))
  }

  /** Creating `dst + [n]` and then changing only what lies below it changes nothing
    * outside `dst + [n]`'s subtree. */
  lemma FrameBelow(st: FsState, mid: FsState, last: FsState, dst: Path, n: Name)
    requires mid == st.(nodes := st.nodes[dst + [n] := Dir])
    requires forall q :: !Below(q, dst + [n]) ==> SameAt(mid, last, q)
    ensures forall q :: !UnderSome(q, dst, [n]) ==> SameAt(st, last, q)
  {
    var t := dst + [n];
    forall q ensures UnderSome(q, dst, [n]) || SameAt(st, last, q) {
      if Below(q, t) || q == t {
        assert q[..|dst|] == t[..|dst|] == dst;
        assert q[|dst|] == t[|dst|] == n;
      }
    }
  }

  // ---------------------------------------------------------------- what a successful copy leaves

  /** The entries below `root` have directories for all their ancestors down from `root`
    * (true of every well-formed tree). */
  predicate TreeBelow(st: FsState, root: Path)
  {
    forall q, k :: q in st.nodes && |root| < k < |q| && q[..|root|] == root ==> q[..k] in st.nodes && st.nodes[q[..k]].Dir?
  }

  /** What is at `src + r` before the copy is reproduced at `dst + r` after it: a regular
    * file with the same bytes, a directory as a directory; an entry of another kind
    * directly in `src` leaves `dst + r` as it was. */
  predicate Reproduced(st0: FsState, st1: FsState, src: Path, dst: Path, r: Path)
  {
    src + r in st0.nodes ==>
      && (st0.nodes[src + r].File? ==> dst + r in st1.nodes && st1.nodes[dst + r] == File(st0.nodes[src + r].data, st0.clock))
      && (st0.nodes[src + r].Dir? ==> dst + r in st1.nodes && st1.nodes[dst + r] == Dir)
      && (|r| == 1 && !st0.nodes[src + r].File? && !st0.nodes[src + r].Dir? ==> SameAt(st0, st1, dst + r))
  }

  /** Two prefixes of one path are comparable. */
  lemma PrefixesComparable(a: Path, b: Path, q: Path)
    requires IsPrefix(a, q)
    ensures IsPrefix(b, q) ==> IsPrefix(a, b) || IsPrefix(b, a)
  {
    if IsPrefix(b, q) {
      if |a| <= |b| {
        assert b[..|a|] == q[..|a|];
      } else {
        assert a[..|b|] == q[..|b|];
      }
    }
  }

  /** A path that has `a + r` as a prefix has `a` as one. */
  lemma PrefixOfLonger(a: Path, r: Path, b: Path)
    ensures IsPrefix(a + r, b) ==> IsPrefix(a, b)
  {
    if IsPrefix(a + r, b) {
      assert b[..|a|] == (a + r)[..|a|];
    }
  }

  /** Going one name down on both sides keeps two paths disjoint. */
  lemma DisjointChild(src: Path, dst: Path, n: Name)
    requires Disjoint(src, dst)
    ensures Disjoint(src + [n], dst + [n])
  {
    if |src| <= |dst| {
      assert (dst + [n])[..|src|] == dst[..|src|];
    }
    if |dst| <= |src| {
      assert (src + [n])[..|dst|] == src[..|dst|];
    }
  }

  /** A tree below `src` is a tree below each of its entries. */
  lemma TreeBelowChild(st: FsState, src: Path, n: Name)
    requires TreeBelow(st, src)
    ensures TreeBelow(st, src + [n])
  {
    var c := src + [n];
    forall q, k | q in st.nodes && |c| < k < |q| && q[..|c|] == c ensures q[..k] in st.nodes && st.nodes[q[..k]].Dir? {
      assert q[..|src|] == c[..|src|] == src;
    }
  }

  /** A change confined below `dst` leaves everything at and below a disjoint `root` as it
    * was. */
  lemma Untouched(st: FsState, st': FsState, root: Path, dst: Path)
    requires Disjoint(root, dst)
    requires forall q :: !IsPrefix(dst, q) ==> SameAt(st, st', q)
    ensures forall q :: IsPrefix(root, q) ==> SameAt(st, st', q)
    ensures TreeBelow(st, root) ==> TreeBelow(st', root)
  {
    forall q | IsPrefix(root, q) ensures SameAt(st, st', q) {
      PrefixesComparable(root, dst, q);
    }
    if TreeBelow(st, root) {
      forall q, k | q in st'.nodes && |root| < k < |q| && q[..|root|] == root
        ensures q[..k] in st'.nodes && st'.nodes[q[..k]].Dir?
      {
        assert IsPrefix(root, q);
        assert q[..k][..|root|] == root;
        assert IsPrefix(root, q[..k]);
      }
    }
  }

  /** A copy made against one state holds against another that agrees on both ends. */
  lemma ReproducedTransfer(st0: FsState, st0': FsState, st1: FsState, src: Path, dst: Path, r: Path)
    requires Reproduced(st0', st1, src, dst, r)
    requires SameAt(st0, st0', src + r) && SameAt(st0, st0', dst + r) && st0.clock == st0'.clock
    ensures Reproduced(st0, st1, src, dst, r)
  {
  }

  /** A copy stays in place while the destination entry is not touched again. */
  lemma ReproducedKeep(st0: FsState, st1: FsState, st2: FsState, src: Path, dst: Path, r: Path)
    requires Reproduced(st0, st1, src, dst, r)
    requires SameAt(st1, st2, dst + r)
    ensures Reproduced(st0, st2, src, dst, r)
  {
  }

  /** A successful `copy_dir_contents` between disjoint directories reproduces every entry
    * below the source, at any depth, under the destination: the same bytes for regular files
    * (overwriting what was there), a directory for each directory, and nothing for other
    * entries. */
  lemma {:induction false} ContentsReproduced(st: FsState, src: Path, dst: Path)
    requires Disjoint(src, dst) && TreeBelow(st, src)
    requires CopyContents(st, src, dst).res.Ok?
    ensures forall r :: r != [] ==> Reproduced(st, CopyContents(st, src, dst).st, src, dst, r)
    decreases MaxDepth - |src|, 1
  {
    var names := ListDir(st, src).value;
    var o := CopyContents(st, src, dst);
    assert o == CopyEntries(st, src, dst, names);
    EntriesReproduced(st, src, dst, names);
    forall r | r != [] ensures Reproduced(st, o.st, src, dst, r) {
      if src + r in st.nodes {
        var c := src + [r[0]];
        if |r| > 1 {
          assert (src + r)[..|src| + 1] == c;
        } else {
          assert src + r == c;
        }
        assert c[..|src|] == src && c[|src|] == r[0];
        assert r[0] in Children(st, src);
      }
    }
  }

  /** The loop reproduces the entries of the names it went through. */
  lemma {:induction false} EntriesReproduced(st: FsState, src: Path, dst: Path, names: seq<Name>)
    requires Disjoint(src, dst) && TreeBelow(st, src) && NoDup(names)
    requires CopyEntries(st, src, dst, names).res.Ok?
    ensures forall r :: r != [] && r[0] in names ==> Reproduced(st, CopyEntries(st, src, dst, names).st, src, dst, r)
    decreases MaxDepth - |src|, 0, |names|
  {
    if names != [] {
      var n, rest := names[0], names[1..];
      var first := CopyEntry(st, src, dst, n);
      var last := CopyEntries(first.st, src, dst, rest);
      EntryReproduced(st, src, dst, n);
      forall q | !IsPrefix(dst, q) ensures SameAt(st, first.st, q) {
        assert !UnderSome(q, dst, [n]);
      }
      Untouched(st, first.st, src, dst);
      assert NoDup(rest);
      EntriesReproduced(first.st, src, dst, rest);
      forall r | r != [] && r[0] in names ensures Reproduced(st, last.st, src, dst, r) {
        assert (dst + r)[..|dst|] == dst && (dst + r)[|dst|] == r[0];
        assert IsPrefix(src, src + r);
        if r[0] == n {
          assert !UnderSome(dst + r, dst, rest);
          ReproducedKeep(st, first.st, last.st, src, dst, r);
        } else {
          assert r[0] in rest;
          assert !UnderSome(dst + r, dst, [n]);
          ReproducedTransfer(st, first.st, last.st, src, dst, r);
        }
      }
    }
  }

  /** One entry of the loop is reproduced, with everything below it. */
  lemma {:induction false} EntryReproduced(st: FsState, src: Path, dst: Path, n: Name)
    requires Disjoint(src, dst) && TreeBelow(st, src)
    requires CopyEntry(st, src, dst, n).res.Ok?
    ensures forall r :: r != [] && r[0] == n ==> Reproduced(st, CopyEntry(st, src, dst, n).st, src, dst, r)
    decreases MaxDepth - |src|, 0, 0
  {
    var child, target := src + [n], dst + [n];
    var o := CopyEntry(st, src, dst, n);
    assert child in st.nodes;
    var node := st.nodes[child];
    if node.Dir? {
      var mk := CreateNewDir(st, target);
      DisjointChild(src, dst, n);
      TreeBelowChild(st, src, n);
      Untouched(st, mk.st, child, target);
      ContentsReproduced(mk.st, child, target);
      assert o == CopyContents(mk.st, child, target);
      DirReproduced(st, mk.st, o.st, src, dst, n);
    } else {
      LeafReproduced(st, src, dst, n);
    }
  }

  /** A directory of the loop is reproduced once it is made and its contents are copied
    * into it. */
  lemma DirReproduced(st: FsState, made: FsState, last: FsState, src: Path, dst: Path, n: Name)
    requires src + [n] in st.nodes && st.nodes[src + [n]].Dir?
    requires made == st.(nodes := st.nodes[dst + [n] := Dir])
    requires forall q :: IsPrefix(src + [n], q) ==> SameAt(st, made, q)
    requires forall r :: r != [] ==> Reproduced(made, last, src + [n], dst + [n], r)
    requires forall q :: !Below(q, dst + [n]) ==> SameAt(made, last, q)
    ensures forall r :: r != [] && r[0] == n ==> Reproduced(st, last, src, dst, r)
  {
    var child, target := src + [n], dst + [n];
    forall r | r != [] && r[0] == n ensures Reproduced(st, last, src, dst, r) {
      if |r| == 1 {
        assert src + r == child && dst + r == target;
        assert !Below(target, target);
      } else {
        var r' := r[1..];
        assert r == [n] + r';
        assert src + r == child + r' && dst + r == target + r';
        assert IsPrefix(child, child + r') && target + r' != target;
        ReproducedTransfer(st, made, last, child, target, r');
      }
    }
  }

  /** A file or a link of the loop is reproduced; nothing lies below it. */
  lemma LeafReproduced(st: FsState, src: Path, dst: Path, n: Name)
    requires Disjoint(src, dst) && TreeBelow(st, src)
    requires CopyEntry(st, src, dst, n).res.Ok?
    requires src + [n] in st.nodes && !st.nodes[src + [n]].Dir?
    ensures forall r :: r != [] && r[0] == n ==> Reproduced(st, CopyEntry(st, src, dst, n).st, src, dst, r)
  {
    var child, target := src + [n], dst + [n];
    var o := CopyEntry(st, src, dst, n);
    var node := st.nodes[child];
    if node.File? {
      assert ReadFile(st, child) == Ok(node.data);
      assert o.st == st.(nodes := st.nodes[target := File(node.data, st.clock)]);
    } else {
      assert o.st == st;
    }
    forall r | r != [] && r[0] == n ensures Reproduced(st, o.st, src, dst, r) {
      if |r| == 1 {
        assert src + r == child && dst + r == target;
      } else {
        assert (src + r)[..|src| + 1] == child && (src + r)[..|src|] == src;
        assert src + r !in st.nodes;
      }
    }
  }

  // ---------------------------------------------------------------- no-clobber subdirectories

  /** The loop stops with an error at the latest when it reaches a directory whose name is
    * already taken in the destination. */
  lemma {:induction false} EntriesStopAtTakenDir(st: FsState, src: Path, dst: Path, names: seq<Name>, n: Name)
    requires Disjoint(src, dst)
    requires n in names
    requires SymlinkMetadata(st, src + [n]) == Ok(Dir)
    requires dst + [n] in st.nodes
    ensures CopyEntries(st, src, dst, names).res.Err?
    decreases |names|
  {
    var first := CopyEntry(st, src, dst, names[0]);
    if names[0] != n && first.res.Ok? {
      forall q | !IsPrefix(dst, q) ensures SameAt(st, first.st, q) {
        assert !UnderSome(q, dst, [names[0]]);
      }
      assert IsPrefix(src, src + [n]);
      PrefixesComparable(src, dst, src + [n]);
      assert n in names[1..];
      EntriesStopAtTakenDir(first.st, src, dst, names[1..], n);
    }
  }

  /** A subdirectory of the source whose name is already taken in the destination makes
    * `copy_dir_contents` fail: subdirectories are created new, never merged. */
  lemma ExistingSubdirFails(st: FsState, src: Path, dst: Path, n: Name)
    requires Disjoint(src, dst)
    requires SymlinkMetadata(st, src + [n]) == Ok(Dir)
    requires dst + [n] in st.nodes
    ensures CopyContents(st, src, dst).res.Err?
  {
    if IsDir(st, src) && IsDir(st, dst) {
      var c := src + [n];
      assert c[..|src|] == src && c[|src|] == n;
      assert n in Children(st, src);
      EntriesStopAtTakenDir(st, src, dst, ListDir(st, src).value, n);
    }
  }

  // ---------------------------------------------------------------- fsx::dir::copy

  /** `fsx::dir::copy(src, dst)`: `src` must be a directory; `dst` is created, with its
    * missing ancestors, when absent; then the contents are copied. */
  function Copy(st: FsState, src: Path, dst: Path): (o: Outcome<Unit>)
    ensures !IsDir(st, src) ==> o == Outcome(st, Checks.DirAssertExists(st, src))
    ensures IsDir(st, src) && Metadata(st, dst).Ok? && !IsDir(st, dst) ==> o.res.Err?
  {
    var a := Checks.DirAssertExists(st, src);
    if a.Err? then Outcome(st, a)
    else
      var e := EnsureDir(st, dst);
      if e.res.Err? then e
      else
        if Metadata(st, dst).Ok? then GrowthKeepsMetadata(st, e.st, dst); CopyContents(e.st, src, dst)
        else CopyContents(e.st, src, dst)
  }

  /** Adding entries and keeping the others changes no metadata that could be read. */
  lemma GrowthKeepsMetadata(st: FsState, st': FsState, p: Path)
    requires forall q :: q in st.nodes ==> q in st'.nodes && st'.nodes[q] == st.nodes[q]
    requires st'.denied == st.denied
    requires Metadata(st, p).Ok?
    ensures Metadata(st', p) == Metadata(st, p)
  {
  }

  /** A well-formed tree has directories above every entry. */
  lemma WellFormedTreeBelow(st: FsState, root: Path)
    requires WellFormed(st)
    ensures TreeBelow(st, root)
  {
  }

  /** `copy` into a destination that is not there creates it as a directory and reproduces
    * the whole source tree in it. */
  lemma CopyIntoNewDst(st: FsState, src: Path, dst: Path)
    requires WellFormed(st) && Disjoint(src, dst)
    requires dst !in st.nodes
    requires Copy(st, src, dst).res.Ok?
    ensures dst in Copy(st, src, dst).st.nodes && Copy(st, src, dst).st.nodes[dst] == Dir
    ensures forall r :: r != [] ==> Reproduced(st, Copy(st, src, dst).st, src, dst, r)
  {
    var e := EnsureDir(st, dst);
    var o := Copy(st, src, dst);
    assert o == CopyContents(e.st, src, dst);
    CreateDirAllWellFormed(st, dst);
    WellFormedTreeBelow(e.st, src);
    ContentsReproduced(e.st, src, dst);
    assert !Below(dst, dst);
    forall r | r != [] ensures Reproduced(st, o.st, src, dst, r) {
      PrefixOfLonger(src, r, dst);
      assert !IsPrefix(dst + r, dst);
      ReproducedTransfer(st, e.st, o.st, src, dst, r);
    }
  }

  /** Copying the same tree twice into the same destination fails the second time once the
    * source has a subdirectory: the first copy created it, and the second will not merge
    * into it. */
  lemma CopyTwiceFails(st: FsState, src: Path, dst: Path, n: Name)
    requires WellFormed(st) && Disjoint(src, dst)
    requires SymlinkMetadata(st, src + [n]) == Ok(Dir)
    requires Copy(st, src, dst).res.Ok?
    ensures Copy(Copy(st, src, dst).st, src, dst).res.Err?
  {
    var sm := src + [n];
    var e := EnsureDir(st, dst);
    var st1 := Copy(st, src, dst).st;
    assert st1 == CopyContents(e.st, src, dst).st;
    CreateDirAllWellFormed(st, dst);
    WellFormedTreeBelow(e.st, src);
    ContentsReproduced(e.st, src, dst);
    assert src + [n] == sm;
    assert Reproduced(e.st, st1, src, dst, [n]);
    assert IsPrefix(src, sm);
    PrefixesComparable(src, dst, sm);
    assert SameAt(e.st, st1, sm);
    if Checks.DirAssertExists(st1, src).Ok? {
      var e2 := EnsureDir(st1, dst);
      if e2.res.Ok? {
        ExistingSubdirFails(e2.st, src, dst, n);
      }
    }
  }

  // ---------------------------------------------------------------- the imperative copies

  /** The imperative `copy_dir_contents`: a loop over the listing, recursing into
    * subdirectories. */
  method CopyDirContents(fs: FileSystem, src: Path, dst: Path) returns (r: Result<Unit>)
    modifies fs
    ensures Outcome(fs.st, r) == CopyContents(old(fs.st), src, dst)
    decreases MaxDepth - |src|
  {
    var a := Checks.DirAssertExists(fs.st, src);
    if a.Err? {
      return Err(a.error);
    }
    var b := Checks.DirAssertExists(fs.st, dst);
    if b.Err? {
      return Err(b.error);
    }
    var names := ListDir(fs.st, src).value;
    ghost var st0 := fs.st;
    var i := 0;
    while i < |names|
      invariant 0 <= i <= |names|
      invariant CopyEntries(fs.st, src, dst, names[i..]) == CopyEntries(st0, src, dst, names)
    {
      var n := names[i];
      assert names[i..][1..] == names[i + 1..];
      var child, target := src + [n], dst + [n];
      var ft := if |child| > MaxDepth then Err(OsError(InvalidFilename)) else SymlinkMetadata(fs.st, child);
      if ft.Err? {
        return Err(Ctx(ft.error, "failed to read file type", child));
      }
      if ft.value.Dir? {
        var mk := fs.Call((s: FsState) => CreateNewDir(s, target));
        if mk.Err? {
          return mk;
        }
        var sub := CopyDirContents(fs, child, target);
        if sub.Err? {
          return sub;
        }
      } else if ft.value.File? {
        var cp := fs.Call((s: FsState) => CopyFile(s, child, target));
        if cp.Err? {
          return Err(Ctx2(cp.error, "failed to copy", child, target));
        }
      }
      i := i + 1;
    }
    return Ok(Unit);
  }

  /** The imperative `fsx::dir::copy`. */
  method CopyDir(fs: FileSystem, src: Path, dst: Path) returns (r: Result<Unit>)
    modifies fs
    ensures Outcome(fs.st, r) == Copy(old(fs.st), src, dst)
  {
    var a := Checks.DirAssertExists(fs.st, src);
    if a.Err? {
      return a;
    }
    var e := fs.Call((s: FsState) => EnsureDir(s, dst));
    if e.Err? {
      return e;
    }
    r := CopyDirContents(fs, src, dst);
  }
}
