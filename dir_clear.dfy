/** Emptying a directory: every entry in it is removed, a subdirectory with everything
  * below it, anything else as a file; the directory itself stays. */
module DirClear {
  import opened Io
  import opened Fs
  import opened IoResultExt
  import Checks

  /** One entry: its own type decides how it is removed (a link is removed, not followed). */
  function ClearEntry(st: FsState, p: Path, n: Name): (o: Outcome<Unit>)
    ensures o.st.clock == st.clock && o.st.denied == st.denied
    ensures forall q :: q in o.st.nodes ==> q in st.nodes && o.st.nodes[q] == st.nodes[q]
    ensures forall q :: !UnderSome(q, p, [n]) ==> SameAt(st, o.st, q)
    ensures o.res.Err? ==> o.st == st && Mentions(o.res.error.msg, Display(p + [n]))
  {
    var child := p + [n];
    match SymlinkMetadata(st, child)
    case Err(e) => Outcome(st, WithPathContext(Err(e), "failed to read file type", child))
    case Ok(node) =>
      var rm := if node.Dir? then RemoveDirAll(st, child) else RemoveFile(st, child);
      var action := if node.Dir? then "failed to remove subdirectory" else "failed to remove file";
      assert forall q :: IsPrefix(child, q) ==> UnderSome(q, p, [n]) by {
        forall q | IsPrefix(child, q) ensures UnderSome(q, p, [n]) {
          assert q[..|p|] == child[..|p|];
        }
      }
      Outcome(rm.st, WithPathContext(rm.res, action, child))
  }

  /** The loop over the listed names; the first failure ends it, with the entries already
    * removed staying removed. An error names the entry it happened at. */
  function ClearEntries(st: FsState, p: Path, names: seq<Name>): (o: Outcome<Unit>)
    ensures o.st.clock == st.clock && o.st.denied == st.denied
    ensures forall q :: q in o.st.nodes ==> q in st.nodes && o.st.nodes[q] == st.nodes[q]
    ensures forall q :: !UnderSome(q, p, names) ==> SameAt(st, o.st, q)
    ensures o.res.Err? ==> exists n :: n in names && Mentions(o.res.error.msg, Display(p + [n]))
    decreases |names|
  {
    if names == [] then Outcome(st, Ok(Unit))
    else
      var first := ClearEntry(st, p, names[0]);
      if first.res.Err? then first
      else
        UnderSomeSplit(p, names);
        assert forall n :: n in names[1..] ==> n in names;
        ClearEntries(first.st, p, names[1..])
  }

  /** `dir::clear(p)`: `p` must be a directory (missing is `NotFound`, anything else is
    * `InvalidInput`); then every entry listed in it is removed. Nothing outside `p` changes
    * and nothing is added. */
  function Clear(st: FsState, p: Path): (o: Outcome<Unit>)
    ensures !IsDir(st, p) ==> o == Outcome(st, Checks.DirAssertExists(st, p))
    ensures Missing(st, p) ==> o.res.Err? && o.res.error.kind == NotFound
    ensures Metadata(st, p).Ok? && !IsDir(st, p) ==> o.res.Err? && o.res.error.kind == InvalidInput
    ensures forall q :: !Below(q, p) ==> SameAt(st, o.st, q)
    ensures forall q :: q in o.st.nodes ==> q in st.nodes && o.st.nodes[q] == st.nodes[q]
  {
    var a := Checks.DirAssertExists(st, p);
    if a.Err? then Outcome(st, a)
    else
      match WithPathContext(ListDir(st, p), "failed to read directory", p)
      case Err(e) => Outcome(st, Err(e))
      case Ok(names) => ClearEntries(st, p, names)
  }

  /** On a well-formed tree, a finished loop has removed everything under each name it went
    * through. */
  lemma {:induction false} EntriesRemoved(st: FsState, p: Path, names: seq<Name>)
    requires WellFormed(st)
    requires ClearEntries(st, p, names).res.Ok?
    ensures forall q :: UnderSome(q, p, names) ==> q !in ClearEntries(st, p, names).st.nodes
    decreases |names|
  {
    if names != [] {
      var n := names[0];
      var child := p + [n];
      var first := ClearEntry(st, p, n);
      var last := ClearEntries(first.st, p, names[1..]);
      assert child in st.nodes;
      if st.nodes[child].Dir? {
        RemoveDirAllWellFormed(st, child);
      } else {
        RemoveFileWellFormed(st, child);
      }
      EntriesRemoved(first.st, p, names[1..]);
      forall q | UnderSome(q, p, names) ensures q !in last.st.nodes {
        if q[|p|] == n {
          assert q[..|p| + 1] == child;
          assert IsPrefix(child, q);
          assert q in st.nodes && q != child ==> st.nodes[q[..|p| + 1]].Dir?;
        } else {
          assert q[|p|] in names[1..];
        }
      }
    }
  }

  /** A successful `clear` on a well-formed tree leaves the directory empty: nothing at
    * any depth below it remains. */
  lemma ClearEmpties(st: FsState, p: Path)
    requires WellFormed(st)
    requires Clear(st, p).res.Ok?
    ensures forall q :: Below(q, p) ==> q !in Clear(st, p).st.nodes
    ensures Children(Clear(st, p).st, p) == {}
  {
    var names := ListDir(st, p).value;
    var o := Clear(st, p);
    assert o == ClearEntries(st, p, names);
    EntriesRemoved(st, p, names);
    forall q | Below(q, p) ensures q !in o.st.nodes {
      if q in st.nodes {
        BelowIsListed(st, p, q);
        assert UnderSome(q, p, names);
      }
    }
  }

  /** In a well-formed tree, an entry below `p` lies under one of `p`'s children. */
  lemma BelowIsListed(st: FsState, p: Path, q: Path)
    requires WellFormed(st)
    requires q in st.nodes && Below(q, p)
    ensures q[|p|] in Children(st, p)
  {
    var c := q[..|p| + 1];
    if |q| == |p| + 1 {
      assert c == q;
    }
    assert c in st.nodes;
    assert c[..|p|] == p && c[|p|] == q[|p|];
  }

  /** Clearing is idempotent: clearing the emptied directory again succeeds and changes
    * nothing. */
  lemma ClearIdempotent(st: FsState, p: Path)
    requires WellFormed(st)
    requires Clear(st, p).res.Ok?
    ensures Clear(Clear(st, p).st, p) == Outcome(Clear(st, p).st, Ok(Unit))
  {
    var o := Clear(st, p);
    ClearEmpties(st, p);
    assert !Below(p, p);
    if st.nodes[p].Symlink? {
      assert !Below(st.nodes[p].target, p);
    }
    assert Metadata(o.st, p) == Metadata(st, p);
    assert Children(o.st, p) == {};
    assert ListDir(o.st, p) == Ok([]);
  }

  /** The imperative `clear`: a loop over the listing, removing each entry. */
  method ClearDir(fs: FileSystem, p: Path) returns (r: Result<Unit>)
    modifies fs
    ensures Outcome(fs.st, r) == Clear(old(fs.st), p)
  {
    var a := Checks.DirAssertExists(fs.st, p);
    if a.Err? {
      return a;
    }
    var names := ListDir(fs.st, p).value;
    ghost var st0 := fs.st;
    var i := 0;
    while i < |names|
      invariant 0 <= i <= |names|
      invariant ClearEntries(fs.st, p, names[i..]) == ClearEntries(st0, p, names)
    {
      assert names[i..][1..] == names[i + 1..];
      var child := p + [names[i]];
      var ft := SymlinkMetadata(fs.st, child);
      if ft.Err? {
        return WithPathContext(Err(ft.error), "failed to read file type", child);
      }
      if ft.value.Dir? {
        r := fs.Call((s: FsState) => RemoveDirAll(s, child));
        r := WithPathContext(r, "failed to remove subdirectory", child);
      } else {
        r := fs.Call((s: FsState) => RemoveFile(s, child));
        r := WithPathContext(r, "failed to remove file", child);
      }
      if r.Err? {
        return r;
      }
      i := i + 1;
    }
    return Ok(Unit);
  }
}
