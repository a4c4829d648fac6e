/** `fsx::dir::size`: the total length of the regular files anywhere below a directory,
  * added up over a recursive walk. */
module DirSize {
  import opened Io
  import opened Fs
  import opened DirWalk
  import Checks

  /** The bytes a regular file at `q` holds; nothing for anything else. */
  function FileBytes(st: FsState, q: Path): nat
  {
    if q in st.nodes && st.nodes[q].File? then |st.nodes[q].data| else 0
  }

  /** What one walk item adds: a walk error fails; a regular file adds its length, read
    * from its own metadata, which can fail; anything else adds nothing. */
  function Contribution(st: FsState, root: Path, item: WalkItem): (r: Result<nat>)
    ensures item.Failure? ==> r.Err? && r.error.kind == item.error.kind
    ensures item.Entry? && r.Ok? ==> r.value == FileBytes(st, item.path)
    ensures item.Entry? && r.Err? ==> item.path in st.nodes && st.nodes[item.path].File? && item.path in st.denied
    ensures item.Entry? && item.path !in st.denied ==> r.Ok?
  {
    match item
    case Failure(q, e) =>
      Err(WalkError(q, e))
    case Entry(q, _) =>
      if !(q in st.nodes && st.nodes[q].File?) then Ok(0)
      else match SymlinkMetadata(st, q)
        case Err(e) =>
          Err(MetadataError(root, q, e))
        case Ok(n) => Ok(|n.data|)
  }

  /** The running total over the walk, stopping at the first item that fails. */
  function Total(st: FsState, root: Path, w: seq<WalkItem>): (r: Result<nat>)
    ensures r.Ok? ==> NoFailure(w)
    ensures r.Ok? <==> forall i :: 0 <= i < |w| ==> Contribution(st, root, w[i]).Ok?
    ensures r.Err? ==>
      exists i :: 0 <= i < |w| && Contribution(st, root, w[i]).Err? &&
        (forall j :: 0 <= j < i ==> Contribution(st, root, w[j]).Ok?) &&
        r.error == Contribution(st, root, w[i]).error
    decreases |w|
  {
    if w == [] then Ok(0)
    else
      match Contribution(st, root, w[0])
      case Err(e) => Err(e)
      case Ok(c) =>
        var rest := Total(st, root, w[1..]);
        assert forall i :: 1 <= i < |w| ==> w[i] == w[1..][i - 1];
        match rest
        case Err(e) =>
          var k :| 0 <= k < |w[1..]| && Contribution(st, root, w[1..][k]).Err?
            && (forall j :: 0 <= j < k ==> Contribution(st, root, w[1..][j]).Ok?)
            && e == Contribution(st, root, w[1..][k]).error;
          assert Contribution(st, root, w[k + 1]).Err? && e == Contribution(st, root, w[k + 1]).error;
          assert forall j :: 0 <= j < k + 1 ==> Contribution(st, root, w[j]).Ok?;
          Err(e)
        case Ok(t) => Ok(c + t)
  }

  /** `fsx::dir::size`: the directory must exist; then every item of the unbounded walk
    * from it is added up. */
  function Size(st: FsState, p: Path): (r: Result<nat>)
    ensures !IsDir(st, p) ==> r == Err(Checks.DirAssertExists(st, p).error)
  {
    var a := Checks.DirAssertExists(st, p);
    if a.Err? then Err(a.error) else Total(st, p, Walk(st, p, Unbounded))
  }

  // ---------------------------------------------------------------- what the total is

  /** Bytes in the files named by a sequence of paths. */
  function SeqBytes(st: FsState, ps: seq<Path>): nat
    decreases |ps|
  {
    if ps == [] then 0 else FileBytes(st, ps[0]) + SeqBytes(st, ps[1..])
  }

  /** Bytes in the files named by a set of paths, in no particular order. */
  ghost function SetBytes(st: FsState, s: set<Path>): nat
    decreases s
  {
    if s == {} then 0 else var q :| q in s; FileBytes(st, q) + SetBytes(st, s - {q})
  }

  /** Any member may be taken out first: the set sum does not depend on the order. */
  lemma {:induction false} SetBytesRemove(st: FsState, s: set<Path>, x: Path)
    requires x in s
    ensures SetBytes(st, s) == FileBytes(st, x) + SetBytes(st, s - {x})
    decreases s
  {
    var y :| y in s && SetBytes(st, s) == FileBytes(st, y) + SetBytes(st, s - {y});
    if y != x {
      SetBytesRemove(st, s - {y}, x);
      SetBytesRemove(st, s - {x}, y);
      assert s - {y} - {x} == s - {x} - {y};
    }
  }

  /** A sequence without repeats adds up to the sum over its members. */
  lemma {:induction false} SeqBytesIsSetBytes(st: FsState, ps: seq<Path>)
    requires Distinct(ps)
    ensures SeqBytes(st, ps) == SetBytes(st, set q | q in ps)
    decreases |ps|
  {
    if ps != [] {
      var tail := ps[1..];
      assert Distinct(tail) by {
        forall i, j | 0 <= i < j < |tail| ensures tail[i] != tail[j] {
          assert tail[i] == ps[i + 1] && tail[j] == ps[j + 1];
        }
      }
      SeqBytesIsSetBytes(st, tail);
      assert ps[0] !in tail by {
        forall j | 0 <= j < |tail| ensures tail[j] != ps[0] {
          assert tail[j] == ps[j + 1];
        }
      }
      var s := set q | q in ps;
      SetBytesRemove(st, s, ps[0]);
      assert s - {ps[0]} == set q | q in tail;
    }
  }

  /** A total that succeeds adds up the files among the walk's entries. */
  lemma {:induction false} TotalIsSeqBytes(st: FsState, root: Path, w: seq<WalkItem>)
    requires Total(st, root, w).Ok?
    ensures Total(st, root, w).value == SeqBytes(st, PathsOf(w))
    decreases |w|
  {
    if w != [] {
      assert w[0].Entry?;
      TotalIsSeqBytes(st, root, w[1..]);
    }
  }

  /** On a well-formed tree, a size that succeeds is the total length of the regular files
    * at or below the directory, each counted once. */
  lemma SizeCountsEveryFile(st: FsState, p: Path)
    requires WellFormed(st)
    requires Size(st, p).Ok?
    ensures Size(st, p).value == SetBytes(st, Subtree(st, p))
  {
    var w := Walk(st, p, Unbounded);
    WalkCovers(st, p, Unbounded);
    TotalIsSeqBytes(st, p, w);
    SeqBytesIsSetBytes(st, PathsOf(w));
    assert (set q | q in PathsOf(w)) == Subtree(st, p) by {
      forall q ensures q in PathsOf(w) <==> q in Subtree(st, p) {
        if q in st.nodes && IsPrefix(p, q) && q != p {
          assert |q| <= MaxDepth;
        }
      }
    }
  }

  /** On a well-formed tree in which every entry may be read, the size of a directory
    * never fails. */
  lemma SizeSucceeds(st: FsState, p: Path)
    requires WellFormed(st) && st.denied == {} && IsDir(st, p)
    ensures Size(st, p).Ok?
  {
    var w := Walk(st, p, Unbounded);
    WalkSucceeds(st, p, Unbounded);
    forall i | 0 <= i < |w| ensures Contribution(st, p, w[i]).Ok? {
      assert w[i].Entry?;
    }
  }

  /** A directory with nothing in it has size 0. */
  lemma EmptyDirIsZero(st: FsState, p: Path)
    requires IsDir(st, p) && Children(st, p) == {}
    ensures Size(st, p) == Ok(0)
  {
    assert Contents(st, p, 0, Unbounded) == [];
    var w := Walk(st, p, Unbounded);
    assert w == [Entry(p, 0)];
    assert Contribution(st, p, w[0]) == Ok(0);
    assert w[1..] == [];
    assert Total(st, p, w[1..]) == Ok(0);
    assert Total(st, p, w) == Ok(0);
  }

  /** The tree of the source's own test: `a.bin` of 10 bytes beside `sub`, which holds
    * `b.txt` of 5 bytes. */
  function NestedTree(t: int): FsState
  {
    FsState(map[[] := Dir, ["a.bin"] := File(seq(10, _ => 0), t), ["sub"] := Dir,
                ["sub", "b.txt"] := File(seq(5, _ => 0), t)], {}, t)
  }

  lemma NestedTreeWellFormed(t: int)
    ensures WellFormed(NestedTree(t))
  {
    var st := NestedTree(t);
    forall q, k | q in st.nodes && 0 <= k < |q| ensures q[..k] in st.nodes && st.nodes[q[..k]].Dir? {
      if |q| == 2 && k == 1 {
        assert q == ["sub", "b.txt"];
        assert q[..k] == ["sub"];
      }
    }
  }

  lemma NestedSubtree(t: int)
    ensures Subtree(NestedTree(t), []) == {[], ["a.bin"], ["sub"], ["sub", "b.txt"]}
  {
    var st := NestedTree(t);
    forall q | q in st.nodes ensures IsPrefix([], q) {
      assert q[..0] == [];
    }
  }

  lemma NestedBytes(t: int)
    ensures SetBytes(NestedTree(t), {[], ["a.bin"], ["sub"], ["sub", "b.txt"]}) == 15
  {
    var st := NestedTree(t);
    var a, sub, b: Path := ["a.bin"], ["sub"], ["sub", "b.txt"];
    var root: Path := [];
    var s: set<Path> := {root, a, sub, b};
    assert FileBytes(st, a) == 10 && FileBytes(st, b) == 5;
    assert FileBytes(st, sub) == 0 && FileBytes(st, root) == 0;
    SetBytesRemove(st, s, a);
    assert s - {a} == {root, sub, b};
    SetBytesRemove(st, {root, sub, b}, b);
    assert {root, sub, b} - {b} == {root, sub};
    SetBytesRemove(st, {root, sub}, sub);
    assert {root, sub} - {sub} == {root};
    SetBytesRemove(st, {root}, root);
    assert {root} - {root} == {};
  }

  /** That tree adds up to 15 bytes. */
  lemma NestedFilesExample(t: int)
    ensures Size(NestedTree(t), []) == Ok(15)
  {
    NestedTreeWellFormed(t);
    SizeSucceeds(NestedTree(t), []);
    SizeCountsEveryFile(NestedTree(t), []);
    NestedSubtree(t);
    NestedBytes(t);
  }

  /** The imperative `size`: the check, then a loop over the walk adding each file's length
    * to the running total. */
  method DirSizeOf(st: FsState, p: Path) returns (r: Result<nat>)
    ensures r == Size(st, p)
  {
    var check := Checks.DirAssertExists(st, p);
    if check.Err? {
      return Err(check.error);
    }
    var items := Walk(st, p, Unbounded);
    var total: nat := 0;
    var i := 0;
    while i < |items|
      invariant 0 <= i <= |items|
      invariant Total(st, p, items) == AddTo(total, Total(st, p, items[i..]))
      decreases |items| - i
    {
      assert items[i..][1..] == items[i + 1..];
      var c := Contribution(st, p, items[i]);
      if c.Err? {
        return Err(c.error);
      }
      total := total + c.value;
      i := i + 1;
    }
    assert items[i..] == [];
    r := Ok(total);
  }

  /** `t` added to a result that may have failed. */
  function AddTo(t: nat, r: Result<nat>): (s: Result<nat>)
    ensures s.Ok? <==> r.Ok?
    ensures s.Ok? ==> s.value - t == r.value
  {
    match r
    case Ok(v) => Ok(t + v)
    case Err(e) => Err(e)
  }
}
