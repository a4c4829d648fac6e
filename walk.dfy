/** A recursive directory walk as the `walkdir` crate performs it, seen as the sequence of
  * items it yields: the root first, then in pre-order every entry below it, each directory
  * followed by what is inside it. Links are not followed, except at the root. A directory
  * that cannot be read yields an error item where its contents would be. */
module DirWalk {
  import opened Io
  import opened Fs

  /** An entry with its depth below the root, or an error at a path. */
  datatype WalkItem = Entry(path: Path, depth: nat) | Failure(path: Path, error: IoError)

  /** `walkdir`'s default (no depth limit): no path is deeper than `MaxDepth`. */
  const Unbounded: nat := MaxDepth + 1

  /** `WalkDir::new(root).max_depth(limit)`: the root, then the entries below it down to
    * `limit` levels. A root that is a link is followed to decide whether to go in. */
  function Walk(st: FsState, root: Path, limit: nat): (w: seq<WalkItem>)
    ensures w != [] && w[0].path == root
    ensures forall i :: 0 <= i < |w| && w[i].Entry? ==> IsPrefix(root, w[i].path) && w[i].depth == |w[i].path| - |root| <= limit
  {
    match SymlinkMetadata(st, root)
    case Err(e) => [Failure(root, e)]
    case Ok(n) =>
      match (if n.Symlink? then Metadata(st, root) else Ok(n))
      case Err(e) => [Failure(root, e)]
      case Ok(m) =>
        var inside := if m.Dir? && 0 < limit then Contents(st, root, 0, limit) else [];
        [Entry(root, 0)] + inside
  }

  /** What the walk yields inside directory `dir`, which lies `d` levels below the root. */
  function Contents(st: FsState, dir: Path, d: nat, limit: nat): (w: seq<WalkItem>)
    requires d < limit
    ensures forall i :: 0 <= i < |w| && w[i].Entry? ==>
      Below(w[i].path, dir) && w[i].depth == d + |w[i].path| - |dir| <= limit
    ensures NoFailure(w) ==> ListDir(st, dir).Ok?
    decreases MaxDepth - |dir|, 1, 0
  {
    match ListDir(st, dir)
    case Err(e) =>
      var w := [Failure(dir, e)];
      assert !w[0].Entry?;
      w
    case Ok(names) =>
      if names == [] then []
      else if |dir| >= MaxDepth then [Failure(dir, OsError(InvalidFilename))]
      else Names(st, dir, d, limit, names)
  }

  /** The listed names of `dir` in turn: the entry, then what is inside it when it is a
    * directory entry not yet at the depth limit. */
  function Names(st: FsState, dir: Path, d: nat, limit: nat, names: seq<Name>): (w: seq<WalkItem>)
    requires |dir| < MaxDepth && d < limit
    ensures forall i :: 0 <= i < |w| && w[i].Entry? ==>
      UnderSome(w[i].path, dir, names) && w[i].depth == d + |w[i].path| - |dir| <= limit
    decreases MaxDepth - |dir|, 0, |names|
  {
    if names == [] then []
    else
      var child := dir + [names[0]];
      var inside := if DescendsInto(st, child, d + 1, limit) then Contents(st, child, d + 1, limit) else [];
      UnderSomeSplit(dir, names);
      BelowChildUnder(dir, names[0]);
      [Entry(child, d + 1)] + inside + Names(st, dir, d, limit, names[1..])
  }

  /** The walk goes into `child` (at depth `depth`) when it is a directory entry above the
    * depth limit. */
  predicate DescendsInto(st: FsState, child: Path, depth: nat, limit: nat)
  {
    child in st.nodes && st.nodes[child].Dir? && depth < limit
  }

  /** Lying below `dir + [n]` is lying under `n` in `dir`. */
  lemma BelowChildUnder(dir: Path, n: Name)
    ensures forall q :: Below(q, dir + [n]) ==> UnderSome(q, dir, [n])
  {
    forall q | Below(q, dir + [n]) ensures UnderSome(q, dir, [n]) {
      assert q[..|dir|] == (dir + [n])[..|dir|];
    }
  }

  // ---------------------------------------------------------------- how callers report errors

  /** How `walkdir` shows a failure at `q`. */
  function WalkErrorText(q: Path, e: IoError): string
  {
    "IO error for operation on " + Display(q) + ": " + e.msg
  }

  /** A walk error as the callers report it: the kind kept, the path named. */
  function WalkError(q: Path, e: IoError): (r: IoError)
    ensures r.kind == e.kind
    ensures "walk error at '" <= r.msg
  {
    IoError(e.kind, "walk error at '" + Display(q) + "': " + WalkErrorText(q, e))
  }

  /** An entry's metadata failing, as the callers report it: the kind kept, the root and
    * the entry named. */
  function MetadataError(root: Path, q: Path, e: IoError): (r: IoError)
    ensures r.kind == e.kind
    ensures "metadata error under '" <= r.msg
  {
    IoError(e.kind, "metadata error under '" + Display(root) + "' at '" + Display(q) + "': " + WalkErrorText(q, e))
  }

  // ---------------------------------------------------------------- the paths a walk yields

  /** The walk met no error. */
  predicate NoFailure(w: seq<WalkItem>) { forall i :: 0 <= i < |w| ==> w[i].Entry? }

  /** The paths of the entries, in walk order. */
  function PathsOf(w: seq<WalkItem>): seq<Path>
    decreases |w|
  {
    if w == [] then [] else (if w[0].Entry? then [w[0].path] else []) + PathsOf(w[1..])
  }

  lemma {:induction false} PathsOfConcat(a: seq<WalkItem>, b: seq<WalkItem>)
    ensures PathsOf(a + b) == PathsOf(a) + PathsOf(b)
    decreases |a|
  {
    if a == [] {
      assert a + b == b;
    } else {
      assert (a + b)[1..] == a[1..] + b;
      PathsOfConcat(a[1..], b);
    }
  }

  /** No path occurs twice. */
  predicate Distinct(s: seq<Path>) { forall i, j :: 0 <= i < j < |s| ==> s[i] != s[j] }

  lemma DistinctSplit(a: seq<Path>, b: seq<Path>)
    requires Distinct(a + b)
    ensures Distinct(a) && Distinct(b)
    ensures forall q :: q in a ==> q !in b
  {
    forall i, j | 0 <= i < j < |b| ensures b[i] != b[j] {
      assert b[i] == (a + b)[|a| + i] && b[j] == (a + b)[|a| + j];
    }
    forall i, j | 0 <= i < j < |a| ensures a[i] != a[j] {
      assert a[i] == (a + b)[i] && a[j] == (a + b)[j];
    }
    forall i, j | 0 <= i < |a| && 0 <= j < |b| ensures a[i] != b[j] {
      assert a[i] == (a + b)[i] && b[j] == (a + b)[|a| + j];
    }
  }

  lemma DistinctConcat(a: seq<Path>, b: seq<Path>)
    requires Distinct(a) && Distinct(b)
    requires forall q :: q in a ==> q !in b
    ensures Distinct(a + b)
  {
    forall i, j | 0 <= i < j < |a + b| ensures (a + b)[i] != (a + b)[j] {
      if i < |a| && |a| <= j {
        assert (a + b)[i] in a && (a + b)[j] == b[j - |a|];
      }
    }
  }

  /** `q` is an entry `dir`'s walk should yield: below `dir`, within the depth limit. */
  predicate InRange(st: FsState, dir: Path, d: nat, limit: nat, q: Path)
  {
    q in st.nodes && Below(q, dir) && d + |q| - |dir| <= limit
  }

  /** In a well-formed tree, an entry below `dir` lies under one of `dir`'s children. */
  lemma ChildListed(st: FsState, dir: Path, q: Path)
    requires WellFormed(st)
    requires q in st.nodes && Below(q, dir)
    ensures q[|dir|] in Children(st, dir)
  {
    var c := q[..|dir| + 1];
    if |q| == |dir| + 1 {
      assert c == q;
    }
    assert c in st.nodes;
    assert c[..|dir|] == dir && c[|dir|] == q[|dir|];
  }

  /** On a well-formed tree, the contents of a directory, when walked without error, are
    * every entry below it down to the depth limit, each exactly once. */
  lemma {:induction false} ContentsCover(st: FsState, dir: Path, d: nat, limit: nat)
    requires WellFormed(st) && d < limit
    requires NoFailure(Contents(st, dir, d, limit))
    ensures forall q :: q in PathsOf(Contents(st, dir, d, limit)) <==> InRange(st, dir, d, limit, q)
    ensures Distinct(PathsOf(Contents(st, dir, d, limit)))
    decreases MaxDepth - |dir|, 1, 0
  {
    var w := Contents(st, dir, d, limit);
    var names := ListDir(st, dir).value;
    forall q | q in st.nodes && Below(q, dir) ensures UnderSome(q, dir, names) {
      ChildListed(st, dir, q);
    }
    if names != [] {
      forall n | n in names ensures dir + [n] in st.nodes {
        ChildPath(st, dir, n);
      }
      NamesCover(st, dir, d, limit, names);
      forall q ensures q in PathsOf(w) <==> InRange(st, dir, d, limit, q) {
        if q in PathsOf(w) {
          assert UnderSome(q, dir, names);
        }
      }
    }
  }

  /** A listed name is the last name of an entry inside the directory. */
  lemma ChildPath(st: FsState, dir: Path, n: Name)
    requires n in Children(st, dir)
    ensures dir + [n] in st.nodes
  {
    var q :| q in st.nodes && |q| == |dir| + 1 && q[..|dir|] == dir && q[|dir|] == n;
    assert q == dir + [n];
  }

  lemma NoFailureConcat(a: seq<WalkItem>, b: seq<WalkItem>)
    requires NoFailure(a + b)
    ensures NoFailure(a) && NoFailure(b)
  {
    assert forall i :: 0 <= i < |a| ==> (a + b)[i] == a[i];
    assert forall i :: 0 <= i < |b| ==> (a + b)[|a| + i] == b[i];
  }

  /** The same for the loop over a directory's listed names. */
  lemma {:induction false} NamesCover(st: FsState, dir: Path, d: nat, limit: nat, names: seq<Name>)
    requires WellFormed(st) && |dir| < MaxDepth && d < limit
    requires forall n :: n in names ==> dir + [n] in st.nodes
    requires NoDup(names)
    requires NoFailure(Names(st, dir, d, limit, names))
    ensures forall q :: q in PathsOf(Names(st, dir, d, limit, names)) <==>
      InRange(st, dir, d, limit, q) && q[|dir|] in names
    ensures Distinct(PathsOf(Names(st, dir, d, limit, names)))
    decreases MaxDepth - |dir|, 0, |names|
  {
    if names != [] {
      var n, tail := names[0], names[1..];
      var child := dir + [n];
      NamesUnfold(st, dir, d, limit, names);
      assert NoDup(tail) && forall m :: m in tail ==> m in names;
      NamesCover(st, dir, d, limit, tail);
      var prest := PathsOf(Names(st, dir, d, limit, tail));
      if DescendsInto(st, child, d + 1, limit) {
        ContentsCover(st, child, d + 1, limit);
        CoverStep(st, dir, d, limit, names, PathsOf(Contents(st, child, d + 1, limit)), prest);
      } else {
        CoverStep(st, dir, d, limit, names, [], prest);
      }
    }
  }

  /** The step of `NamesCover`, on the paths alone: the head entry, the paths inside it and
    * the paths under the other names together are the paths under all the names, each once. */
  lemma CoverStep(st: FsState, dir: Path, d: nat, limit: nat, names: seq<Name>, pin: seq<Path>, prest: seq<Path>)
    requires WellFormed(st) && d < limit && names != []
    requires dir + [names[0]] in st.nodes && NoDup(names)
    requires DescendsInto(st, dir + [names[0]], d + 1, limit) ==>
      forall x :: x in pin <==> InRange(st, dir + [names[0]], d + 1, limit, x)
    requires !DescendsInto(st, dir + [names[0]], d + 1, limit) ==> pin == []
    requires forall x :: x in prest <==> InRange(st, dir, d, limit, x) && x[|dir|] in names[1..]
    requires Distinct(pin) && Distinct(prest)
    ensures forall q :: q in [dir + [names[0]]] + pin + prest <==> InRange(st, dir, d, limit, q) && q[|dir|] in names
    ensures Distinct([dir + [names[0]]] + pin + prest)
  {
    forall q ensures q in [dir + [names[0]]] + pin + prest <==> InRange(st, dir, d, limit, q) && q[|dir|] in names {
      NameCovered(st, dir, d, limit, names, pin, prest, q);
    }
    assert NoDup(names[1..]) && names[0] !in names[1..];
    NamesDistinct(st, dir, d, limit, names[0], names[1..], pin, prest);
  }

  /** One turn of the loop over names: the head entry, the walk inside it, the rest. */
  lemma NamesUnfold(st: FsState, dir: Path, d: nat, limit: nat, names: seq<Name>)
    requires |dir| < MaxDepth && d < limit && names != []
    requires NoFailure(Names(st, dir, d, limit, names))
    ensures var child := dir + [names[0]];
      var inside := if DescendsInto(st, child, d + 1, limit) then Contents(st, child, d + 1, limit) else [];
      var rest := Names(st, dir, d, limit, names[1..]);
      && PathsOf(Names(st, dir, d, limit, names)) == [child] + PathsOf(inside) + PathsOf(rest)
      && NoFailure(inside) && NoFailure(rest)
  {
    var child := dir + [names[0]];
    var head := [Entry(child, d + 1)];
    var inside := if DescendsInto(st, child, d + 1, limit) then Contents(st, child, d + 1, limit) else [];
    var rest := Names(st, dir, d, limit, names[1..]);
    assert Names(st, dir, d, limit, names) == head + inside + rest;
    PathsOfConcat(head + inside, rest);
    PathsOfConcat(head, inside);
    NoFailureConcat(head + inside, rest);
    NoFailureConcat(head, inside);
  }

  /** The step of `NamesCover` for one path: it is yielded by the head entry, by the walk
    * inside it, or by the rest of the loop, exactly when it is in range. */
  lemma NameCovered(st: FsState, dir: Path, d: nat, limit: nat, names: seq<Name>,
                    pin: seq<Path>, prest: seq<Path>, q: Path)
    requires WellFormed(st) && d < limit && names != []
    requires dir + [names[0]] in st.nodes && NoDup(names)
    requires DescendsInto(st, dir + [names[0]], d + 1, limit) ==>
      forall x :: x in pin <==> InRange(st, dir + [names[0]], d + 1, limit, x)
    requires !DescendsInto(st, dir + [names[0]], d + 1, limit) ==> pin == []
    requires forall x :: x in prest <==> InRange(st, dir, d, limit, x) && x[|dir|] in names[1..]
    ensures q in [dir + [names[0]]] + pin + prest <==> InRange(st, dir, d, limit, q) && q[|dir|] in names
  {
    var n := names[0];
    var child := dir + [n];
    assert child[..|dir|] == dir && child[|dir|] == n;
    assert n !in names[1..];
    if q in st.nodes && Below(q, dir) {
      if q[|dir|] == n && q != child {
        assert q[..|dir| + 1] == child;
        assert st.nodes[q[..|dir| + 1]].Dir?;
        assert InRange(st, child, d + 1, limit, q) <==> InRange(st, dir, d, limit, q);
      }
    }
    if q in pin {
      assert q[..|dir|] == q[..|child|][..|dir|];
    }
  }

  /** The step of `NamesCover` for distinctness: the head entry, the entries inside it and
    * the entries under the other names are apart. */
  lemma NamesDistinct(st: FsState, dir: Path, d: nat, limit: nat, n: Name, tail: seq<Name>,
                      pin: seq<Path>, prest: seq<Path>)
    requires n !in tail
    requires Distinct(pin) && Distinct(prest)
    requires forall x :: x in pin ==> Below(x, dir + [n])
    requires forall x :: x in prest ==> InRange(st, dir, d, limit, x) && x[|dir|] in tail
    ensures Distinct([dir + [n]] + pin + prest)
  {
    var child := dir + [n];
    forall q | q in pin ensures q !in prest && q != child {
      assert q[..|dir|] == q[..|child|][..|dir|];
    }
    DistinctConcat([child], pin);
    forall q | q in [child] + pin ensures q !in prest {
      if q == child {
        assert child[|dir|] == n;
      }
    }
    DistinctConcat([child] + pin, prest);
  }

  /** On a well-formed tree, a walk from a directory that meets no error yields the root
    * and every entry below it down to the depth limit, each exactly once. */
  lemma WalkCovers(st: FsState, root: Path, limit: nat)
    requires WellFormed(st) && IsDir(st, root) && 0 < limit
    requires NoFailure(Walk(st, root, limit))
    ensures forall q :: q in PathsOf(Walk(st, root, limit)) <==> q == root || InRange(st, root, 0, limit, q)
    ensures Distinct(PathsOf(Walk(st, root, limit)))
  {
    var inside := Contents(st, root, 0, limit);
    var w := Walk(st, root, limit);
    assert w == [Entry(root, 0)] + inside;
    assert forall i :: 0 <= i < |inside| ==> w[1 + i] == inside[i];
    ContentsCover(st, root, 0, limit);
    PathsOfConcat([Entry(root, 0)], inside);
    DistinctConcat([root], PathsOf(inside));
  }

  // ---------------------------------------------------------------- when the walk meets no error

  lemma NoFailureJoin(a: seq<WalkItem>, b: seq<WalkItem>)
    requires NoFailure(a) && NoFailure(b)
    ensures NoFailure(a + b)
  {
    forall i | 0 <= i < |a + b| ensures (a + b)[i].Entry? {
      if i >= |a| {
        assert (a + b)[i] == b[i - |a|];
      }
    }
  }

  /** On a well-formed tree in which every entry may be read, walking a directory meets
    * no error. */
  lemma {:induction false} ContentsSucceed(st: FsState, dir: Path, d: nat, limit: nat)
    requires WellFormed(st) && st.denied == {} && d < limit && IsDir(st, dir)
    ensures NoFailure(Contents(st, dir, d, limit))
    decreases MaxDepth - |dir|, 1, 0
  {
    var names := ListDir(st, dir).value;
    if names != [] {
      var n := names[0];
      ChildPath(st, dir, n);
      assert |dir + [n]| <= MaxDepth;
      forall m | m in names ensures dir + [m] in st.nodes {
        ChildPath(st, dir, m);
      }
      NamesSucceed(st, dir, d, limit, names);
    }
  }

  lemma {:induction false} NamesSucceed(st: FsState, dir: Path, d: nat, limit: nat, names: seq<Name>)
    requires WellFormed(st) && st.denied == {} && |dir| < MaxDepth && d < limit
    requires forall n :: n in names ==> dir + [n] in st.nodes
    ensures NoFailure(Names(st, dir, d, limit, names))
    decreases MaxDepth - |dir|, 0, |names|
  {
    if names != [] {
      var child := dir + [names[0]];
      var head := [Entry(child, d + 1)];
      var inside := if DescendsInto(st, child, d + 1, limit) then Contents(st, child, d + 1, limit) else [];
      var rest := Names(st, dir, d, limit, names[1..]);
      assert Names(st, dir, d, limit, names) == head + inside + rest;
      if DescendsInto(st, child, d + 1, limit) {
        ContentsSucceed(st, child, d + 1, limit);
      }
      NamesSucceed(st, dir, d, limit, names[1..]);
      NoFailureJoin(head, inside);
      NoFailureJoin(head + inside, rest);
    }
  }

  /** On a well-formed tree in which every entry may be read, walking a directory meets
    * no error. */
  lemma WalkSucceeds(st: FsState, root: Path, limit: nat)
    requires WellFormed(st) && st.denied == {} && IsDir(st, root)
    ensures NoFailure(Walk(st, root, limit))
  {
    var inside := if 0 < limit then Contents(st, root, 0, limit) else [];
    assert Walk(st, root, limit) == [Entry(root, 0)] + inside;
    if 0 < limit {
      ContentsSucceed(st, root, 0, limit);
    }
    NoFailureJoin([Entry(root, 0)], inside);
  }
}
