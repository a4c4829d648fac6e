/** `DirQuery::collect`, in its core and `fsx` versions: walk the tree below the root,
  * never yielding the root itself, down to the depth the query allows; keep directories when
  * they are wanted and regular files when they are wanted and pass the extension filter;
  * stop as soon as the limit is reached. The two versions share this loop and differ only in
  * the extension filter. */
module DirCollect {
  import opened Io
  import opened Fs
  import opened DirWalk
  import opened ExtFilter
  import opened DirQuery

  /** Which extension rule decides on regular files. */
  datatype FileRule = CoreRule(filter: Option<ExtensionFilter>) | FsxRule(allow: set<string>, deny: set<string>)

  /** What both queries hand to the loop. */
  datatype Selection = Selection(
    root: Path,
    includeFiles: bool,
    includeDirs: bool,
    recursive: bool,
    limit: Option<nat>,
    depth: Option<nat>,
    rule: FileRule)

  function OfQuery(q: Query): (s: Selection)
    ensures s.rule == CoreRule(q.filter)
  {
    Selection(q.root, q.includeFiles, q.includeDirs, q.recursive, q.limit, q.depth, CoreRule(q.filter))
  }

  function OfFsxQuery(q: FsxQuery): (s: Selection)
    ensures s.rule == FsxRule(q.allowExts, q.denyExts)
  {
    Selection(q.root, q.includeFiles, q.includeDirs, q.recursive, q.limit, q.depth, FsxRule(q.allowExts, q.denyExts))
  }

  /** The extension rule on the path of a regular file. */
  predicate FileAccepted(rule: FileRule, p: Path)
  {
    match rule
    case CoreRule(f) => IsExtensionAllowed(f, p)
    case FsxRule(allow, deny) => MatchesExtensionFilter(allow, deny, ExtensionOf(p))
  }

  /** `should_include`, on the entry's own metadata (links are not followed): a directory
    * when directories are wanted; a regular file when files are wanted and the rule passes
    * it; nothing else. */
  predicate Included(s: Selection, p: Path, n: Node)
  {
    if n.Dir? && s.includeDirs then true
    else if n.File? && s.includeFiles then FileAccepted(s.rule, p)
    else false
  }

  /** The walk's maximum depth: 1 when not recursive; otherwise the depth cap, which
    * `walkdir` raises to the minimum depth 1 when it is below it; otherwise no bound. */
  function MaxWalkDepth(s: Selection): (n: nat)
    ensures n >= 1
    ensures !s.recursive ==> n == 1
    ensures s.recursive && s.depth.Some? && s.depth.value >= 1 ==> n == s.depth.value
    ensures s.recursive && s.depth.None? ==> n == Unbounded
  {
    if !s.recursive then 1
    else match s.depth
      case Some(d) => if d < 1 then 1 else d
      case None => Unbounded
  }

  /** The number of results after which the loop stops: the limit, except that a limit of
    * 0 still lets one result through, since the check follows the push. */
  function Cap(s: Selection): (c: Option<nat>)
    ensures c.None? <==> s.limit.None?
    ensures c.Some? ==> c.value >= 1 && c.value >= s.limit.value
  {
    match s.limit
    case None => None
    case Some(n) => Some(if n < 1 then 1 else n)
  }

  /** The loop over the walk from result list `acc`: a walk error or a failing metadata
    * read ends it with the error; the root (depth 0) is skipped; an included entry is
    * appended, and the loop stops once the list reaches the limit. */
  function Gather(st: FsState, s: Selection, w: seq<WalkItem>, acc: seq<Path>): (r: Result<seq<Path>>)
    ensures r.Ok? ==> |acc| <= |r.value| && r.value[..|acc|] == acc
    decreases |w|
  {
    if w == [] then Ok(acc)
    else
      match w[0]
      case Failure(q, e) => Err(WalkError(q, e))
      case Entry(p, depth) =>
        if depth == 0 then Gather(st, s, w[1..], acc)
        else
          match SymlinkMetadata(st, p)
          case Err(e) => Err(MetadataError(s.root, p, e))
          case Ok(n) =>
            if !Included(s, p, n) then Gather(st, s, w[1..], acc)
            else
              var next := acc + [p];
              if s.limit.Some? && |next| >= s.limit.value then Ok(next)
              else
                var r := Gather(st, s, w[1..], next);
                assert r.Ok? ==> r.value[..|next|] == next && r.value[..|acc|] == next[..|acc|];
                r
  }

  /** `collect`: the loop over the walk from the root, down to the query's depth. */
  function Collect(st: FsState, s: Selection): Result<seq<Path>>
  {
    Gather(st, s, Walk(st, s.root, MaxWalkDepth(s)), [])
  }

  /** The core `DirQuery::collect` and the `fsx` one. */
  function CoreCollect(st: FsState, q: Query): Result<seq<Path>> { Collect(st, OfQuery(q)) }

  function FsxCollect(st: FsState, q: FsxQuery): Result<seq<Path>> { Collect(st, OfFsxQuery(q)) }

  // ---------------------------------------------------------------- what the loop keeps

  /** The entries below the root that the query wants, in walk order, whatever the
    * limit. An entry whose metadata cannot be read is not among them. */
  function Matches(st: FsState, s: Selection, w: seq<WalkItem>): seq<Path>
    decreases |w|
  {
    if w == [] then []
    else
      var head :=
        if w[0].Entry? && w[0].depth != 0 && SymlinkMetadata(st, w[0].path).Ok?
           && Included(s, w[0].path, SymlinkMetadata(st, w[0].path).value)
        then [w[0].path] else [];
      head + Matches(st, s, w[1..])
  }

  /** The first `cap` elements, or all of them with no cap. */
  function Take(xs: seq<Path>, cap: Option<nat>): (r: seq<Path>)
    ensures cap.None? ==> r == xs
    ensures cap.Some? ==> |r| == (if |xs| < cap.value then |xs| else cap.value)
    ensures r == xs[..|r|]
  {
    match cap
    case None => xs
    case Some(c) => if |xs| < c then xs else xs[..c]
  }

  /** A loop that finishes without error returns the wanted entries of the walk, in walk
    * order, cut at the cap. */
  lemma {:induction false} GatherTakes(st: FsState, s: Selection, w: seq<WalkItem>, acc: seq<Path>)
    requires Cap(s).None? || |acc| < Cap(s).value
    requires Gather(st, s, w, acc).Ok?
    ensures Gather(st, s, w, acc).value == Take(acc + Matches(st, s, w), Cap(s))
    decreases |w|
  {
    if w == [] {
      assert acc + Matches(st, s, w) == acc;
    } else {
      var rest := Matches(st, s, w[1..]);
      var item := w[0];
      if item.Entry? && item.depth != 0 && Included(s, item.path, SymlinkMetadata(st, item.path).value) {
        var next := acc + [item.path];
        assert Matches(st, s, w) == [item.path] + rest;
        assert acc + Matches(st, s, w) == next + rest;
        if s.limit.Some? && |next| >= s.limit.value {
          assert (next + rest)[..|next|] == next;
        } else {
          GatherTakes(st, s, w[1..], next);
        }
      } else {
        assert Matches(st, s, w) == rest;
        GatherTakes(st, s, w[1..], acc);
      }
    }
  }

  /** A successful `collect` is the wanted entries of the walk in walk order, cut at the
    * cap: with no limit, all of them; with limit `n`, the first `max(n, 1)`. */
  lemma CollectTakes(st: FsState, s: Selection)
    requires Collect(st, s).Ok?
    ensures var w := Walk(st, s.root, MaxWalkDepth(s));
      Collect(st, s).value == Take(Matches(st, s, w), Cap(s))
    ensures s.limit.Some? ==> |Collect(st, s).value| <= Cap(s).value
  {
    var w := Walk(st, s.root, MaxWalkDepth(s));
    GatherTakes(st, s, w, []);
    assert [] + Matches(st, s, w) == Matches(st, s, w);
  }

  /** The entries of a walk that the loop may keep. */
  predicate Wanted(st: FsState, s: Selection, p: Path)
  {
    p in st.nodes && p !in st.denied && Included(s, p, st.nodes[p])
  }

  /** What `Matches` holds, given the shape of a walk from the root: an entry of the walk
    * other than the root, readable and wanted. */
  lemma {:induction false} MatchesMembers(st: FsState, s: Selection, w: seq<WalkItem>)
    requires forall i :: 0 <= i < |w| && w[i].Entry? ==>
      IsPrefix(s.root, w[i].path) && w[i].depth == |w[i].path| - |s.root|
    ensures forall p :: p in Matches(st, s, w) <==> p in PathsOf(w) && p != s.root && Wanted(st, s, p)
    ensures Distinct(PathsOf(w)) ==> Distinct(Matches(st, s, w))
    decreases |w|
  {
    if w != [] {
      var tail := w[1..];
      assert forall i :: 0 <= i < |tail| ==> tail[i] == w[i + 1];
      MatchesMembers(st, s, tail);
      var item := w[0];
      if item.Entry? {
        assert item.depth == 0 <==> item.path == s.root by {
          if item.depth == 0 {
            assert item.path == item.path[..|s.root|];
          }
        }
      }
      if Distinct(PathsOf(w)) {
        DistinctTail(w);
        if item.Entry? {
          DistinctConcat(if Matches(st, s, w) == Matches(st, s, tail) then [] else [item.path], Matches(st, s, tail));
        }
      }
    }
  }

  /** The paths of a walk after its first item are distinct, and none is the first's. */
  lemma DistinctTail(w: seq<WalkItem>)
    requires w != [] && Distinct(PathsOf(w))
    ensures Distinct(PathsOf(w[1..]))
    ensures w[0].Entry? ==> w[0].path !in PathsOf(w[1..])
  {
    var head := if w[0].Entry? then [w[0].path] else [];
    assert PathsOf(w) == head + PathsOf(w[1..]);
    DistinctSplit(head, PathsOf(w[1..]));
  }

  /** Every path a successful `collect` returns lies below the root (so the root itself is
    * never returned), no deeper than the query allows, and is an entry the query wants;
    * and none is returned twice on a well-formed tree. */
  lemma CollectResultsQualify(st: FsState, s: Selection)
    requires Collect(st, s).Ok?
    ensures forall p :: p in Collect(st, s).value ==>
      Below(p, s.root) && |p| - |s.root| <= MaxWalkDepth(s) && Wanted(st, s, p)
  {
    var w := Walk(st, s.root, MaxWalkDepth(s));
    CollectTakes(st, s);
    MatchesMembers(st, s, w);
    forall p | p in Collect(st, s).value
      ensures Below(p, s.root) && |p| - |s.root| <= MaxWalkDepth(s) && Wanted(st, s, p)
    {
      assert p in Matches(st, s, w);
      var i :| 0 <= i < |w| && w[i].Entry? && w[i].path == p by {
        PathsOfHas(w, p);
      }
    }
  }

  /** A path of `PathsOf(w)` comes from an entry of `w`. */
  lemma {:induction false} PathsOfHas(w: seq<WalkItem>, p: Path)
    requires p in PathsOf(w)
    ensures exists i :: 0 <= i < |w| && w[i].Entry? && w[i].path == p
    decreases |w|
  {
    if !(w[0].Entry? && w[0].path == p) {
      PathsOfHas(w[1..], p);
      var i :| 0 <= i < |w[1..]| && w[1..][i].Entry? && w[1..][i].path == p;
      assert w[i + 1] == w[1..][i];
    }
  }

  /** On a well-formed tree in which every entry may be read, `collect` on a directory
    * with no limit succeeds and returns exactly the wanted entries below the root down to
    * the query's depth, each once. */
  lemma CollectFindsAll(st: FsState, s: Selection)
    requires WellFormed(st) && st.denied == {} && IsDir(st, s.root) && s.limit.None?
    ensures Collect(st, s).Ok?
    ensures forall p :: p in Collect(st, s).value <==>
      p in st.nodes && Below(p, s.root) && |p| - |s.root| <= MaxWalkDepth(s) && Included(s, p, st.nodes[p])
    ensures Distinct(Collect(st, s).value)
  {
    var lim := MaxWalkDepth(s);
    var w := Walk(st, s.root, lim);
    WalkSucceeds(st, s.root, lim);
    WalkCovers(st, s.root, lim);
    GatherSucceeds(st, s, w, []);
    CollectTakes(st, s);
    MatchesMembers(st, s, w);
  }

  /** With no walk error and nothing denied, the loop never fails. */
  lemma {:induction false} GatherSucceeds(st: FsState, s: Selection, w: seq<WalkItem>, acc: seq<Path>)
    requires NoFailure(w) && st.denied == {}
    requires forall p :: p in PathsOf(w) ==> p in st.nodes
    ensures Gather(st, s, w, acc).Ok?
    decreases |w|
  {
    if w != [] {
      assert PathsOf(w) == [w[0].path] + PathsOf(w[1..]);
      var next := if w[0].depth != 0 && Included(s, w[0].path, st.nodes[w[0].path]) then acc + [w[0].path] else acc;
      GatherSucceeds(st, s, w[1..], next);
    }
  }

  /** A missing root fails with a walk error of kind `NotFound`. */
  lemma MissingRootFails(st: FsState, s: Selection)
    requires s.root !in st.nodes && s.root !in st.denied
    ensures Collect(st, s).Err?
    ensures Collect(st, s).error.kind == NotFound
    ensures "walk error at '" <= Collect(st, s).error.msg
  {
    assert Walk(st, s.root, MaxWalkDepth(s)) == [Failure(s.root, OsError(NotFound))];
  }

  /** The imperative loop: walk item by item, stop at the first error, append each wanted
    * entry, and leave as soon as the limit is met. */
  method RunCollect(st: FsState, s: Selection) returns (r: Result<seq<Path>>)
    ensures r == Collect(st, s)
  {
    var items := Walk(st, s.root, MaxWalkDepth(s));
    var results: seq<Path> := [];
    var i := 0;
    while i < |items|
      invariant 0 <= i <= |items|
      invariant Gather(st, s, items, []) == Gather(st, s, items[i..], results)
      decreases |items| - i
    {
      assert items[i..][1..] == items[i + 1..];
      match items[i]
      case Failure(q, e) =>
        return Err(WalkError(q, e));
      case Entry(p, depth) =>
        if depth != 0 {
          var meta := SymlinkMetadata(st, p);
          if meta.Err? {
            return Err(MetadataError(s.root, p, meta.error));
          }
          if Included(s, p, meta.value) {
            results := results + [p];
            if s.limit.Some? && |results| >= s.limit.value {
              return Ok(results);
            }
          }
        }
      i := i + 1;
    }
    assert items[i..] == [];
    r := Ok(results);
  }
}
