/** The directory query builders: the core `DirQuery` with an optional `ExtensionFilter`,
  * its stand-alone `DirQueryOptions`, and the `fsx` `DirQuery` with separate allow and deny
  * sets. Every setter takes the query by value and hands back an updated copy. */
module DirQuery {
  import opened Io
  import opened Text
  import opened Fs
  import opened ExtFilter

  // ---------------------------------------------------------------- the core query

  datatype Query = Query(
    root: Path,
    includeFiles: bool,
    includeDirs: bool,
    recursive: bool,
    limit: Option<nat>,
    depth: Option<nat>,
    filter: Option<ExtensionFilter>)

  /** `DirQuery::new`: files and directories, recursive, no limit, no depth cap, no filter. */
  function NewQuery(root: Path): (q: Query)
    ensures q.root == root
    ensures q.includeFiles && q.includeDirs && q.recursive
    ensures q.limit.None? && q.depth.None? && q.filter.None?
  {
    Query(root, true, true, true, None, None, None)
  }

  function IncludeFiles(q: Query, b: bool): (r: Query)
    ensures r.includeFiles == b && r.(includeFiles := q.includeFiles) == q
  {
    q.(includeFiles := b)
  }

  function IncludeDirs(q: Query, b: bool): (r: Query)
    ensures r.includeDirs == b && r.(includeDirs := q.includeDirs) == q
  {
    q.(includeDirs := b)
  }

  function Recursive(q: Query, b: bool): (r: Query)
    ensures r.recursive == b && r.(recursive := q.recursive) == q
  {
    q.(recursive := b)
  }

  function Limit(q: Query, n: nat): (r: Query)
    ensures r.limit == Some(n) && r.(limit := q.limit) == q
  {
    q.(limit := Some(n))
  }

  function Depth(q: Query, n: nat): (r: Query)
    ensures r.depth == Some(n) && r.(depth := q.depth) == q
  {
    q.(depth := Some(n))
  }

  function WithExtensionFilter(q: Query, f: ExtensionFilter): (r: Query)
    ensures r.filter == Some(f) && r.(filter := q.filter) == q
  {
    q.(filter := Some(f))
  }

  /** `allow_extensions`: the filter becomes a fresh allow list; an earlier filter of
    * either kind is dropped, not merged. */
  function AllowExtensions(q: Query, exts: seq<string>): (r: Query)
    ensures r.filter == Some(Allow(NormalizedSet(exts))) && r.(filter := q.filter) == q
  {
    q.(filter := Some(AllowList(exts)))
  }

  /** `deny_extensions`: the filter becomes a fresh deny list. */
  function DenyExtensions(q: Query, exts: seq<string>): (r: Query)
    ensures r.filter == Some(Deny(NormalizedSet(exts))) && r.(filter := q.filter) == q
  {
    q.(filter := Some(DenyList(exts)))
  }

  /** Setting a field twice keeps the last value; the filter calls overwrite each other. */
  lemma LastSetterWins(q: Query, a: bool, b: bool, m: nat, n: nat, xs: seq<string>, ys: seq<string>)
    ensures IncludeFiles(IncludeFiles(q, a), b) == IncludeFiles(q, b)
    ensures IncludeDirs(IncludeDirs(q, a), b) == IncludeDirs(q, b)
    ensures Recursive(Recursive(q, a), b) == Recursive(q, b)
    ensures Limit(Limit(q, m), n) == Limit(q, n)
    ensures Depth(Depth(q, m), n) == Depth(q, n)
    ensures DenyExtensions(AllowExtensions(q, xs), ys) == DenyExtensions(q, ys)
    ensures AllowExtensions(DenyExtensions(q, xs), ys) == AllowExtensions(q, ys)
  {
  }

  // ---------------------------------------------------------------- DirQueryOptions

  datatype QueryOptions = QueryOptions(
    includeFiles: bool,
    includeDirs: bool,
    recursive: bool,
    limit: Option<nat>,
    depth: Option<nat>,
    filter: Option<ExtensionFilter>)

  /** `DirQueryOptions::default` (and `new`, which is the same): the defaults of a new
    * query. */
  function DefaultOptions(): (o: QueryOptions)
    ensures o.includeFiles && o.includeDirs && o.recursive
    ensures o.limit.None? && o.depth.None? && o.filter.None?
  {
    QueryOptions(true, true, true, None, None, None)
  }

  /** The options carry the same defaults as `DirQuery::new`. */
  lemma DefaultOptionsMatchNewQuery(root: Path)
    ensures var o, q := DefaultOptions(), NewQuery(root);
      o == QueryOptions(q.includeFiles, q.includeDirs, q.recursive, q.limit, q.depth, q.filter)
  {
  }

  function OptIncludeFiles(o: QueryOptions, b: bool): (r: QueryOptions)
    ensures r.includeFiles == b && r.(includeFiles := o.includeFiles) == o
  {
    o.(includeFiles := b)
  }

  function OptIncludeDirs(o: QueryOptions, b: bool): (r: QueryOptions)
    ensures r.includeDirs == b && r.(includeDirs := o.includeDirs) == o
  {
    o.(includeDirs := b)
  }

  function OptRecursive(o: QueryOptions, b: bool): (r: QueryOptions)
    ensures r.recursive == b && r.(recursive := o.recursive) == o
  {
    o.(recursive := b)
  }

  function OptLimit(o: QueryOptions, n: nat): (r: QueryOptions)
    ensures r.limit == Some(n) && r.(limit := o.limit) == o
  {
    o.(limit := Some(n))
  }

  function OptDepth(o: QueryOptions, n: nat): (r: QueryOptions)
    ensures r.depth == Some(n) && r.(depth := o.depth) == o
  {
    o.(depth := Some(n))
  }

  function OptExtensionFilter(o: QueryOptions, f: ExtensionFilter): (r: QueryOptions)
    ensures r.filter == Some(f) && r.(filter := o.filter) == o
  {
    o.(filter := Some(f))
  }

  function OptAllowExtensions(o: QueryOptions, exts: seq<string>): (r: QueryOptions)
    ensures r.filter == Some(Allow(NormalizedSet(exts))) && r.(filter := o.filter) == o
  {
    o.(filter := Some(AllowList(exts)))
  }

  function OptDenyExtensions(o: QueryOptions, exts: seq<string>): (r: QueryOptions)
    ensures r.filter == Some(Deny(NormalizedSet(exts))) && r.(filter := o.filter) == o
  {
    o.(filter := Some(DenyList(exts)))
  }

  // ---------------------------------------------------------------- the fsx query

  datatype FsxQuery = FsxQuery(
    root: Path,
    includeFiles: bool,
    includeDirs: bool,
    recursive: bool,
    limit: Option<nat>,
    depth: Option<nat>,
    allowExts: set<string>,
    denyExts: set<string>)

  /** `fsx` `DirQuery::new`: files and directories, recursive, no limit, no depth cap,
    * both extension sets empty. */
  function NewFsxQuery(root: Path): (q: FsxQuery)
    ensures q.root == root
    ensures q.includeFiles && q.includeDirs && q.recursive
    ensures q.limit.None? && q.depth.None? && q.allowExts == {} && q.denyExts == {}
  {
    FsxQuery(root, true, true, true, None, None, {}, {})
  }

  function FsxIncludeFiles(q: FsxQuery, b: bool): (r: FsxQuery)
    ensures r.includeFiles == b && r.(includeFiles := q.includeFiles) == q
  {
    q.(includeFiles := b)
  }

  function FsxIncludeDirs(q: FsxQuery, b: bool): (r: FsxQuery)
    ensures r.includeDirs == b && r.(includeDirs := q.includeDirs) == q
  {
    q.(includeDirs := b)
  }

  function FsxRecursive(q: FsxQuery, b: bool): (r: FsxQuery)
    ensures r.recursive == b && r.(recursive := q.recursive) == q
  {
    q.(recursive := b)
  }

  function FsxLimit(q: FsxQuery, n: nat): (r: FsxQuery)
    ensures r.limit == Some(n) && r.(limit := q.limit) == q
  {
    q.(limit := Some(n))
  }

  function FsxDepth(q: FsxQuery, n: nat): (r: FsxQuery)
    ensures r.depth == Some(n) && r.(depth := q.depth) == q
  {
    q.(depth := Some(n))
  }

  /** `filter_extension`: the normalised extension joins the allow set; one that
    * normalises to nothing leaves the query as it was. */
  function FilterExtension(q: FsxQuery, ext: string): (r: FsxQuery)
    ensures r.allowExts == q.allowExts + NormalizedSet([ext])
    ensures r.(allowExts := q.allowExts) == q
  {
    match NormalizeExtOpt(ext)
    case Some(e) => q.(allowExts := q.allowExts + {e})
    case None => q
  }

  /** `exclude_extension`: the same for the deny set. */
  function ExcludeExtension(q: FsxQuery, ext: string): (r: FsxQuery)
    ensures r.denyExts == q.denyExts + NormalizedSet([ext])
    ensures r.(denyExts := q.denyExts) == q
  {
    match NormalizeExtOpt(ext)
    case Some(e) => q.(denyExts := q.denyExts + {e})
    case None => q
  }

  /** `filter_extensions`: each extension in turn joins the allow set; the sets
    * accumulate over calls, and the deny set is not touched. */
  method FilterExtensions(q: FsxQuery, exts: seq<string>) returns (r: FsxQuery)
    ensures r.allowExts == q.allowExts + NormalizedSet(exts)
    ensures r.(allowExts := q.allowExts) == q
  {
    r := q;
    var i := 0;
    while i < |exts|
      invariant 0 <= i <= |exts|
      invariant r.allowExts == q.allowExts + NormalizedSet(exts[..i])
      invariant r.(allowExts := q.allowExts) == q
    {
      NormalizedSetSnoc(exts, i);
      r := FilterExtension(r, exts[i]);
      i := i + 1;
    }
    assert exts[..i] == exts;
  }

  /** `exclude_extensions`: each extension in turn joins the deny set. */
  method ExcludeExtensions(q: FsxQuery, exts: seq<string>) returns (r: FsxQuery)
    ensures r.denyExts == q.denyExts + NormalizedSet(exts)
    ensures r.(denyExts := q.denyExts) == q
  {
    r := q;
    var i := 0;
    while i < |exts|
      invariant 0 <= i <= |exts|
      invariant r.denyExts == q.denyExts + NormalizedSet(exts[..i])
      invariant r.(denyExts := q.denyExts) == q
    {
      NormalizedSetSnoc(exts, i);
      r := ExcludeExtension(r, exts[i]);
      i := i + 1;
    }
    assert exts[..i] == exts;
  }

  /** One more extension adds its normalised form to the set of those before it. */
  lemma NormalizedSetSnoc(exts: seq<string>, i: nat)
    requires i < |exts|
    ensures NormalizedSet(exts[..i + 1]) == NormalizedSet(exts[..i]) + NormalizedSet([exts[i]])
  {
    assert exts[..i + 1] == exts[..i] + [exts[i]];
    NormalizedSetConcat(exts[..i], [exts[i]]);
  }

  /** Normalising a concatenation gives the union. */
  lemma NormalizedSetConcat(a: seq<string>, b: seq<string>)
    ensures NormalizedSet(a + b) == NormalizedSet(a) + NormalizedSet(b)
  {
    forall e ensures e in NormalizedSet(a + b) <==> e in NormalizedSet(a) + NormalizedSet(b) {
      if e in NormalizedSet(a + b) {
        var x :| x in a + b && NormalizeExt(x) == e;
        assert x in a || x in b;
      }
      if e in NormalizedSet(a) {
        var x :| x in a && NormalizeExt(x) == e;
        assert x in a + b;
      }
      if e in NormalizedSet(b) {
        var x :| x in b && NormalizeExt(x) == e;
        assert x in a + b;
      }
    }
  }

  // ---------------------------------------------------------------- presets

  /** `fsx::dir::entries`: a new query, with every default. */
  function Entries(root: Path): (q: FsxQuery)
    ensures q.root == root && q.includeFiles && q.includeDirs && q.recursive
    ensures q.limit.None? && q.depth.None? && q.allowExts == {} && q.denyExts == {}
  {
    NewFsxQuery(root)
  }

  /** `fsx::dir::files`: regular files only, otherwise the defaults. */
  function Files(root: Path): (q: FsxQuery)
    ensures q.includeFiles && !q.includeDirs
    ensures q.(includeDirs := true) == NewFsxQuery(root)
  {
    FsxIncludeFiles(FsxIncludeDirs(NewFsxQuery(root), false), true)
  }

  /** `fsx::dir::subdirs`: directories only, otherwise the defaults. */
  function Subdirs(root: Path): (q: FsxQuery)
    ensures !q.includeFiles && q.includeDirs
    ensures q.(includeFiles := true) == NewFsxQuery(root)
  {
    FsxIncludeFiles(FsxIncludeDirs(NewFsxQuery(root), true), false)
  }
}
