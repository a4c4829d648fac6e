/** Filtering files by extension. Two versions live side by side: the `ExtensionFilter`
  * of the core query (an allow list or a deny list) and the pair of allow and deny sets of
  * the `fsx` query. They disagree on files without an extension. */
module ExtFilter {
  import opened Io
  import opened Text
  import Fs
  import PathExt

  datatype ExtensionFilter = Allow(exts: set<string>) | Deny(exts: set<string>)

  /** The extensions given, normalised, with those that normalise to nothing dropped and
    * duplicates merged. */
  function NormalizedSet(exts: seq<string>): (s: set<string>)
    ensures forall e :: e in s <==> e != [] && exists x :: x in exts && NormalizeExt(x) == e
    decreases |exts|
  {
    if exts == [] then {}
    else
      var n := NormalizeExt(exts[0]);
      var rest := NormalizedSet(exts[1..]);
      assert forall x :: x in exts <==> x == exts[0] || x in exts[1..];
      (if n == [] then {} else {n}) + rest
  }

  /** `ExtensionFilter::allow`. */
  function AllowList(exts: seq<string>): (f: ExtensionFilter)
    ensures f.Allow? && f.exts == NormalizedSet(exts)
  {
    Allow(NormalizedSet(exts))
  }

  /** `ExtensionFilter::deny`. */
  function DenyList(exts: seq<string>): (f: ExtensionFilter)
    ensures f.Deny? && f.exts == NormalizedSet(exts)
  {
    Deny(NormalizedSet(exts))
  }

  /** A filter built from a list never holds the empty extension, and normalising an
    * extension twice changes nothing more, so each member of it stands for itself. */
  lemma NormalizedSetIsNormal(exts: seq<string>)
    ensures [] !in NormalizedSet(exts)
    ensures forall e :: e in NormalizedSet(exts) ==> NormalizeExt(e) == e
  {
    forall e | e in NormalizedSet(exts) ensures NormalizeExt(e) == e {
      var x :| x in exts && NormalizeExt(x) == e;
      NormalizeExtIdempotent(x);
    }
  }

  /** Normalising is idempotent. */
  lemma {:induction false} NormalizeExtIdempotent(s: string)
    ensures NormalizeExt(NormalizeExt(s)) == NormalizeExt(s)
    decreases |s|
  {
    if s != [] && s[0] == '.' {
      NormalizeExtIdempotent(s[1..]);
    } else {
      var r := Lower(s);
      LowerIdempotent(s);
      if r != [] {
        assert r[0] == LowerChar(s[0]);
      }
    }
  }

  /** The extension of a path's last name, if it has one. */
  function ExtensionOf(p: Fs.Path): Option<string>
  {
    PathExt.FsExtension(p)
  }

  // ---------------------------------------------------------------- the core filter

  /** `is_extension_allowed` on an extension already taken off the path: with no filter
    * everything passes; an allow list passes exactly the extensions it lists; a deny list
    * passes everything it does not list. A name without an extension fails an allow list
    * and passes a deny list. */
  function ExtAllowed(filter: Option<ExtensionFilter>, ext: Option<string>): (ok: bool)
    ensures filter.None? ==> ok
    ensures filter.Some? && filter.value.Allow? ==> (ok <==> ext.Some? && NormalizeExt(ext.value) in filter.value.exts)
    ensures filter.Some? && filter.value.Deny? ==> (ok <==> ext.None? || NormalizeExt(ext.value) !in filter.value.exts)
  {
    match filter
    case None => true
    case Some(f) =>
      match (ext, f)
      case (Some(e), Allow(allowed)) => NormalizeExt(e) in allowed
      case (Some(e), Deny(denied)) => NormalizeExt(e) !in denied
      case (None, Allow(_)) => false
      case (None, Deny(_)) => true
  }

  /** `DirQuery::is_extension_allowed`. */
  function IsExtensionAllowed(filter: Option<ExtensionFilter>, p: Fs.Path): (ok: bool)
    ensures ok == ExtAllowed(filter, ExtensionOf(p))
  {
    ExtAllowed(filter, ExtensionOf(p))
  }

  /** An empty allow list passes nothing; an empty deny list passes everything. */
  lemma EmptyListsDecideEverything(ext: Option<string>)
    ensures !ExtAllowed(Some(Allow({})), ext)
    ensures ExtAllowed(Some(Deny({})), ext)
  {
  }

  /** Allow and deny lists over the same set are complements on names with an extension. */
  lemma AllowDenyComplement(s: set<string>, e: string)
    ensures ExtAllowed(Some(Allow(s)), Some(e)) <==> !ExtAllowed(Some(Deny(s)), Some(e))
  {
  }

  /** Extensions have no dots in them; for those, normalising is lower-casing. */
  lemma NormalizeUndotted(e: string)
    requires forall j :: 0 <= j < |e| ==> e[j] != '.'
    ensures NormalizeExt(e) == Lower(e)
  {
  }

  /** Matching ignores ASCII case: "RS" and "Rs" pass wherever "rs" does. */
  lemma ExtAllowedIgnoresCase(filter: Option<ExtensionFilter>, e1: string, e2: string)
    requires forall j :: 0 <= j < |e1| ==> e1[j] != '.'
    requires forall j :: 0 <= j < |e2| ==> e2[j] != '.'
    requires Lower(e1) == Lower(e2)
    ensures ExtAllowed(filter, Some(e1)) == ExtAllowed(filter, Some(e2))
  {
    NormalizeUndotted(e1);
    NormalizeUndotted(e2);
  }

  /** The cases of the source's own tests: only the last extension counts, and names
    * without one (including dot-files) fail an allow list but pass a deny list. */
  lemma ExtAllowedExamples()
    ensures PathExt.SplitName("archive.tar.gz").ext == Some("gz")
    ensures PathExt.SplitName("archive.tar").ext == Some("tar")
    ensures PathExt.SplitName(".gitignore").ext == None
    ensures ExtAllowed(Some(AllowList(["gz"])), Some("gz"))
    ensures !ExtAllowed(Some(AllowList(["gz"])), Some("tar"))
    ensures !ExtAllowed(Some(AllowList(["rs", "toml"])), None)
    ensures ExtAllowed(Some(DenyList(["tmp", "log", "bak"])), None)
    ensures ExtAllowed(Some(AllowList(["rs"])), Some("RS"))
  {
    var a, b, g := "archive.tar.gz", "archive.tar", ".gitignore";
    assert a[7] == '.' && a[11] == '.' && a[12] == 'g' && a[13] == 'z';
    assert PathExt.LastDot(a) == Some(11);
    assert a[12..] == "gz";
    assert b[7] == '.' && b[8] == 't' && b[9] == 'a' && b[10] == 'r';
    assert PathExt.LastDot(b) == Some(7);
    assert b[8..] == "tar";
    assert g[0] == '.' && g[1] == 'g' && g[2] == 'i' && g[3] == 't' && g[4] == 'i' && g[5] == 'g';
    assert g[6] == 'n' && g[7] == 'o' && g[8] == 'r' && g[9] == 'e';
    assert PathExt.LastDot(g) == Some(0);
    assert NormalizeExt("gz") == "gz";
    assert NormalizeExt("tar") == "tar";
    assert NormalizeExt("RS") == "rs";
    assert NormalizedSet(["gz"]) == {"gz"};
    assert "tar" !in NormalizedSet(["gz"]);
    assert "rs" in NormalizedSet(["rs"]);
  }

  // ---------------------------------------------------------------- the fsx filter

  /** `fsx`'s `matches_extension_filter`: a name with an extension fails when a non-empty
    * allow set lacks it or the deny set holds it; a name without one (or whose extension
    * normalises to nothing) passes only when both sets are empty. */
  function MatchesExtensionFilter(allow: set<string>, deny: set<string>, ext: Option<string>): (ok: bool)
    ensures ext.Some? && NormalizeExt(ext.value) != [] ==>
      (ok <==> (allow == {} || NormalizeExt(ext.value) in allow) && NormalizeExt(ext.value) !in deny)
    ensures ext.None? ==> (ok <==> allow == {} && deny == {})
  {
    match (if ext.Some? then NormalizeExtOpt(ext.value) else None)
    case Some(e) =>
      if allow != {} && e !in allow then false
      else if deny != {} && e in deny then false
      else true
    case None => allow == {} && deny == {}
  }

  /** With both sets empty every file passes. */
  lemma NoSetsPassEverything(ext: Option<string>)
    ensures MatchesExtensionFilter({}, {}, ext)
  {
  }

  /** The two filters agree on names with an extension, as long as only one of the fsx
    * sets is in use and it holds normalised, non-empty extensions; they disagree on a name
    * without an extension under a deny list: the core filter passes it, the fsx one drops
    * it. */
  lemma CoreAndFsxFilters(s: set<string>, e: string)
    requires NormalizeExt(e) != []
    ensures ExtAllowed(Some(Allow(s)), Some(e)) == MatchesExtensionFilter(s, {}, Some(e)) || s == {}
    ensures ExtAllowed(Some(Deny(s)), Some(e)) == MatchesExtensionFilter({}, s, Some(e))
    ensures s != {} ==> ExtAllowed(Some(Deny(s)), None) && !MatchesExtensionFilter({}, s, None)
  {
  }
}
