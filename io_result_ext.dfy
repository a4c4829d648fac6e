/** Adding the path (or the pair of paths) an operation was working on to a failed
  * result, keeping the error's kind. */
module IoResultExt {
  import opened Io
  import Fs

  /** `t` occurs in `s` at position `i`. */
  predicate OccursAt(s: string, t: string, i: nat) { i + |t| <= |s| && s[i..i + |t|] == t }

  /** `t` occurs somewhere in `s`. */
  predicate Mentions(s: string, t: string) { exists i :: 0 <= i <= |s| && OccursAt(s, t, i) }

  /** `s` ends with `t`. */
  predicate EndsWith(s: string, t: string) { |t| <= |s| && s[|s| - |t|..] == t }

  /** `with_path_context(action, path)`: an error becomes `"{action} '{path}': {error}"`. */
  function WithPathContext<T>(r: Result<T>, action: string, p: Fs.Path): (o: Result<T>)
    ensures r.Ok? ==> o == r
    ensures r.Err? ==> o.Err? && o.error.kind == r.error.kind
    ensures r.Err? ==> OccursAt(o.error.msg, action, 0)
    ensures r.Err? ==> OccursAt(o.error.msg, Fs.Display(p), |action| + 2)
    ensures r.Err? ==> EndsWith(o.error.msg, r.error.msg)
  {
    match r
    case Ok(_) => r
    case Err(e) => Err(Ctx(e, action, p))
  }

  /** `with_paths_context(action, src, dst)`: an error becomes
    * `"{action} '{src}' -> '{dst}': {error}"`. */
  function WithPathsContext<T>(r: Result<T>, action: string, src: Fs.Path, dst: Fs.Path): (o: Result<T>)
    ensures r.Ok? ==> o == r
    ensures r.Err? ==> o.Err? && o.error.kind == r.error.kind
    ensures r.Err? ==> OccursAt(o.error.msg, action, 0)
    ensures r.Err? ==> OccursAt(o.error.msg, Fs.Display(src), |action| + 2)
    ensures r.Err? ==> OccursAt(o.error.msg, Fs.Display(dst), |action| + |Fs.Display(src)| + 8)
    ensures r.Err? ==> EndsWith(o.error.msg, r.error.msg)
  {
    match r
    case Ok(_) => r
    case Err(e) => Err(Ctx2(e, action, src, dst))
  }

  /** The error-only form, for call sites that already hold an `io::Error`; the
    * properties of the message are stated on `WithPathContext`. */
  function Ctx(e: IoError, action: string, p: Fs.Path): (o: IoError)
    ensures o.kind == e.kind
  {
    IoError(e.kind, action + " '" + Fs.Display(p) + "': " + e.msg)
  }

  function Ctx2(e: IoError, action: string, src: Fs.Path, dst: Fs.Path): (o: IoError)
    ensures o.kind == e.kind
  {
    IoError(e.kind, action + " '" + Fs.Display(src) + "' -> '" + Fs.Display(dst) + "': " + e.msg)
  }

  /** Context added twice (an inner and an outer call site) still keeps the original kind
    * and the original message at the end. */
  lemma NestedContextKeepsKindAndMessage<T>(r: Result<T>, inner: string, outer: string, p: Fs.Path, q: Fs.Path)
    requires r.Err?
    ensures var o := WithPathContext(WithPathContext(r, inner, p), outer, q);
      o.Err? && o.error.kind == r.error.kind &&
      EndsWith(o.error.msg, r.error.msg)
  {
    var m := WithPathContext(r, inner, p);
    var o := WithPathContext(m, outer, q);
    var n := |o.error.msg|;
    assert EndsWith(o.error.msg, m.error.msg) && EndsWith(m.error.msg, r.error.msg);
    assert o.error.msg[n - |r.error.msg|..] == m.error.msg[|m.error.msg| - |r.error.msg|..];
  }
}
