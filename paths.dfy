/**
 * The parts of Rust's `Path`/`PathBuf` the program relies on, over literal strings with
 * '/' as the separator: `push`, `parent`, `file_name`, `file_stem` and `extension`.
 */
module Paths {
  import opened Options

  /** The base of a `push` with the separator it gets before a relative component. */
  function DirPrefix(base: string): string
  {
    if base == [] || base[|base| - 1] == '/' then base else base + "/"
  }

  /** `PathBuf::push`: an absolute `rel` replaces the base, otherwise a separator is added when the base does not already end in one. */
  function Join(base: string, rel: string): string
  {
    if |rel| > 0 && rel[0] == '/' then rel else DirPrefix(base) + rel
  }

  /** A joined path ends with the part pushed and, when that part is relative, starts with the base. */
  lemma JoinKeepsParts(base: string, rel: string)
    ensures var r := Join(base, rel);
      && |r| >= |rel| && r[|r| - |rel|..] == rel
      && ((rel == [] || rel[0] != '/') ==> |base| <= |r| && r[..|base|] == base)
  {
    var r := Join(base, rel);
    if !(|rel| > 0 && rel[0] == '/') {
      assert DirPrefix(base)[..|base|] == base;
      assert r[..|DirPrefix(base)|] == DirPrefix(base);
    }
  }

  /** The text after the last '/' (all of `p` when it has none). */
  function LastSegment(p: string): (r: string)
    ensures |r| <= |p| && r == p[|p| - |r|..]
    ensures '/' !in r
    ensures |r| < |p| ==> p[|p| - |r| - 1] == '/'
    decreases |p|
  {
    if p == [] || p[|p| - 1] == '/' then []
    else LastSegment(p[..|p| - 1]) + [p[|p| - 1]]
  }

  /**
   * `Path::file_name`: the last component, where trailing separators and "." components
   * are skipped; `None` for an empty path, the root, or a path ending in "..".
   */
  function FileName(p: string): (r: Option<string>)
    ensures r.Some? ==> r.value != [] && '/' !in r.value && r.value != "." && r.value != ".."
    decreases |p|
  {
    if p == [] then None
    else if p[|p| - 1] == '/' then FileName(p[..|p| - 1])
    else
      var last := LastSegment(p);
      if last == "." then (if |p| == 1 then None else FileName(p[..|p| - 1]))
      else if last == ".." then None
      else Some(last)
  }

  /** Index of the last '.' in `name`, if any. */
  function LastDot(name: string): (r: Option<nat>)
    ensures r.Some? ==> r.value < |name| && name[r.value] == '.' && '.' !in name[r.value + 1..]
    ensures r.None? ==> '.' !in name
    decreases |name|
  {
    if name == [] then None
    else if name[|name| - 1] == '.' then Some(|name| - 1)
    else
      var r := LastDot(name[..|name| - 1]);
      assert name == name[..|name| - 1] + [name[|name| - 1]];
      r
  }

  /**
   * Rust's split of a file name at its last dot, giving `(file_stem, extension)`:
   * no dot, a single leading dot, or the name ".." leave the whole name as the stem
   * and no extension.
   */
  function SplitAtDot(name: string): (string, Option<string>)
  {
    if name == ".." then (name, None)
    else match LastDot(name)
      case None => (name, None)
      case Some(i) => if i == 0 then (name, None) else (name[..i], Some(name[i + 1..]))
  }

  /** Stem and extension put back together give the file name again. */
  lemma SplitAtDotRoundTrip(name: string)
    ensures var (stem, ext) := SplitAtDot(name);
      (ext.None? ==> stem == name) && (ext.Some? ==> stem + "." + ext.value == name && stem != [])
    ensures var (stem, ext) := SplitAtDot(name);
      ext.Some? ==> '.' !in ext.value
  {
    match LastDot(name)
    case None =>
    case Some(i) =>
      if i > 0 && name != ".." {
        assert name == name[..i] + "." + name[i + 1..];
      }
  }

  /**
   * `Path::parent` of a relative path made of plain components: `None` for the empty
   * path, the empty path for a single component, otherwise everything before the last '/'.
   */
  function Parent(p: string): (r: Option<string>)
    ensures p != [] <==> r.Some?
    ensures r.Some? && r.value != [] ==> r.value + "/" + LastSegment(p) == p
  {
    if p == [] then None
    else
      var last := LastSegment(p);
      if |last| == |p| then Some([])
      else
        var parent := p[..|p| - |last| - 1];
        assert parent + "/" + last == p;
        Some(parent)
  }

  /**
   * A relative path as discovery builds them: one or more non-empty components joined
   * by single '/', none of them hidden (starting with '.').
   */
  predicate IsSubPath(s: string)
  {
    && s != []
    && s[0] != '/' && s[0] != '.'
    && s[|s| - 1] != '/'
    && forall i :: 0 <= i < |s| - 1 ==> ComponentStartOk(s, i)
  }

  /** After a separator at `i` comes the first character of a non-empty, non-hidden component. */
  predicate ComponentStartOk(s: string, i: nat)
    requires i < |s| - 1
  {
    s[i] == '/' ==> s[i + 1] != '/' && s[i + 1] != '.'
  }

  lemma LastSegmentOfSubPath(s: string)
    requires IsSubPath(s)
    ensures LastSegment(s) != [] && LastSegment(s)[0] != '.'
    ensures LastSegment(s) != "." && LastSegment(s) != ".."
  {
    var last := LastSegment(s);
    assert last != [] by { assert s[|s| - 1] != '/'; }
    if |last| < |s| {
      assert ComponentStartOk(s, |s| - |last| - 1);
      assert s[|s| - |last|] == last[0];
    }
  }

  /** A path ending in `/`-free `y` after a separator has the last segment of `y`. */
  lemma {:induction false} LastSegmentAfterSeparator(x: string, y: string)
    requires x == [] || x[|x| - 1] == '/'
    ensures LastSegment(x + y) == LastSegment(y)
    decreases |y|
  {
    if y == [] {
      assert x + y == x;
    } else if y[|y| - 1] == '/' {
      assert (x + y)[|x + y| - 1] == '/';
    } else {
      var xy := x + y;
      assert xy[|xy| - 1] == y[|y| - 1];
      assert xy[..|xy| - 1] == x + y[..|y| - 1];
      LastSegmentAfterSeparator(x, y[..|y| - 1]);
    }
  }

  /** The file name of `root` joined with a sub path is the sub path's last component. */
  lemma FileNameOfJoin(root: string, sub: string)
    requires IsSubPath(sub)
    ensures FileName(Join(root, sub)) == Some(LastSegment(sub))
  {
    LastSegmentOfJoin(root, sub);
    LastSegmentOfSubPath(sub);
    FileNameOfPlainEnd(Join(root, sub));
  }

  lemma LastSegmentOfJoin(root: string, sub: string)
    requires sub != [] && sub[0] != '/' && sub[|sub| - 1] != '/'
    ensures var p := Join(root, sub); p != [] && p[|p| - 1] != '/' && LastSegment(p) == LastSegment(sub)
  {
    var p := Join(root, sub);
    assert p == DirPrefix(root) + sub;
    LastSegmentAfterSeparator(DirPrefix(root), sub);
  }

  /** A path whose last character is not a separator and whose last segment is not "." or ".." has that segment as its file name. */
  lemma FileNameOfPlainEnd(p: string)
    requires p != [] && p[|p| - 1] != '/'
    requires LastSegment(p) != "." && LastSegment(p) != ".."
    ensures FileName(p) == Some(LastSegment(p))
  {
  }
}
