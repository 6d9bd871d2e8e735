/**
 * Node's POSIX `path.extname`, `path.basename(p, ext)` and `path.join`, as
 * far as the upload code uses them.  A path is split at `/`; trailing `/`
 * characters are ignored, as Node ignores them.
 */
module NodePath {
  import opened Wrappers
  import opened JsText

  /** The path without its trailing `/` characters. */
  function TrimTrailingSlashes(p: string): (r: string)
    ensures r <= p
    ensures r == [] || r[|r| - 1] != '/'
    ensures '/' !in p ==> r == p
  {
    if p != [] && p[|p| - 1] == '/' then TrimTrailingSlashes(p[..|p| - 1]) else p
  }

  /** The last segment of a path: the text after its last `/`, trailing `/`s ignored. */
  function LastSegment(p: string): (seg: string)
    ensures '/' !in seg
    ensures |seg| <= |p|
    ensures '/' !in p ==> seg == p
  {
    var t := TrimTrailingSlashes(p);
    match LastIndexOf(t, '/')
    case None => t
    case Some(k) => t[k + 1..]
  }

  /**
   * `path.extname(p)`: the last segment's text from its last `.` on, or the
   * empty string when the segment has no `.`, when its last `.` is its
   * first character (a dot file such as `.env`), or when it is `..`.
   */
  function ExtName(p: string): (ext: string)
    ensures ext == [] || (ext[0] == '.' && '.' !in ext[1..])
    ensures '/' !in ext
    ensures ext != [] ==> var seg := LastSegment(p);
                          |ext| < |seg| && seg[|seg| - |ext|..] == ext
    ensures var seg := LastSegment(p);
            ext != [] <==> |seg| > 1 && '.' in seg[1..] && seg != ".."
  {
    var seg := LastSegment(p);
    match LastIndexOf(seg, '.')
    case None => NotInTail(seg, '.'); ""
    case Some(d) =>
      LastDotAfterFirst(seg, d);
      if d == 0 || seg == ".." then "" else ProperTail(seg, d); seg[d..]
  }

  /** A character missing from `s` is missing from its tail too. */
  lemma NotInTail(s: string, c: char)
    requires c !in s
    ensures |s| > 1 ==> c !in s[1..]
  {
    if |s| > 1 {
      assert forall k :: 0 <= k < |s| - 1 ==> s[1..][k] == s[k + 1];
    }
  }

  /** The last `.` of `s` is at `d`; there is a `.` after the first character exactly when `d > 0`. */
  lemma LastDotAfterFirst(s: string, d: nat)
    requires d < |s| && s[d] == '.' && '.' !in s[d + 1..]
    ensures |s| > 1 && '.' in s[1..] <==> d > 0
  {
    if d > 0 {
      assert s[1..][d - 1] == '.';
    } else {
      assert s[1..] == s[d + 1..];
    }
  }

  /** A tail of `s` from `d > 0`: its own tail, its characters and its place at the end of `s`. */
  lemma ProperTail(s: string, d: nat)
    requires 0 < d < |s|
    ensures s[d..][1..] == s[d + 1..]
    ensures forall x :: x in s[d..] ==> x in s
    ensures |s[d..]| < |s| && s[|s| - |s[d..]|..] == s[d..]
  {
  }

  /**
   * `path.basename(p, suffix)`: the last segment, with `suffix` cut off when
   * the segment ends with it exactly (character for character, so case
   * matters) and is longer than it; the empty string when `suffix` is the
   * whole path.
   */
  function BaseName(p: string, suffix: string): (base: string)
    ensures base <= LastSegment(p)
    ensures '/' !in base
  {
    var seg := LastSegment(p);
    if 0 < |suffix| <= |p| then
      if suffix == p then ""
      else if |suffix| < |seg| && seg[|seg| - |suffix|..] == suffix then seg[..|seg| - |suffix|]
      else seg
    else seg
  }

  /** A non-empty extension is a proper suffix of the last segment. */
  lemma ExtNameSuffix(p: string)
    requires ExtName(p) != []
    ensures var seg, ext := LastSegment(p), ExtName(p);
            0 < |ext| < |seg| && seg[|seg| - |ext|..] == ext
  {
  }

  /**
   * Cutting a suffix of the extension's length: the extension goes exactly
   * when the suffix is the extension itself.
   */
  lemma StripExtension(p: string, suffix: string)
    requires |suffix| == |ExtName(p)|
    ensures var raw, seg := ExtName(p), LastSegment(p);
            BaseName(p, suffix) == if suffix == raw then seg[..|seg| - |raw|] else seg
  {
    var raw, seg := ExtName(p), LastSegment(p);
    if raw == [] {
      assert suffix == [] && seg[..|seg|] == seg;
    } else {
      ExtNameSuffix(p);
      BaseNameProperSuffix(p, suffix);
    }
  }

  /** Joining one directory with two different names gives two different paths. */
  lemma JoinInjective(dir: string, a: string, b: string)
    ensures Join(dir, a) == Join(dir, b) <==> a == b
  {
    if Join(dir, a) == Join(dir, b) {
      assert a == Join(dir, a)[|dir| + 1..];
    }
  }

  /** A suffix shorter than the last segment is cut exactly when the segment ends with it. */
  lemma BaseNameProperSuffix(p: string, suffix: string)
    requires 0 < |suffix| < |LastSegment(p)|
    ensures var seg := LastSegment(p);
            BaseName(p, suffix) == if seg[|seg| - |suffix|..] == suffix then seg[..|seg| - |suffix|] else seg
  {
  }

  /**
   * `path.join(dir, name)` for a normalised directory and a single-segment
   * name; the normalisation `path.join` does besides (collapsing `//`,
   * resolving `.` and `..`) is not modelled.
   */
  function Join(dir: string, name: string): string {
    dir + "/" + name
  }

  /** The last segment of `dir` joined with a single-segment `name` is `name`. */
  lemma JoinLastSegment(dir: string, name: string)
    requires name != [] && '/' !in name
    ensures LastSegment(Join(dir, name)) == name
  {
    var p := Join(dir, name);
    assert p[|p| - 1] == name[|name| - 1];
    assert TrimTrailingSlashes(p) == p;
    LastIndexOfMark(dir, '/', name);
    assert p == dir + ['/'] + name;
    assert p[|dir| + 1..] == name;
  }
}
