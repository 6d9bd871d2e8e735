/**
 * The JavaScript string operations the upload code relies on, each written
 * out over `string` (a sequence of characters): `toLowerCase`, the global
 * replacements `replace(/[^a-zA-Z0-9]/g, '-')` and `replace(/\\/g, '/')`,
 * `substring(0, n)` and `split`.  `IndexOf` is the left-to-right search
 * for the separator inside `split`; `LastIndexOf` is the right-to-left scan
 * for the last `/` and the last `.` inside Node's `path.extname` and
 * `path.basename`.
 */
module JsText {
  import opened Wrappers

  predicate IsUpperAscii(c: char) {
    'A' <= c <= 'Z'
  }

  /** The class `[a-zA-Z0-9]` of the sanitising regular expression. */
  predicate IsAlphanumeric(c: char) {
    'a' <= c <= 'z' || 'A' <= c <= 'Z' || '0' <= c <= '9'
  }

  function LowerChar(c: char): (d: char)
    ensures !IsUpperAscii(d)
    ensures IsUpperAscii(c) ==> d as int == c as int + 32
    ensures !IsUpperAscii(c) ==> d == c
  {
    if IsUpperAscii(c) then (c as int + 32) as char else c
  }

  /** `String.prototype.toLowerCase`, for the ASCII letters. */
  function ToLowerCase(s: string): (r: string)
    ensures |r| == |s|
    ensures forall i :: 0 <= i < |s| ==> r[i] == LowerChar(s[i])
  {
    if s == [] then [] else [LowerChar(s[0])] + ToLowerCase(s[1..])
  }

  /** Lower-casing neither adds nor removes a character that is not a letter. */
  lemma {:induction false} ToLowerCaseKeeps(s: string, c: char)
    requires !IsUpperAscii(c) && !('a' <= c <= 'z')
    ensures c in ToLowerCase(s) <==> c in s
  {
    if s != [] {
      ToLowerCaseKeeps(s[1..], c);
      assert s == [s[0]] + s[1..];
      assert ToLowerCase(s) == [LowerChar(s[0])] + ToLowerCase(s[1..]);
    }
  }

  /** `s.replace(/[^a-zA-Z0-9]/g, '-')`. */
  function ReplaceNonAlphanumeric(s: string): (r: string)
    ensures |r| == |s|
    ensures forall i :: 0 <= i < |s| ==> r[i] == if IsAlphanumeric(s[i]) then s[i] else '-'
  {
    if s == [] then [] else [if IsAlphanumeric(s[0]) then s[0] else '-'] + ReplaceNonAlphanumeric(s[1..])
  }

  /** `s.replace(/\\/g, '/')`. */
  function ReplaceBackslashes(s: string): (r: string)
    ensures |r| == |s|
    ensures forall i :: 0 <= i < |s| ==> r[i] == if s[i] == '\\' then '/' else s[i]
  {
    if s == [] then [] else [if s[0] == '\\' then '/' else s[0]] + ReplaceBackslashes(s[1..])
  }

  lemma {:induction false} ReplaceBackslashesAppend(a: string, b: string)
    ensures ReplaceBackslashes(a + b) == ReplaceBackslashes(a) + ReplaceBackslashes(b)
  {
    var l, r := ReplaceBackslashes(a + b), ReplaceBackslashes(a) + ReplaceBackslashes(b);
    assert |l| == |r|;
    forall i | 0 <= i < |l| ensures l[i] == r[i] {
      if i < |a| {
        assert (a + b)[i] == a[i];
      } else {
        assert (a + b)[i] == b[i - |a|];
      }
    }
  }

  /** `s.substring(0, n)` for a non-negative `n`. */
  function Substring(s: string, n: nat): (r: string)
    ensures |r| == if n < |s| then n else |s|
    ensures r <= s
  {
    if n < |s| then s[..n] else s
  }

  /** `pat` occurs in `s` starting at index `i`. */
  predicate OccursAt(s: string, pat: string, i: nat) {
    i + |pat| <= |s| && s[i..i + |pat|] == pat
  }

  predicate Contains(s: string, pat: string) {
    exists i: nat | i <= |s| :: OccursAt(s, pat, i)
  }

  /** `s.indexOf(pat, from)`, with `None` in place of -1. */
  function IndexOfFrom(s: string, pat: string, from: nat): (r: Option<nat>)
    ensures r.Some? ==> from <= r.value && OccursAt(s, pat, r.value)
                        && forall j: nat :: from <= j < r.value ==> !OccursAt(s, pat, j)
    ensures r.None? ==> forall j: nat :: from <= j ==> !OccursAt(s, pat, j)
    decreases |s| - from
  {
    if from + |pat| > |s| then None
    else if s[from..from + |pat|] == pat then Some(from)
    else IndexOfFrom(s, pat, from + 1)
  }

  /** `s.indexOf(pat)`: the first occurrence. */
  function IndexOf(s: string, pat: string): (r: Option<nat>)
    ensures r.None? <==> !Contains(s, pat)
    ensures r.Some? ==> OccursAt(s, pat, r.value) && forall j: nat :: j < r.value ==> !OccursAt(s, pat, j)
  {
    IndexOfFrom(s, pat, 0)
  }

  lemma OccursAtAppend(a: string, b: string, pat: string, i: nat)
    requires OccursAt(a, pat, i)
    ensures OccursAt(a + b, pat, i)
  {
    assert (a + b)[i..i + |pat|] == a[i..i + |pat|];
  }

  /** Appending text does not move the first occurrence of a pattern. */
  lemma IndexOfAppend(a: string, b: string, pat: string)
    requires IndexOf(a, pat).Some?
    ensures IndexOf(a + b, pat) == IndexOf(a, pat)
  {
    var i := IndexOf(a, pat).value;
    OccursAtAppend(a, b, pat, i);
    forall j: nat | j < i ensures !OccursAt(a + b, pat, j) {
      assert !OccursAt(a, pat, j);
      assert (a + b)[j..j + |pat|] == a[j..j + |pat|];
    }
  }

  /** `s.lastIndexOf(c)` for a single character, with `None` in place of -1. */
  function LastIndexOf(s: string, c: char): (r: Option<nat>)
    ensures r.None? <==> c !in s
    ensures r.Some? ==> r.value < |s| && s[r.value] == c && c !in s[r.value + 1..]
  {
    if s == [] then None
    else if s[|s| - 1] == c then Some(|s| - 1)
    else
      var r := LastIndexOf(s[..|s| - 1], c);
      assert s == s[..|s| - 1] + [s[|s| - 1]];
      if r.Some? then DropLastTail(s, r.value); r else r
  }

  /** The tail of `s` after `k` is the tail of `s` without its last character, then that character. */
  lemma DropLastTail(s: string, k: nat)
    requires k < |s| - 1
    ensures s[k + 1..] == s[..|s| - 1][k + 1..] + [s[|s| - 1]]
  {
  }

  /** The last occurrence of a character is at most one, so it is pinned by its two properties. */
  lemma LastIndexOfUnique(s: string, c: char, k: nat)
    requires k < |s| && s[k] == c && c !in s[k + 1..]
    ensures LastIndexOf(s, c) == Some(k)
  {
  }

  lemma LastIndexOfMark(a: string, c: char, b: string)
    requires c !in b
    ensures LastIndexOf(a + [c] + b, c) == Some(|a|)
  {
    var s := a + [c] + b;
    assert s[|a| + 1..] == b;
    LastIndexOfUnique(s, c, |a|);
  }

  /** `s.split(sep)` for a non-empty separator: no piece holds the separator. */
  function Split(s: string, sep: string): (pieces: seq<string>)
    requires |sep| > 0
    ensures |pieces| >= 1
    ensures forall k :: 0 <= k < |pieces| ==> !Contains(pieces[k], sep)
    decreases |s|
  {
    match IndexOf(s, sep)
    case None => [s]
    case Some(i) => NotBefore(s, sep, i); [s[..i]] + Split(s[i + |sep|..], sep)
  }

  /** With no occurrence starting before `i`, the text before `i` holds none. */
  lemma NotBefore(s: string, sep: string, i: nat)
    requires |sep| > 0 && i <= |s|
    requires forall j: nat :: j < i ==> !OccursAt(s, sep, j)
    ensures !Contains(s[..i], sep)
  {
    forall j: nat | j <= i && OccursAt(s[..i], sep, j) ensures false {
      assert s[..i][j..j + |sep|] == s[j..j + |sep|];
      assert OccursAt(s, sep, j);
    }
  }

  /** `pieces.join(sep)`. */
  function JoinWith(pieces: seq<string>, sep: string): string
    requires |pieces| >= 1
  {
    if |pieces| == 1 then pieces[0] else pieces[0] + sep + JoinWith(pieces[1..], sep)
  }

  /** Splitting and joining again gives back the original string. */
  lemma {:induction false} SplitJoin(s: string, sep: string)
    requires |sep| > 0
    ensures JoinWith(Split(s, sep), sep) == s
    decreases |s|
  {
    var r := IndexOf(s, sep);
    if r.Some? {
      var i := r.value;
      var rest := s[i + |sep|..];
      SplitJoin(rest, sep);
      SplitOnce(s, sep, i);
      assert Split(s, sep)[1..] == Split(rest, sep);
    }
  }

  /** A string is the text before an occurrence, the occurrence, and the text after it. */
  lemma SplitOnce(s: string, sep: string, i: nat)
    requires OccursAt(s, sep, i)
    ensures s == s[..i] + sep + s[i + |sep|..]
  {
    assert s == s[..i] + s[i..i + |sep|] + s[i + |sep|..];
  }

  /** There are at least two pieces exactly when the separator occurs. */
  lemma SplitCount(s: string, sep: string)
    requires |sep| > 0
    ensures |Split(s, sep)| >= 2 <==> Contains(s, sep)
  {
  }

  /** The second piece is the text between the first and the second occurrence (or the end). */
  lemma SecondPiece(s: string, sep: string)
    requires |sep| > 0 && Contains(s, sep)
    ensures var i := IndexOf(s, sep).value;
            var rest := s[i + |sep|..];
            Split(s, sep)[1] == match IndexOf(rest, sep) case None => rest case Some(j) => rest[..j]
  {
  }
}
