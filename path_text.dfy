/**
 * The string helpers `annotation_app.py` calls while naming its output file:
 * `str.rfind` of one character, POSIX `os.path.basename` and
 * `os.path.splitext`, `str.lower` and the substring test `pat in s`.
 */
module PathText {

  /** `s.rfind(c)`: the last position of `c`, or -1. */
  function LastIndexOf(s: string, c: char): (i: int)
    ensures -1 <= i < |s|
    ensures i >= 0 ==> s[i] == c
    ensures forall j :: i < j < |s| ==> s[j] != c
  {
    if |s| == 0 then -1
    else if s[|s| - 1] == c then |s| - 1
    else LastIndexOf(s[..|s| - 1], c)
  }

  /** POSIX `os.path.basename`: what follows the last '/'. */
  function BaseName(path: string): (name: string)
    ensures '/' !in name
    ensures |name| <= |path| && name == path[|path| - |name|..]
    ensures |name| == |path| || path[|path| - |name| - 1] == '/'
  {
    path[LastIndexOf(path, '/') + 1..]
  }

  /** Some character of `p[from..to]` is not a dot. */
  predicate HasNonDot(p: string, from: int, to: int)
    requires 0 <= from <= to <= |p|
  {
    exists i :: from <= i < to && p[i] != '.'
  }

  /**
   * POSIX `os.path.splitext`: `(root, ext)` where `ext` is the last dot and
   * what follows it, unless that dot belongs to the directory part or only
   * dots precede it in the file name (".bashrc" has no extension).
   */
  function SplitExt(p: string): (r: (string, string))
    ensures r.0 + r.1 == p
    ensures r.1 == [] || (r.1[0] == '.' && '.' !in r.1[1..] && '/' !in r.1)
    ensures r.1 != [] ==> HasNonDot(r.0, LastIndexOf(p, '/') + 1, |r.0|)
    ensures (exists i :: LastIndexOf(p, '/') < i < |p| && p[i] == '.' && HasNonDot(p, LastIndexOf(p, '/') + 1, i))
            ==> r.1 != []
  {
    var sep := LastIndexOf(p, '/');
    var dot := LastIndexOf(p, '.');
    if dot > sep && HasNonDot(p, sep + 1, dot) then (p[..dot], p[dot..]) else (p, [])
  }

  function LowerChar(c: char): char {
    if 'A' <= c <= 'Z' then (c as int - 'A' as int + 'a' as int) as char else c
  }

  /** `s.lower()` restricted to ASCII letters. */
  function Lower(s: string): (r: string)
    ensures |r| == |s| && forall i :: 0 <= i < |s| ==> r[i] == LowerChar(s[i])
  {
    seq(|s|, i requires 0 <= i < |s| => LowerChar(s[i]))
  }

  /** `pat` occurs in `s` starting at position `i`. */
  predicate OccursAt(s: string, pat: string, i: int) {
    0 <= i <= |s| - |pat| && s[i..i + |pat|] == pat
  }

  /** `pat in s` for strings. */
  predicate Contains(s: string, pat: string) {
    exists i | 0 <= i <= |s| - |pat| :: OccursAt(s, pat, i)
  }

  /** Lower-casing a prefix gives the prefix of the lower-cased string. */
  lemma LowerPrefix(s: string, k: nat)
    requires k <= |s|
    ensures Lower(s[..k]) == Lower(s)[..k]
  {
  }

  /** A prefix contains no substring that the whole string lacks. */
  lemma PrefixKeepsAbsence(s: string, k: nat, pat: string)
    requires k <= |s| && !Contains(s, pat)
    ensures !Contains(s[..k], pat)
  {
    forall i | OccursAt(s[..k], pat, i)
      ensures OccursAt(s, pat, i)
    {
      assert s[..k][i..i + |pat|] == s[i..i + |pat|];
    }
  }

  /** A string none of whose characters is `pat[0]` does not contain `pat`. */
  lemma AbsentFirstChar(s: string, pat: string)
    requires |pat| > 0 && pat[0] !in s
    ensures !Contains(s, pat)
  {
    forall i | 0 <= i <= |s| - |pat|
      ensures !OccursAt(s, pat, i)
    {
      assert s[i..i + |pat|][0] == s[i];
    }
  }
}
