/**
 Splitting a file name into stem and extension, the way Python's
 `os.path.splitext` does it on POSIX (separator '/', extension separator '.').

 The extension runs from the last '.' of the last path component to the end,
 but a component made only of leading dots before that '.' has no extension:
 `.bashrc` has none, `a.` has extension `.`, `a.tar.gz` has extension `.gz`.
 */
module PathSplit {

  /** Index of the last occurrence of `c` in `s`, or -1 when there is none
      (Python's `str.rfind`). */
  function RFind(s: string, c: char): (i: int)
    ensures -1 <= i < |s|
    ensures 0 <= i ==> s[i] == c
    ensures forall k :: i < k < |s| ==> s[k] != c
  {
    LastBefore(s, c, |s|)
  }

  /** Index of the last occurrence of `c` among the first `n` characters of
      `s`, or -1 when there is none. */
  function LastBefore(s: string, c: char, n: nat): (i: int)
    requires n <= |s|
    ensures -1 <= i < n
    ensures 0 <= i ==> s[i] == c
    ensures forall k :: i < k < n ==> s[k] != c
  {
    if n == 0 then -1
    else if s[n - 1] == c then n - 1
    else LastBefore(s, c, n - 1)
  }

  /** Every character of `s` is a dot. */
  predicate AllDots(s: string) {
    forall k :: 0 <= k < |s| ==> s[k] == '.'
  }

  /** No path separator occurs in `s` at or after index `j`. */
  predicate NoSepFrom(s: string, j: int) {
    forall k :: 0 <= k < |s| && j <= k ==> s[k] != '/'
  }

  /** The last path component of `s` holds a character other than '.'. */
  ghost predicate HasBaseChar(s: string) {
    exists j :: 0 <= j < |s| && s[j] != '.' && s[j] != '/' && NoSepFrom(s, j)
  }

  /** `p` has an extension: some '.' in its last component comes after a
      character of that component that is not a dot. */
  ghost predicate HasExt(p: string) {
    exists i :: 0 <= i < |p| && p[i] == '.' && HasBaseChar(p[..i]) && NoSepFrom(p, i)
  }

  /** `e` is shaped like an extension: a '.' followed by neither dots nor separators. */
  predicate IsExt(e: string) {
    && |e| > 0
    && e[0] == '.'
    && forall k :: 1 <= k < |e| ==> e[k] != '.' && e[k] != '/'
  }

  /** Python's `os.path.splitext`: returns `(stem, ext)`, where `ext` is empty
      or runs from the last '.' to the end. */
  function SplitExt(p: string): (r: (string, string))
    ensures r.0 + r.1 == p
    ensures r.1 == [] || IsExt(r.1)
  {
    var sepIndex := RFind(p, '/');
    var dotIndex := RFind(p, '.');
    if dotIndex > sepIndex && !AllDots(p[sepIndex + 1..dotIndex]) then
      assert p == p[..dotIndex] + p[dotIndex..];
      TailIsExt(p, dotIndex);
      (p[..dotIndex], p[dotIndex..])
    else
      (p, [])
  }

  /** The part of `p` from a dot on is an extension when no dot or separator
      follows that dot. */
  lemma TailIsExt(p: string, dotIndex: int)
    requires 0 <= dotIndex < |p| && p[dotIndex] == '.'
    requires forall k :: dotIndex < k < |p| ==> p[k] != '.' && p[k] != '/'
    ensures IsExt(p[dotIndex..])
  {
    var e := p[dotIndex..];
    forall k | 1 <= k < |e| ensures e[k] != '.' && e[k] != '/' {
      assert e[k] == p[dotIndex + k];
    }
  }

  /** A name without a dot has no extension. */
  lemma NoDotNoExt(p: string)
    requires forall k :: 0 <= k < |p| ==> p[k] != '.'
    ensures SplitExt(p) == (p, [])
  {
  }

  /** `SplitExt` agrees with the declarative reading of an extension: it
      splits exactly when `p` has one, and then the stem keeps a base character. */
  lemma SplitExtMatchesHasExt(p: string)
    ensures SplitExt(p).1 == [] <==> !HasExt(p)
    ensures SplitExt(p).1 != [] ==> HasBaseChar(SplitExt(p).0)
  {
    var sepIndex := RFind(p, '/');
    var dotIndex := RFind(p, '.');
    ExtIsVisible(p);
    if dotIndex > sepIndex && !AllDots(p[sepIndex + 1..dotIndex]) {
      var k :| 0 <= k < dotIndex - sepIndex - 1 && p[sepIndex + 1..dotIndex][k] != '.';
      var j := sepIndex + 1 + k;
      assert p[..dotIndex][j] != '.' && p[..dotIndex][j] != '/';
      assert NoSepFrom(p[..dotIndex], j);
      assert HasBaseChar(p[..dotIndex]);
      assert NoSepFrom(p, dotIndex);
      assert HasExt(p);
    }
  }

  /** Whenever `p` has an extension, the dot test of `SplitExt` sees it: the
      last '.' lies after the last '/' with a non-dot character between them. */
  lemma ExtIsVisible(p: string)
    ensures HasExt(p) ==>
      var sepIndex := RFind(p, '/');
      var dotIndex := RFind(p, '.');
      dotIndex > sepIndex && !AllDots(p[sepIndex + 1..dotIndex])
  {
    if HasExt(p) {
      var sepIndex := RFind(p, '/');
      var dotIndex := RFind(p, '.');
      var i :| 0 <= i < |p| && p[i] == '.' && HasBaseChar(p[..i]) && NoSepFrom(p, i);
      var j :| 0 <= j < i && p[..i][j] != '.' && p[..i][j] != '/' && NoSepFrom(p[..i], j);
      assert p[j] != '/';
      assert forall k :: j <= k < |p| ==> p[k] != '/' by {
        forall k | j <= k < |p| ensures p[k] != '/' {
          if k < i { assert p[..i][k] == p[k]; }
        }
      }
      assert sepIndex < j < i <= dotIndex;
      assert p[sepIndex + 1..dotIndex][j - sepIndex - 1] == p[j];
    }
  }
}
