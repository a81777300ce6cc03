/**
 The rename rule and the new name it gives one file: the rule's text is put
 in front of the stem, after the stem, or both, and the extension is kept.
 */
module NewNames {
  import opened PathSplit

  /** What the user typed and which of the two position boxes are ticked. */
  datatype Rule = Rule(text: string, before: bool, after: bool)

  /** The rule changes names at all: there is text and a position. */
  predicate Changes(rule: Rule) {
    rule.text != [] && (rule.before || rule.after)
  }

  /** The name `name` gets under `rule`: `(before ? text : "") + stem +
      (after ? text : "") + ext`, where `(stem, ext) == SplitExt(name)`. */
  function NewName(name: string, rule: Rule): (r: string)
    ensures r != name <==> Changes(rule)
    ensures |r| == |name| + |Prefix(rule)| + |Suffix(rule)|
  {
    var (stem, ext) := SplitExt(name);
    Prefix(rule) + (stem + Suffix(rule) + ext)
  }

  /** The text put in front of the stem. */
  function Prefix(rule: Rule): string {
    if rule.before then rule.text else []
  }

  /** The text put after the stem. */
  function Suffix(rule: Rule): string {
    if rule.after then rule.text else []
  }

  /** The new name, piece by piece. */
  lemma NewNamePieces(name: string, rule: Rule)
    ensures NewName(name, rule) == Prefix(rule) + (SplitExt(name).0 + Suffix(rule) + SplitExt(name).1)
  {
  }

  /** Where the pieces sit in a new name: the text opens the name when
      `before` is set, the extension of the old name closes it, and the text
      sits right in front of that extension when `after` is set. */
  lemma NewNameLayout(name: string, rule: Rule)
    ensures var r := NewName(name, rule); var ext := SplitExt(name).1;
      && (rule.before ==> r[..|rule.text|] == rule.text)
      && r[|r| - |ext|..] == ext
      && (rule.after ==> r[|r| - |ext| - |rule.text|..|r| - |ext|] == rule.text)
  {
    var stem, ext := SplitExt(name).0, SplitExt(name).1;
    NewNamePieces(name, rule);
    PiecesInPlace(Prefix(rule), stem, Suffix(rule), ext);
    assert rule.before ==> Prefix(rule) == rule.text;
    assert rule.after ==> Suffix(rule) == rule.text;
  }

  /** The slices of `pre + (stem + post + ext)` that give back its pieces. */
  lemma PiecesInPlace(pre: string, stem: string, post: string, ext: string)
    ensures var r := pre + (stem + post + ext);
      && r[..|pre|] == pre
      && r[|r| - |ext|..] == ext
      && r[|r| - |ext| - |post|..|r| - |ext|] == post
  {
    var mid := stem + post;
    var tail := mid + ext;
    var r := pre + tail;
    assert r[..|pre|] == pre;
    assert r[|pre|..] == tail;
    assert tail[|mid|..] == ext && tail[..|mid|] == mid;
    assert r[|r| - |ext|..] == tail[|mid|..];
    assert mid[|stem|..] == post;
    assert r[|r| - |ext| - |post|..|r| - |ext|] == tail[..|mid|][|stem|..];
  }

  /** Concatenation is associative. */
  lemma AppendAssoc<T>(a: seq<T>, b: seq<T>, c: seq<T>)
    ensures a + b + c == a + (b + c)
  {
  }

  /** Two extension-shaped suffixes of one string are the same suffix: each
      starts at the string's last dot. */
  lemma ExtSuffixUnique(w: string, e1: string, e2: string)
    requires IsExt(e1) && IsExt(e2)
    requires |e1| <= |e2| <= |w|
    requires w[|w| - |e1|..] == e1 && w[|w| - |e2|..] == e2
    ensures e1 == e2
  {
    if |e1| < |e2| {
      assert false;
    }
  }

  /** If `x + t` and `t + e` are the same string, `x` holds the characters of
      `e` in some order: so `x` has a dot and, like `e`, no separator. */
  lemma SameCharsAsExt(x: string, t: string, e: string)
    requires x + t == t + e && IsExt(e)
    ensures '.' in x
    ensures forall k :: 0 <= k < |x| ==> x[k] != '/'
  {
    assert multiset(x + t) == multiset(t + e);
    var mx, mt, me := multiset(x), multiset(t), multiset(e);
    assert mx + mt == mt + me;
    assert (mx + mt)['.'] == mx['.'] + mt['.'] && (mt + me)['.'] == mt['.'] + me['.'];
    assert (mx + mt)['/'] == mx['/'] + mt['/'] && (mt + me)['/'] == mt['/'] + me['/'];
    assert e[0] in multiset(e);
    assert '/' !in multiset(e) by {
      if '/' in e { var m :| 0 <= m < |e| && e[m] == '/'; }
    }
    forall k | 0 <= k < |x| ensures x[k] != '/' {
      assert x[k] in multiset(x);
    }
  }

  /** If appending `t` to `s1` gives the same string as appending `t` and then
      an extension `e` to a stem `s2` that carries a base character, then `s1`
      itself has an extension. */
  lemma HiddenExt(s1: string, s2: string, t: string, e: string)
    requires s1 + t == s2 + t + e
    requires IsExt(e) && HasBaseChar(s2)
    ensures HasExt(s1)
  {
    var w := s1 + t;
    assert |s1| == |s2| + |e|;
    assert s1[..|s2|] == w[..|s2|] == s2;
    var x := s1[|s2|..];
    assert s1 == s2 + x;
    assert w[|s2|..] == x + t;
    assert w[|s2|..] == t + e;
    SameCharsAsExt(x, t, e);
    var i0 :| 0 <= i0 < |x| && x[i0] == '.';
    var j :| 0 <= j < |s2| && s2[j] != '.' && s2[j] != '/' && NoSepFrom(s2, j);
    var i := |s2| + i0;
    assert s1[i] == '.';
    assert s1[..i][j] == s2[j];
    assert NoSepFrom(s1[..i], j) by {
      forall k | 0 <= k < |s1[..i]| && j <= k ensures s1[..i][k] != '/' {
        if k < |s2| { assert s1[..i][k] == s2[k]; } else { assert s1[..i][k] == x[k - |s2|]; }
      }
    }
    assert HasBaseChar(s1[..i]);
    assert NoSepFrom(s1, i) by {
      forall k | 0 <= k < |s1| && i <= k ensures s1[k] != '/' {
        assert s1[k] == x[k - |s2|];
      }
    }
  }

  /** The stem and extension of a name are determined by `stem + t + ext`,
      when each side is a stem and extension as `SplitExt` produces them. */
  lemma StemExtCancel(s1: string, e1: string, s2: string, e2: string, t: string)
    requires s1 + t + e1 == s2 + t + e2
    requires e1 == [] ==> !HasExt(s1)
    requires e2 == [] ==> !HasExt(s2)
    requires e1 != [] ==> IsExt(e1) && HasBaseChar(s1)
    requires e2 != [] ==> IsExt(e2) && HasBaseChar(s2)
    ensures s1 == s2 && e1 == e2
  {
    var w := s1 + t + e1;
    assert w[|w| - |e1|..] == e1;
    assert w[|w| - |e2|..] == e2;
    if e1 == [] && e2 != [] {
      assert s1 + t == s2 + t + e2;
      HiddenExt(s1, s2, t, e2);
      assert false;
    } else if e1 != [] && e2 == [] {
      assert s2 + t == s1 + t + e1;
      HiddenExt(s2, s1, t, e1);
      assert false;
    } else {
      if e1 != [] {
        if |e1| <= |e2| { ExtSuffixUnique(w, e1, e2); } else { ExtSuffixUnique(w, e2, e1); }
      }
      assert s1 + t == w[..|w| - |e1|] == s2 + t;
      assert s1 == (s1 + t)[..|s1|];
      assert s2 == (s2 + t)[..|s2|];
    }
  }

  /** Equal new names have equal parts after the prefix. */
  lemma SameTail(a: string, b: string, rule: Rule)
    requires NewName(a, rule) == NewName(b, rule)
    ensures SplitExt(a).0 + Suffix(rule) + SplitExt(a).1 == SplitExt(b).0 + Suffix(rule) + SplitExt(b).1
  {
    NewNamePieces(a, rule);
    NewNamePieces(b, rule);
    var pre := Prefix(rule);
    var w1 := SplitExt(a).0 + Suffix(rule) + SplitExt(a).1;
    var w2 := SplitExt(b).0 + Suffix(rule) + SplitExt(b).1;
    assert w1 == (pre + w1)[|pre|..];
    assert w2 == (pre + w2)[|pre|..];
  }

  /** For a fixed rule, different names get different new names. */
  lemma {:induction false} NewNameInjective(a: string, b: string, rule: Rule)
    ensures NewName(a, rule) == NewName(b, rule) <==> a == b
  {
    if NewName(a, rule) == NewName(b, rule) {
      SplitExtMatchesHasExt(a);
      SplitExtMatchesHasExt(b);
      SameTail(a, b, rule);
      StemExtCancel(SplitExt(a).0, SplitExt(a).1, SplitExt(b).0, SplitExt(b).1, Suffix(rule));
    }
  }
}
