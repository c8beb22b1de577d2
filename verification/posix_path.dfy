/** The parts of Python's `posixpath` the player relies on: `str.rfind`,
    `basename`, `dirname` and `splitext`, on POSIX paths (separator `/`,
    extension separator `.`).
 */
module PosixPath {

  /** `s.rfind(c)`: the index of the last `c` in `s`, or -1. */
  function Rfind(s: string, c: char): (r: int)
    ensures -1 <= r < |s|
    ensures r >= 0 ==> s[r] == c
    ensures forall k :: r < k < |s| ==> s[k] != c
  {
    if |s| == 0 then -1
    else if s[|s| - 1] == c then |s| - 1
    else Rfind(s[..|s| - 1], c)
  }

  /** Searching a concatenation finds the last `c` of the right part, or
      else the last `c` of the left part. */
  lemma {:induction false} RfindAppend(a: string, b: string, c: char)
    ensures Rfind(a + b, c) == if Rfind(b, c) >= 0 then |a| + Rfind(b, c) else Rfind(a, c)
  {
    if |b| == 0 {
      assert a + b == a;
    } else {
      var b' := b[..|b| - 1];
      assert (a + b)[..|a + b| - 1] == a + b';
      if b[|b| - 1] != c {
        RfindAppend(a, b', c);
      }
    }
  }

  /** The last `c` is found where it is. */
  lemma RfindAt(s: string, c: char, i: int)
    requires 0 <= i < |s| && s[i] == c
    requires forall k :: i < k < |s| ==> s[k] != c
    ensures Rfind(s, c) == i
  {
  }

  /** `os.path.basename(p)`: everything after the last `/`. */
  function Basename(p: string): (r: string)
    ensures forall k :: 0 <= k < |r| ==> r[k] != '/'
    ensures |r| <= |p| && r == p[|p| - |r|..]
    // the suffix is the longest one: it is the whole path or follows a `/`
    ensures |r| == |p| || p[|p| - |r| - 1] == '/'
  {
    p[Rfind(p, '/') + 1..]
  }

  /** `str.rstrip(c)`: `s` without its trailing run of `c`. */
  function RStrip(s: string, c: char): (r: string)
    ensures |r| <= |s| && r == s[..|r|]
    ensures forall k :: |r| <= k < |s| ==> s[k] == c
    ensures |r| == 0 || r[|r| - 1] != c
  {
    if |s| > 0 && s[|s| - 1] == c then RStrip(s[..|s| - 1], c) else s
  }

  /** `os.path.dirname(p)`: everything up to the last `/`, with trailing
      slashes stripped unless the head is made of slashes only. */
  function Dirname(p: string): (r: string)
    ensures |r| <= |p| && r == p[..|r|]
    ensures r == [] <==> forall k :: 0 <= k < |p| ==> p[k] != '/'
  {
    var i := Rfind(p, '/') + 1;
    var head := p[..i];
    if head != [] && exists k :: 0 <= k < |head| && head[k] != '/' then
      RStrip(head, '/')
    else
      head
  }

  /** True iff some character of `p[lo..hi]` is not a dot. */
  predicate HasNonDot(p: string, lo: int, hi: int)
    requires 0 <= lo && hi <= |p|
  {
    exists k :: lo <= k < hi && p[k] != '.'
  }

  /** `os.path.splitext(p)`: the extension is the text from the last dot of
      the final path component, provided that component has a character
      other than a dot before it; otherwise the extension is empty. */
  function SplitExt(p: string): (r: (string, string))
    ensures r.0 + r.1 == p
    // a non-empty extension is one dot followed by no dot and no separator
    ensures r.1 != [] ==> r.1[0] == '.' && forall k :: 1 <= k < |r.1| ==> r.1[k] != '.' && r.1[k] != '/'
    // ... and the final component of the root has a non-dot character
    ensures r.1 != [] ==> HasNonDot(p, Rfind(p, '/') + 1, |r.0|)
    // an empty extension means every character of the final component that
    // precedes a dot is itself a dot
    ensures r.1 == [] ==>
      forall k, j :: Rfind(p, '/') < k < j < |p| && p[j] == '.' ==> p[k] == '.'
  {
    var sep := Rfind(p, '/');
    var dot := Rfind(p, '.');
    if dot > sep && HasNonDot(p, sep + 1, dot) then
      assert p[..dot] + p[dot..] == p;
      (p[..dot], p[dot..])
    else
      (p, [])
  }

  /** The scan `splitext` performs: find the last separator and the last
      dot, then walk the leading dots of the final component. */
  method SplitExtScan(p: string) returns (root: string, ext: string)
    ensures (root, ext) == SplitExt(p)
  {
    var sepIndex := Rfind(p, '/');
    var dotIndex := Rfind(p, '.');
    if dotIndex > sepIndex {
      var filenameIndex := sepIndex + 1;
      while filenameIndex < dotIndex
        invariant sepIndex + 1 <= filenameIndex <= dotIndex
        invariant forall k :: sepIndex + 1 <= k < filenameIndex ==> p[k] == '.'
      {
        if p[filenameIndex] != '.' {
          return p[..dotIndex], p[dotIndex..];
        }
        filenameIndex := filenameIndex + 1;
      }
    }
    return p, [];
  }

  /** A simple extension: a dot followed by characters that are neither a
      dot nor a separator, as every supported media extension is. */
  predicate SimpleExtension(e: string) {
    |e| > 0 && e[0] == '.' && forall k :: 1 <= k < |e| ==> e[k] != '.' && e[k] != '/'
  }

  /** `p` is a stem followed by the extension `e`, and the final component
      of that stem has a character other than a dot. */
  predicate HasExtension(p: string, e: string) {
    && |p| >= |e|
    && p[|p| - |e|..] == e
    && !AllDots(Basename(p[..|p| - |e|]))
  }

  predicate AllDots(s: string) {
    forall k :: 0 <= k < |s| ==> s[k] == '.'
  }

  /** Where a path is a stem followed by a simple extension, the last dot
      is the extension's and the last separator is the stem's. */
  lemma SuffixPositions(stem: string, e: string)
    requires SimpleExtension(e)
    ensures Rfind(stem + e, '.') == |stem|
    ensures Rfind(stem + e, '/') == Rfind(stem, '/')
  {
    RfindAppend(stem, e, '.');
    RfindAppend(stem, e, '/');
    assert Rfind(e, '.') == 0;
    assert Rfind(e, '/') == -1;
  }

  /** A range running to the end of `s` holds a non-dot character iff the
      suffix it spans is not all dots. */
  lemma NonDotSuffix(s: string, i: int)
    requires 0 <= i <= |s|
    ensures HasNonDot(s, i, |s|) <==> !AllDots(s[i..])
  {
    if HasNonDot(s, i, |s|) {
      var k :| i <= k < |s| && s[k] != '.';
      assert s[i..][k - i] != '.';
    }
  }

  /** For a simple extension `e`, `splitext` reports `e` exactly when the
      path ends in `e` after a final-component stem that is not all dots. */
  lemma SplitExtFinds(p: string, e: string)
    requires SimpleExtension(e)
    ensures SplitExt(p).1 == e <==> HasExtension(p, e)
  {
    if |p| >= |e| && p[|p| - |e|..] == e {
      var stem := p[..|p| - |e|];
      assert stem + e == p;
      SuffixPositions(stem, e);
      NonDotSuffix(stem, Rfind(stem, '/') + 1);
      var sep := Rfind(stem, '/');
      assert HasNonDot(p, sep + 1, |stem|) <==> HasNonDot(stem, sep + 1, |stem|) by {
        assert forall k :: sep + 1 <= k < |stem| ==> p[k] == stem[k];
      }
    }
  }
}
