/** JavaScript's `String.prototype.trim`, over strings as sequences of characters.

    Both validators trim every field before checking it, so everything they
    decide is a decision about trimmed strings. `Trim` is given here together
    with an independent description (`IsTrimOf`) that pins the result down
    uniquely, from which padding-insensitivity and idempotence follow.
 */
module Text {

  /** The characters `trim` strips: ECMAScript WhiteSpace (tab, vertical tab,
      form feed, space, no-break space, zero-width no-break space and the
      other Unicode "Zs" space separators) and LineTerminator (line feed,
      carriage return, line and paragraph separators). The "Zs" set is that
      of Unicode 6.3 and later, which no longer counts U+180E. */
  predicate IsSpace(c: char) {
    ('\t' <= c <= '\r') || c == ' ' || c == '\U{00A0}' || c == '\U{1680}' ||
    ('\U{2000}' <= c <= '\U{200A}') || c == '\U{2028}' || c == '\U{2029}' ||
    c == '\U{202F}' || c == '\U{205F}' || c == '\U{3000}' || c == '\U{FEFF}'
  }

  predicate AllSpace(s: string) {
    forall i :: 0 <= i < |s| ==> IsSpace(s[i])
  }

  /** `s[a..b]` is what is left of `s` once its leading and trailing white
      space is gone: only white space lies outside the window, and a
      non-empty window starts and ends with a non-space character. */
  ghost predicate TrimWindow(s: string, a: int, b: int) {
    0 <= a <= b <= |s| &&
    AllSpace(s[..a]) && AllSpace(s[b..]) &&
    (a < b ==> !IsSpace(s[a]) && !IsSpace(s[b - 1]))
  }

  /** `r` is the trimmed form of `s`, described without saying how it is computed. */
  ghost predicate IsTrimOf(r: string, s: string) {
    exists a, b :: TrimWindow(s, a, b) && r == s[a..b]
  }

  /** The number of white-space characters `s` starts with. */
  function LeadingSpace(s: string): (n: nat)
    ensures n <= |s|
    ensures forall i :: 0 <= i < n ==> IsSpace(s[i])
    ensures n < |s| ==> !IsSpace(s[n])
  {
    if s != [] && IsSpace(s[0]) then 1 + LeadingSpace(s[1..]) else 0
  }

  /** The number of white-space characters `s` ends with. */
  function TrailingSpace(s: string): (n: nat)
    ensures n <= |s|
    ensures forall i :: |s| - n <= i < |s| ==> IsSpace(s[i])
    ensures n < |s| ==> !IsSpace(s[|s| - n - 1])
  {
    if s != [] && IsSpace(s[|s| - 1]) then 1 + TrailingSpace(s[..|s| - 1]) else 0
  }

  /** `trim()`: white space removed from both ends, nothing else changed. */
  function Trim(s: string): (r: string)
    ensures IsTrimOf(r, s)
  {
    var a := LeadingSpace(s);
    var b := |s| - TrailingSpace(s[a..]);
    assert TrimWindow(s, a, b) by {
      forall i | b <= i < |s| ensures IsSpace(s[i]) {
        assert s[a..][i - a] == s[i];
      }
    }
    s[a..b]
  }

  /** There is only one way to trim a string. */
  lemma TrimUnique(s: string, r1: string, r2: string)
    requires IsTrimOf(r1, s) && IsTrimOf(r2, s)
    ensures r1 == r2
  {
    var a1, b1 :| TrimWindow(s, a1, b1) && r1 == s[a1..b1];
    var a2, b2 :| TrimWindow(s, a2, b2) && r2 == s[a2..b2];
    SpaceOutside(s, a1, b1);
    SpaceOutside(s, a2, b2);
    assert (a1 < b1) == (a2 < b2);
    assert a1 < b1 ==> a1 == a2 && b1 == b2;
  }

  /** Every character outside a trim window is white space. */
  lemma SpaceOutside(s: string, a: int, b: int)
    requires TrimWindow(s, a, b)
    ensures forall x :: 0 <= x < a || b <= x < |s| ==> IsSpace(s[x])
  {
    forall x | 0 <= x < a || b <= x < |s| ensures IsSpace(s[x]) {
      if x < a {
        assert s[..a][x] == s[x];
      } else {
        assert s[b..][x - b] == s[x];
      }
    }
  }

  /** White space added around a string disappears again under `trim`. */
  lemma TrimIgnoresPadding(pre: string, s: string, post: string)
    requires AllSpace(pre) && AllSpace(post)
    ensures Trim(pre + s + post) == Trim(s)
  {
    var r := Trim(s);
    var a, b :| TrimWindow(s, a, b) && r == s[a..b];
    var p := pre + s + post;
    PaddedWindow(pre, s, post, a, b);
    TrimUnique(p, Trim(p), r);
  }

  /** A trim window of `s` shifts to a trim window of `s` padded with white space. */
  lemma PaddedWindow(pre: string, s: string, post: string, a: int, b: int)
    requires AllSpace(pre) && AllSpace(post)
    requires TrimWindow(s, a, b)
    ensures TrimWindow(pre + s + post, |pre| + a, |pre| + b)
    ensures (pre + s + post)[|pre| + a..|pre| + b] == s[a..b]
  {
    var p := pre + s + post;
    var a', b' := |pre| + a, |pre| + b;
    assert p[..a'] == pre + s[..a];
    AllSpaceConcat(pre, s[..a]);
    assert p[b'..] == s[b..] + post;
    AllSpaceConcat(s[b..], post);
  }

  lemma AllSpaceConcat(x: string, y: string)
    requires AllSpace(x) && AllSpace(y)
    ensures AllSpace(x + y)
  {
  }

  /** `padded` is `s` with white space added at either end. */
  ghost predicate PaddedBy(padded: string, s: string) {
    exists pre: string, post: string ::
      AllSpace(pre) && AllSpace(post) && padded == pre + s + post
  }

  lemma TrimPadded(padded: string, s: string)
    requires PaddedBy(padded, s)
    ensures Trim(padded) == Trim(s)
  {
    var pre: string, post: string :|
      AllSpace(pre) && AllSpace(post) && padded == pre + s + post;
    TrimIgnoresPadding(pre, s, post);
  }

  /** A string that neither starts nor ends with white space is its own trim. */
  lemma TrimOfTrimmed(s: string)
    requires s == [] || (!IsSpace(s[0]) && !IsSpace(s[|s| - 1]))
    ensures Trim(s) == s
  {
    assert s[0..|s|] == s;
    assert s[..0] == [] && s[|s|..] == [];
    assert TrimWindow(s, 0, |s|);
    TrimUnique(s, Trim(s), s);
  }

  /** Trimming twice is trimming once. */
  lemma TrimIdempotent(s: string)
    ensures Trim(Trim(s)) == Trim(s)
  {
    TrimOfTrimmed(Trim(s));
  }
}
