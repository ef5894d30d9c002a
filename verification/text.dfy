/**
 * Character-level helpers shared by the extractor and the escaper: PHP's
 * `trim`, PHP's notion of an "empty" string, and the ASCII word characters
 * and case folding used by a case-insensitive PCRE pattern.
 */
module Text {

  /** The characters PHP's `trim` removes by default: space, tab, LF, CR, NUL, vertical tab. */
  predicate IsTrimChar(c: char) {
    c == ' ' || c == '\t' || c == '\n' || c == '\r' || c == '\0' || c == '\U{000B}'
  }

  predicate AllTrimChars(s: string) {
    forall k :: 0 <= k < |s| ==> IsTrimChar(s[k])
  }

  /** Neither end of `s` holds a character `trim` would remove. */
  predicate IsTrimmed(s: string) {
    |s| == 0 || (!IsTrimChar(s[0]) && !IsTrimChar(s[|s| - 1]))
  }

  /** The first index at or after `i` whose character `trim` keeps (or `|s|`). */
  function TrimStart(s: string, i: nat): (k: nat)
    requires i <= |s|
    ensures i <= k <= |s|
    ensures forall q :: i <= q < k ==> IsTrimChar(s[q])
    ensures k < |s| ==> !IsTrimChar(s[k])
    decreases |s| - i
  {
    if i == |s| || !IsTrimChar(s[i]) then i else TrimStart(s, i + 1)
  }

  /** Walking left from `j` but not past `lo`: the end of the last kept character (or `lo`). */
  function TrimEnd(s: string, lo: nat, j: nat): (k: nat)
    requires lo <= j <= |s|
    ensures lo <= k <= j
    ensures forall q :: k <= q < j ==> IsTrimChar(s[q])
    ensures k > lo ==> !IsTrimChar(s[k - 1])
    decreases j - lo
  {
    if j == lo || !IsTrimChar(s[j - 1]) then j else TrimEnd(s, lo, j - 1)
  }

  /** `s` is what `trim` returns for `t`: a slice of `t` with only trim characters cut off either side. */
  ghost predicate IsTrimOf(t: string, s: string) {
    exists i, j :: 0 <= i <= j <= |t| && s == t[i..j]
      && AllTrimChars(t[..i]) && AllTrimChars(t[j..]) && IsTrimmed(s)
  }

  /** PHP `trim($s)` with the default character list. */
  function Trim(s: string): (r: string)
    ensures IsTrimOf(s, r)
  {
    var i := TrimStart(s, 0);
    var j := TrimEnd(s, i, |s|);
    assert AllTrimChars(s[..i]);
    assert AllTrimChars(s[j..]);
    s[i..j]
  }

  /** `trim` is fully determined by its characterisation: any trimmed slice framed by trim characters is the result. */
  lemma TrimUnique(t: string, i: nat, j: nat)
    requires i <= j <= |t|
    requires AllTrimChars(t[..i]) && AllTrimChars(t[j..]) && IsTrimmed(t[i..j])
    ensures Trim(t) == t[i..j]
  {
    var a := TrimStart(t, 0);
    var b := TrimEnd(t, a, |t|);
    if i == j {
      assert forall q :: 0 <= q < |t| ==> IsTrimChar(t[q]) by {
        forall q | 0 <= q < |t| ensures IsTrimChar(t[q]) {
          if q < i { assert t[..i][q] == t[q]; } else { assert t[j..][q - j] == t[q]; }
        }
      }
      assert a == |t|;
    } else {
      assert !IsTrimChar(t[i]) && !IsTrimChar(t[j - 1]);
      assert a <= i;
      assert a == i;
      assert b >= j;
      assert b == j;
    }
  }

  lemma AllTrimCharsConcat(x: string, y: string)
    requires AllTrimChars(x) && AllTrimChars(y)
    ensures AllTrimChars(x + y)
  {
    var z := x + y;
    forall k | 0 <= k < |z| ensures IsTrimChar(z[k]) {
      if k < |x| { assert z[k] == x[k]; } else { assert z[k] == y[k - |x|]; }
    }
  }

  /** `trim` of a text made of trim characters, a trimmed middle, and trim characters is the middle. */
  lemma TrimOfFramed(x: string, m: string, y: string)
    requires AllTrimChars(x) && AllTrimChars(y) && IsTrimmed(m)
    ensures Trim(x + m + y) == m
  {
    var t := x + m + y;
    assert t[..|x|] == x;
    assert t[|x|..|x| + |m|] == m;
    assert t[|x| + |m|..] == y;
    TrimUnique(t, |x|, |x| + |m|);
  }

  /** The slice `trim` keeps, with the trim characters it cuts off either side. */
  lemma TrimSlice(s: string, a: nat, b: nat)
    requires a == TrimStart(s, 0) && b == TrimEnd(s, a, |s|)
    ensures a <= b <= |s| && Trim(s) == s[a..b]
    ensures AllTrimChars(s[..a]) && AllTrimChars(s[b..]) && IsTrimmed(s[a..b])
  {
    assert AllTrimChars(s[..a]);
    assert AllTrimChars(s[b..]);
  }

  /** Surrounding `trim` characters do not change what `trim` returns. */
  lemma TrimIgnoresPadding(pre: string, s: string, post: string)
    requires AllTrimChars(pre) && AllTrimChars(post)
    ensures Trim(pre + s + post) == Trim(s)
  {
    var a := TrimStart(s, 0);
    var b := TrimEnd(s, a, |s|);
    TrimSlice(s, a, b);
    AllTrimCharsConcat(pre, s[..a]);
    AllTrimCharsConcat(s[b..], post);
    Regroup(pre, s, post, a, b);
    TrimOfFramed(pre + s[..a], s[a..b], s[b..] + post);
  }

  lemma Regroup(pre: string, s: string, post: string, a: nat, b: nat)
    requires a <= b <= |s|
    ensures pre + s + post == (pre + s[..a]) + s[a..b] + (s[b..] + post)
  {
    assert s == s[..a] + s[a..b] + s[b..];
  }

  /** `sub` occurs in `s` as a contiguous slice. */
  ghost predicate IsSliceOf(sub: string, s: string) {
    exists i, j :: 0 <= i <= j <= |s| && sub == s[i..j]
  }

  /** `trim` of a slice of `t` is itself a slice of `t`. */
  lemma TrimOfSliceIsSlice(t: string, lo: nat, hi: nat)
    requires lo <= hi <= |t|
    ensures IsSliceOf(Trim(t[lo..hi]), t)
  {
    var u := t[lo..hi];
    var i := TrimStart(u, 0);
    var j := TrimEnd(u, i, |u|);
    TrimSlice(u, i, j);
    SliceOfSlice(t, lo, hi, i, j);
    assert Trim(u) == t[lo + i..lo + j];
  }

  lemma SliceOfSlice(t: string, lo: nat, hi: nat, i: nat, j: nat)
    requires lo <= hi <= |t| && i <= j <= hi - lo
    ensures t[lo..hi][i..j] == t[lo + i..lo + j]
  {
    var u := t[lo..hi][i..j];
    forall k | 0 <= k < j - i ensures u[k] == t[lo + i + k] {
    }
  }

  /** PHP's `empty()` / falsiness for a string: the empty string and "0". */
  predicate PhpEmpty(s: string) {
    s == "" || s == "0"
  }

  /** PCRE's `\w` without Unicode properties: ASCII letters, digits and underscore. */
  predicate IsWordChar(c: char) {
    ('a' <= c <= 'z') || ('A' <= c <= 'Z') || ('0' <= c <= '9') || c == '_'
  }

  /** ASCII lower-casing, the folding a `/i` pattern applies. */
  function Lower(c: char): (d: char)
    ensures 'A' <= c <= 'Z' ==> d as int == c as int + 32
    ensures !('A' <= c <= 'Z') ==> d == c
  {
    if 'A' <= c <= 'Z' then (c as int + 32) as char else c
  }

  /** `a` and `b` are equal up to ASCII case. */
  predicate EqualIgnoringCase(a: string, b: string) {
    |a| == |b| && forall k :: 0 <= k < |a| ==> Lower(a[k]) == Lower(b[k])
  }

  /** A PCRE word boundary `\b` at position `i` (0..|s|): exactly one side is a word character. */
  predicate IsWordAt(s: string, i: int) {
    0 <= i < |s| && IsWordChar(s[i])
  }

  predicate Boundary(s: string, i: int) {
    IsWordAt(s, i - 1) != IsWordAt(s, i)
  }
}
