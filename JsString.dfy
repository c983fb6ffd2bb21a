/** The two JavaScript string built-ins the registration form relies on:
    `String.prototype.trim` and the `length` property. A Dafny `string`
    is a sequence of Unicode scalar values, while a JavaScript string is a
    sequence of UTF-16 code units, so `length` is modelled explicitly. */
module JsString {

  /** The characters `trim` removes: ECMAScript's WhiteSpace (TAB, VT, FF,
      ZWNBSP and every character of Unicode category Zs) and LineTerminator
      (LF, CR, LS, PS). */
  predicate IsWhitespace(c: char) {
    || c == '\U{0009}' || c == '\U{000B}' || c == '\U{000C}' || c == '\U{FEFF}'
    || c == '\U{0020}' || c == '\U{00A0}' || c == '\U{1680}'
    || ('\U{2000}' <= c <= '\U{200A}')
    || c == '\U{202F}' || c == '\U{205F}' || c == '\U{3000}'
    || c == '\U{000A}' || c == '\U{000D}' || c == '\U{2028}' || c == '\U{2029}'
  }

  predicate AllWhitespace(s: string) {
    WhitespaceBetween(s, 0, |s|)
  }

  /** Every character of `s` at an index in `[lo, hi)` is whitespace. */
  predicate WhitespaceBetween(s: string, lo: int, hi: int)
    requires 0 <= lo && hi <= |s|
  {
    forall k :: lo <= k < hi ==> IsWhitespace(s[k])
  }

  /** True when `s` has nothing `trim` could remove at either end. */
  predicate Trimmed(s: string) {
    s == [] || (!IsWhitespace(s[0]) && !IsWhitespace(s[|s| - 1]))
  }

  /** `s[i..j]` is what is left of `s` once the whitespace before `i` and
      after `j` is cut away, and nothing more can be cut. */
  predicate Frames(s: string, i: int, j: int) {
    && 0 <= i <= j <= |s|
    && WhitespaceBetween(s, 0, i) && WhitespaceBetween(s, j, |s|)
    && Trimmed(s[i..j])
  }

  /** The index of the first non-whitespace character of `s` at or after
      `i`, or `|s|` when there is none. */
  function SkipLeading(s: string, i: nat): (k: nat)
    requires i <= |s|
    ensures i <= k <= |s| && WhitespaceBetween(s, i, k)
    ensures k < |s| ==> !IsWhitespace(s[k])
    decreases |s| - i
  {
    if i < |s| && IsWhitespace(s[i]) then SkipLeading(s, i + 1) else i
  }

  /** The end of `s[lo..j]` once its trailing whitespace is cut: the index
      just past its last non-whitespace character, or `lo` when there is none. */
  function SkipTrailing(s: string, lo: nat, j: nat): (k: nat)
    requires lo <= j <= |s|
    ensures lo <= k <= j && WhitespaceBetween(s, k, j)
    ensures lo < k ==> !IsWhitespace(s[k - 1])
    decreases j - lo
  {
    if lo < j && IsWhitespace(s[j - 1]) then SkipTrailing(s, lo, j - 1) else j
  }

  /** `String.prototype.trim`: the infix of `s` left once the whitespace at
      both ends is cut away. */
  function Trim(s: string): (r: string)
    ensures Trimmed(r)
    ensures var i := SkipLeading(s, 0); Frames(s, i, i + |r|) && r == s[i..i + |r|]
  {
    var i := SkipLeading(s, 0);
    var j := SkipTrailing(s, i, |s|);
    assert i < j ==> s[i..j][0] == s[i] && s[i..j][j - i - 1] == s[j - 1];
    s[i..j]
  }

  /** A non-empty trimmed infix framed by whitespace is determined by `s`. */
  lemma FramesUnique(s: string, i: int, j: int, i': int, j': int)
    requires Frames(s, i, j) && Frames(s, i', j') && i < j
    ensures i == i' && j == j'
  {
    assert !IsWhitespace(s[i]) by { assert s[i..j][0] == s[i]; }
    assert s[i..j][0] == s[i] && s[i'..j'][0] == s[i'];
    assert s[i..j][j - i - 1] == s[j - 1] && s[i'..j'][j' - i' - 1] == s[j' - 1];
  }

  /** The length JavaScript reports: the number of UTF-16 code units, where
      a character outside the Basic Multilingual Plane takes two. */
  function Utf16Length(s: string): (n: nat)
    ensures |s| <= n <= 2 * |s|
    ensures n == |s| <==> forall k :: 0 <= k < |s| ==> (s[k] as int) < 0x1_0000
    ensures |s| == 1 ==> n == CodeUnits(s[0])
  {
    if s == [] then 0
    else CodeUnits(s[0]) + Utf16Length(s[1..])
  }

  /** The number of UTF-16 code units that encode `c`. */
  function CodeUnits(c: char): (n: nat)
    ensures n == 1 <==> (c as int) < 0x1_0000
    ensures n == 1 || n == 2
  {
    if (c as int) < 0x1_0000 then 1 else 2
  }

  /** `length` of a concatenation is the sum of the lengths: together with
      the one-character case, this fixes `Utf16Length` on every string. */
  lemma {:induction false} Utf16LengthAppend(a: string, b: string)
    ensures Utf16Length(a + b) == Utf16Length(a) + Utf16Length(b)
    decreases |a|
  {
    if a == [] {
      assert a + b == b;
    } else {
      assert (a + b)[1..] == a[1..] + b;
      Utf16LengthAppend(a[1..], b);
    }
  }

  lemma AllWhitespaceTrimsToEmpty(s: string)
    ensures Trim(s) == [] <==> AllWhitespace(s)
  {
    var r := Trim(s);
    var i := SkipLeading(s, 0);
    if r != [] {
      assert s[i] == r[0];
    }
  }

  /** `trim` removes exactly the whitespace padding around a trimmed text:
      it undoes `pre + t + post`. */
  lemma TrimStripsPadding(pre: string, t: string, post: string)
    requires AllWhitespace(pre) && AllWhitespace(post) && Trimmed(t) && t != []
    ensures Trim(pre + t + post) == t
  {
    var s := pre + t + post;
    var r := Trim(s);
    var i := SkipLeading(s, 0);
    assert s[|pre|..|pre| + |t|] == t;
    assert Frames(s, |pre|, |pre| + |t|) by {
      forall k | 0 <= k < |pre| ensures IsWhitespace(s[k]) { assert s[k] == pre[k]; }
      forall k | |pre| + |t| <= k < |s| ensures IsWhitespace(s[k]) {
        assert s[k] == post[k - |pre| - |t|];
      }
    }
    FramesUnique(s, |pre|, |pre| + |t|, i, i + |r|);
  }

  /** A text with no whitespace at either end is left as it is. */
  lemma TrimKeepsTrimmed(s: string)
    requires Trimmed(s)
    ensures Trim(s) == s
  {
    if s != [] {
      TrimStripsPadding([], s, []);
      assert [] + s + [] == s;
    }
  }

  lemma TrimIdempotent(s: string)
    ensures Trim(Trim(s)) == Trim(s)
  {
    TrimKeepsTrimmed(Trim(s));
  }
}
