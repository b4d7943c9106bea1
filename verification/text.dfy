/** The two pieces of ECMAScript string behaviour the list logic depends on:
    `String.prototype.trim`, which decides whether typed input counts as
    empty, and the code-unit order that `Array.prototype.sort` uses when it is
    called without a comparator. */
module Text {

  /** The WhiteSpace and LineTerminator code points of ECMA-262 (sections 12.2
      and 12.3): TAB, LF, VT, FF and CR (U+0009 to U+000D), SPACE, NO-BREAK
      SPACE, the other space separators of Unicode category Zs (U+1680,
      U+2000 to U+200A, U+202F, U+205F, U+3000), LINE SEPARATOR and PARAGRAPH
      SEPARATOR (U+2028, U+2029), and ZWNBSP (U+FEFF). */
  predicate IsWhitespace(c: char) {
    || '\t' <= c <= '\r'
    || c == ' ' || c == '\U{00A0}' || c == '\U{1680}'
    || '\U{2000}' <= c <= '\U{200A}'
    || c == '\U{2028}' || c == '\U{2029}' || c == '\U{202F}' || c == '\U{205F}'
    || c == '\U{3000}' || c == '\U{FEFF}'
  }

  /** Every character of `s` is whitespace. */
  predicate AllWhitespace(s: string) {
    forall k :: 0 <= k < |s| ==> IsWhitespace(s[k])
  }

  /** Neither end of `s` is whitespace. */
  predicate IsTrimmed(s: string) {
    s == [] || (!IsWhitespace(s[0]) && !IsWhitespace(s[|s| - 1]))
  }

  /** Cutting `s` down to `s[i..j]` removes only whitespace. */
  predicate CutsWhitespace(s: string, i: nat, j: nat) {
    && i <= j <= |s|
    && (forall k :: 0 <= k < i ==> IsWhitespace(s[k]))
    && (forall k :: j <= k < |s| ==> IsWhitespace(s[k]))
  }

  /** Where the text of `s` starts when scanning forward from `i`: the first
      position at or after `i` that is not whitespace, or `|s|`. */
  function TextStart(s: string, i: nat): (n: nat)
    requires i <= |s|
    ensures i <= n <= |s|
    ensures forall k :: i <= k < n ==> IsWhitespace(s[k])
    ensures n < |s| ==> !IsWhitespace(s[n])
    decreases |s| - i
  {
    if i < |s| && IsWhitespace(s[i]) then TextStart(s, i + 1) else i
  }

  /** Where the text of `s` ends when scanning backward from `j` but not past
      `lo`: just after the last position below `j` that is not whitespace, or
      `lo`. */
  function TextEnd(s: string, lo: nat, j: nat): (m: nat)
    requires lo <= j <= |s|
    ensures lo <= m <= j
    ensures forall k :: m <= k < j ==> IsWhitespace(s[k])
    ensures lo < m ==> !IsWhitespace(s[m - 1])
    decreases j - lo
  {
    if lo < j && IsWhitespace(s[j - 1]) then TextEnd(s, lo, j - 1) else j
  }

  /** `String.prototype.trim`: the slice of `s` left once whitespace is cut
      from both ends. */
  function Trim(s: string): (r: string)
    ensures IsTrimmed(r)
    ensures exists i: nat, j: nat :: CutsWhitespace(s, i, j) && r == s[i..j]
    ensures r == [] <==> AllWhitespace(s)
  {
    var i := TextStart(s, 0);
    var j := TextEnd(s, i, |s|);
    TrimBounds(s, i, j);
    s[i..j]
  }

  /** The text found by scanning from both ends is what trimming keeps. */
  lemma TrimBounds(s: string, i: nat, j: nat)
    requires i == TextStart(s, 0) && j == TextEnd(s, i, |s|)
    ensures CutsWhitespace(s, i, j)
    ensures IsTrimmed(s[i..j])
    ensures i == j <==> AllWhitespace(s)
  {
    if i < j {
      assert s[i..j][0] == s[i] && s[i..j][j - i - 1] == s[j - 1];
    }
  }

  /** Trim is THE trimmed slice: any way of cutting only whitespace from the
      two ends of `s` that leaves a trimmed string yields exactly `Trim(s)`. */
  lemma TrimUnique(s: string, i: nat, j: nat)
    requires CutsWhitespace(s, i, j)
    requires IsTrimmed(s[i..j])
    ensures Trim(s) == s[i..j]
  {
    var a := TextStart(s, 0);
    if i < j {
      assert s[i..j][0] == s[i] && s[i..j][j - i - 1] == s[j - 1];
      assert a == i;
      assert TextEnd(s, a, |s|) == j;
    } else {
      assert a == |s|;
    }
  }

  /** Trimming twice is trimming once. */
  lemma TrimIdempotent(s: string)
    ensures Trim(Trim(s)) == Trim(s)
  {
    var r := Trim(s);
    assert r[0..|r|] == r;
    TrimUnique(r, 0, |r|);
  }

  /** The order `Array.prototype.sort` uses by default: `a` sorts before `b`
      when at the first position where they differ `a` has the smaller
      character, or when `a` is a proper prefix of `b`. ECMAScript compares
      UTF-16 code units; for strings inside the Basic Multilingual Plane that is
      the same as comparing code points, which is what `char` holds here. */
  predicate Less(a: string, b: string) {
    if a == [] then b != []
    else if b == [] then false
    else a[0] < b[0] || (a[0] == b[0] && Less(a[1..], b[1..]))
  }

  lemma {:induction false} LessIrreflexive(a: string)
    ensures !Less(a, a)
  {
    if a != [] {
      LessIrreflexive(a[1..]);
    }
  }

  lemma {:induction false} LessTransitive(a: string, b: string, c: string)
    requires Less(a, b) && Less(b, c)
    ensures Less(a, c)
  {
    if a != [] && b != [] && c != [] && a[0] == b[0] == c[0] {
      LessTransitive(a[1..], b[1..], c[1..]);
    }
  }

  /** Any two different strings are ordered one way or the other. */
  lemma {:induction false} LessTotal(a: string, b: string)
    requires a != b
    ensures Less(a, b) || Less(b, a)
  {
    if a != [] && b != [] && a[0] == b[0] {
      assert a == [a[0]] + a[1..] && b == [b[0]] + b[1..];
      LessTotal(a[1..], b[1..]);
    }
  }

  lemma {:induction false} LessAsymmetric(a: string, b: string)
    requires Less(a, b)
    ensures !Less(b, a)
  {
    if Less(b, a) {
      LessTransitive(a, b, a);
      LessIrreflexive(a);
    }
  }
}
