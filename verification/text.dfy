/** String primitives of the JavaScript runtime that the job board relies on:
    `toLowerCase` (restricted to ASCII), `includes`, `trim`, the `\s` class,
    the line terminators that `.` refuses, and `split(':')[0]`. */
module Text {

  // ---------------------------------------------------------------- case

  function LowerChar(c: char): char {
    if 'A' <= c <= 'Z' then (c as int + 32) as char else c
  }

  /** ASCII-only `String.prototype.toLowerCase`. */
  function Lower(s: string): (r: string)
    ensures |r| == |s|
    ensures forall i :: 0 <= i < |s| ==> r[i] == LowerChar(s[i])
  {
    seq(|s|, i requires 0 <= i < |s| => LowerChar(s[i]))
  }

  /** No ASCII upper-case letter in `s`. */
  predicate IsLowercase(s: string) {
    forall i :: 0 <= i < |s| ==> !('A' <= s[i] <= 'Z')
  }

  /** Lowering an already lower-case string changes nothing. */
  lemma LowerOfLowercase(s: string)
    requires IsLowercase(s)
    ensures Lower(s) == s
  {
  }

  lemma LowerIdempotent(s: string)
    ensures Lower(Lower(s)) == Lower(s)
  {
    LowerOfLowercase(Lower(s));
  }

  lemma LowerSlice(s: string, i: int, j: int)
    requires 0 <= i <= j <= |s|
    ensures Lower(s)[i..j] == Lower(s[i..j])
  {
  }

  // ------------------------------------------------------------ includes

  /** `t` occurs in `s` starting at index `i`. */
  ghost predicate OccursAt(s: string, t: string, i: int) {
    0 <= i && i + |t| <= |s| && s[i..i + |t|] == t
  }

  function IncludesFrom(s: string, t: string, from: nat): (b: bool)
    requires from <= |s|
    ensures b <==> exists i :: from <= i && OccursAt(s, t, i)
    decreases |s| - from
  {
    if from + |t| > |s| then false
    else if s[from..from + |t|] == t then assert OccursAt(s, t, from); true
    else IncludesFrom(s, t, from + 1)
  }

  /** `String.prototype.includes`. */
  predicate Includes(s: string, t: string) {
    IncludesFrom(s, t, 0)
  }

  lemma IncludesEmpty(s: string)
    ensures Includes(s, "")
  {
    assert OccursAt(s, "", 0);
  }

  /** A substring of a substring is a substring. */
  lemma IncludesTransitive(s: string, t: string, u: string)
    requires Includes(s, t) && Includes(t, u)
    ensures Includes(s, u)
  {
    var i :| 0 <= i && OccursAt(s, t, i);
    var j :| 0 <= j && OccursAt(t, u, j);
    forall k | 0 <= k < |u| ensures s[i + j + k] == u[k] {
      assert u[k] == t[j + k] == s[i + j + k];
    }
    assert OccursAt(s, u, i + j);
  }

  /** Lowering both sides keeps an occurrence. */
  lemma LowerKeepsIncludes(s: string, t: string)
    requires Includes(s, t)
    ensures Includes(Lower(s), Lower(t))
  {
    var i :| 0 <= i && OccursAt(s, t, i);
    LowerSlice(s, i, i + |t|);
    assert OccursAt(Lower(s), Lower(t), i);
  }

  // ---------------------------------------------------------- whitespace

  /** JavaScript's WhiteSpace and LineTerminator code points: the `\s`
      class of a regular expression and what `trim` removes. */
  predicate IsSpace(c: char) {
    || c == '\t' || c == '\n' || c == '\U{000B}' || c == '\U{000C}' || c == '\r'
    || c == ' ' || c == '\U{00A0}' || c == '\U{1680}'
    || ('\U{2000}' <= c <= '\U{200A}')
    || c == '\U{2028}' || c == '\U{2029}' || c == '\U{202F}' || c == '\U{205F}'
    || c == '\U{3000}' || c == '\U{FEFF}'
  }

  /** The characters a regular-expression `.` does not match. */
  predicate IsLineTerminator(c: char) {
    c == '\n' || c == '\r' || c == '\U{2028}' || c == '\U{2029}'
  }

  predicate AllSpace(s: string) {
    forall i :: 0 <= i < |s| ==> IsSpace(s[i])
  }

  /** Index of the first non-space character at or after `i`. */
  function SkipSpace(s: string, i: nat): (j: nat)
    requires i <= |s|
    ensures i <= j <= |s|
    ensures AllSpace(s[i..j])
    ensures j == |s| || !IsSpace(s[j])
    decreases |s| - i
  {
    if i < |s| && IsSpace(s[i]) then SkipSpace(s, i + 1) else i
  }

  /** Index just after the last non-space character before `j`, not below `lo`. */
  function BackSpace(s: string, lo: nat, j: nat): (k: nat)
    requires lo <= j <= |s|
    ensures lo <= k <= j
    ensures AllSpace(s[k..j])
    ensures k == lo || !IsSpace(s[k - 1])
    decreases j
  {
    if j > lo && IsSpace(s[j - 1]) then
      var k := BackSpace(s, lo, j - 1);
      assert s[k..j] == s[k..j - 1] + [s[j - 1]];
      k
    else j
  }

  /** `String.prototype.trim`. */
  function Trim(s: string): string {
    var lo := SkipSpace(s, 0);
    s[lo..BackSpace(s, lo, |s|)]
  }

  /** `s[i..j]` is what is left of `s` after removing white space at both ends. */
  ghost predicate IsTrimmed(s: string, i: int, j: int) {
    && 0 <= i <= j <= |s|
    && AllSpace(s[..i]) && AllSpace(s[j..])
    && (i < j ==> !IsSpace(s[i]) && !IsSpace(s[j - 1]))
  }

  /** `SkipSpace` stops at the first non-space character and nowhere else. */
  lemma {:induction false} SkipSpaceAt(s: string, k: nat, i: nat)
    requires k <= i <= |s|
    requires AllSpace(s[k..i])
    requires i == |s| || !IsSpace(s[i])
    ensures SkipSpace(s, k) == i
    decreases i - k
  {
    if k < i {
      assert s[k..i][0] == s[k];
      assert s[k + 1..i] == s[k..i][1..];
      SkipSpaceAt(s, k + 1, i);
    }
  }

  /** `BackSpace` stops just after the last non-space character and nowhere else. */
  lemma {:induction false} BackSpaceAt(s: string, lo: nat, j: nat, k: nat)
    requires lo <= k <= j <= |s|
    requires AllSpace(s[k..j])
    requires k == lo || !IsSpace(s[k - 1])
    ensures BackSpace(s, lo, j) == k
    decreases j
  {
    if k < j {
      assert s[k..j][j - 1 - k] == s[j - 1];
      assert s[k..j - 1] == s[k..j][..j - 1 - k];
      BackSpaceAt(s, lo, j - 1, k);
    }
  }

  /** `Trim` removes exactly the white space at both ends: its result is the
      unique middle slice with no space at either edge. */
  lemma TrimSpec(s: string, i: int, j: int)
    requires IsTrimmed(s, i, j)
    ensures Trim(s) == s[i..j]
  {
    if i < j {
      assert s[..i] == s[0..i];
      SkipSpaceAt(s, 0, i);
      assert s[i..j][j - 1 - i] == s[j - 1];
      assert AllSpace(s[i..j][..0]);
      assert s[j..|s|] == s[j..];
      BackSpaceAt(s, i, |s|, j);
    } else {
      assert AllSpace(s) by {
        forall k | 0 <= k < |s| ensures IsSpace(s[k]) {
          if k < i { assert s[..i][k] == s[k]; } else { assert s[j..][k - j] == s[k]; }
        }
      }
      assert s[0..|s|] == s;
      SkipSpaceAt(s, 0, |s|);
    }
  }

  lemma TrimIsTrimmed(s: string)
    ensures exists i, j :: IsTrimmed(s, i, j) && Trim(s) == s[i..j]
  {
    var lo := SkipSpace(s, 0);
    var hi := BackSpace(s, lo, |s|);
    assert s[..lo] == s[0..lo];
    assert s[hi..] == s[hi..|s|];
    assert IsTrimmed(s, lo, hi);
  }

  // ------------------------------------------------------------- split

  /** `s.split(c)[0]`: the text before the first `c`, or all of `s`. */
  function Before(s: string, c: char): (r: string)
    ensures |r| <= |s| && r == s[..|r|]
    ensures c !in r
    ensures |r| < |s| ==> s[|r|] == c
  {
    if |s| == 0 then ""
    else if s[0] == c then ""
    else [s[0]] + Before(s[1..], c)
  }
}
