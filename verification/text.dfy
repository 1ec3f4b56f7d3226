/**
 * String operations the JavaScript and Python sources use through their
 * standard libraries: trimming, ASCII case folding, substring and prefix
 * tests, per-character replacement and removal.
 */
module Text {

  /** Folds an ASCII upper-case letter to lower case; other characters are kept. */
  function LowerChar(c: char): char {
    if 'A' <= c <= 'Z' then (c as int + 32) as char else c
  }

  /** Case folding restricted to ASCII (both `toLowerCase` and `str.lower` do more). */
  function LowerAscii(s: string): string {
    seq(|s|, i requires 0 <= i < |s| => LowerChar(s[i]))
  }

  lemma LowerAsciiIdempotent(s: string)
    ensures LowerAscii(LowerAscii(s)) == LowerAscii(s)
  {
  }

  /** The number of leading characters that satisfy `ws`. */
  function LeadingCount(s: string, ws: char -> bool): (n: nat)
    ensures n <= |s|
    ensures forall i :: 0 <= i < n ==> ws(s[i])
    ensures n < |s| ==> !ws(s[n])
  {
    if s != [] && ws(s[0]) then
      var n := LeadingCount(s[1..], ws);
      assert forall i :: 1 <= i < n + 1 ==> s[i] == s[1..][i - 1];
      1 + n
    else 0
  }

  /** The number of trailing characters that satisfy `ws`. */
  function TrailingCount(s: string, ws: char -> bool): (n: nat)
    ensures n <= |s|
    ensures forall i :: |s| - n <= i < |s| ==> ws(s[i])
    ensures n < |s| ==> !ws(s[|s| - n - 1])
  {
    if s != [] && ws(s[|s| - 1]) then
      var n := TrailingCount(s[..|s| - 1], ws);
      assert forall i :: |s| - 1 - n <= i < |s| - 1 ==> s[i] == s[..|s| - 1][i];
      1 + n
    else 0
  }

  /** Removes whitespace (as `ws` defines it) from both ends. */
  function StripBy(s: string, ws: char -> bool): (r: string)
    ensures |r| <= |s|
    ensures r != [] ==> !ws(r[0]) && !ws(r[|r| - 1])
  {
    var a := LeadingCount(s, ws);
    if a == |s| then []
    else
      var b := TrailingCount(s[a..], ws);
      assert s[a..][0] == s[a];
      assert s[a..][|s| - a - b - 1] == s[|s| - b - 1];
      s[a..|s| - b]
  }

  /** Every character of `s[lo..hi]` is whitespace. */
  ghost predicate AllBy(s: string, lo: nat, hi: nat, ws: char -> bool)
    requires lo <= hi <= |s|
  {
    forall i :: lo <= i < hi ==> ws(s[i])
  }

  /**
   * Stripping keeps a contiguous piece of `s` that starts after the leading
   * whitespace and cuts only whitespace after it.
   */
  lemma StripCut(s: string, ws: char -> bool)
    ensures var a, r := LeadingCount(s, ws), StripBy(s, ws);
      a + |r| <= |s| && r == s[a..a + |r|] && AllBy(s, a + |r|, |s|, ws)
  {
    var a := LeadingCount(s, ws);
    if a < |s| {
      var b := TrailingCount(s[a..], ws);
      var r := StripBy(s, ws);
      assert r == s[a..|s| - b];
      assert a + |r| == |s| - b;
      assert r == s[a..a + |r|];
      TrailingCut(s, a, b, ws);
    } else {
      var r := StripBy(s, ws);
      assert r == [];
      assert s[a..a] == [];
      assert AllBy(s, a, a, ws);
    }
  }

  lemma TrailingCut(s: string, a: nat, b: nat, ws: char -> bool)
    requires a <= |s| && b <= |s| - a
    requires forall i :: |s| - a - b <= i < |s| - a ==> ws(s[a..][i])
    ensures AllBy(s, |s| - b, |s|, ws)
  {
    forall i | |s| - b <= i < |s| ensures ws(s[i]) {
      assert s[i] == s[a..][i - a];
    }
  }

  /** A string whose two ends are not whitespace is its own strip. */
  lemma StripKeepsTrimmed(s: string, ws: char -> bool)
    requires s != [] ==> !ws(s[0]) && !ws(s[|s| - 1])
    ensures StripBy(s, ws) == s
  {
    if s != [] {
      assert LeadingCount(s, ws) == 0;
      assert s[0..] == s;
      assert TrailingCount(s, ws) == 0;
    }
  }

  /** Stripping leaves nothing exactly when every character is whitespace. */
  lemma StripEmptyIff(s: string, ws: char -> bool)
    ensures StripBy(s, ws) == [] <==> forall i :: 0 <= i < |s| ==> ws(s[i])
  {
    var a := LeadingCount(s, ws);
    if a < |s| {
      assert !ws(s[a]);
    }
  }

  /** The characters JavaScript's `String.prototype.trim` removes (WhiteSpace and LineTerminator). */
  predicate IsJsWhitespace(c: char) {
    var n := c as int;
    (0x09 <= n <= 0x0D) || n == 0x20 || n == 0xA0 || n == 0x1680 || (0x2000 <= n <= 0x200A)
    || n == 0x2028 || n == 0x2029 || n == 0x202F || n == 0x205F || n == 0x3000 || n == 0xFEFF
  }

  /** The characters Python's `str.strip()` removes (`str.isspace`). */
  predicate IsPyWhitespace(c: char) {
    var n := c as int;
    (0x09 <= n <= 0x0D) || (0x1C <= n <= 0x20) || n == 0x85 || n == 0xA0 || n == 0x1680
    || (0x2000 <= n <= 0x200A) || n == 0x2028 || n == 0x2029 || n == 0x202F || n == 0x205F || n == 0x3000
  }

  /** JavaScript `s.trim()`. */
  function JsTrim(s: string): string {
    StripBy(s, IsJsWhitespace)
  }

  /** Python `s.strip()`. */
  function PyStrip(s: string): string {
    StripBy(s, IsPyWhitespace)
  }

  /** Stripping removes exactly the whitespace padding around a trimmed core. */
  lemma StripPadded(padLeft: string, t: string, padRight: string)
    requires t != [] && !IsPyWhitespace(t[0]) && !IsPyWhitespace(t[|t| - 1])
    requires forall i :: 0 <= i < |padLeft| ==> IsPyWhitespace(padLeft[i])
    requires forall i :: 0 <= i < |padRight| ==> IsPyWhitespace(padRight[i])
    ensures PyStrip(padLeft + t + padRight) == t
  {
    var s := padLeft + t + padRight;
    var L := |padLeft|;
    var a := LeadingCount(s, IsPyWhitespace);
    assert s[L] == t[0];
    assert a == L;
    var u := s[a..];
    assert u == t + padRight;
    var b := TrailingCount(u, IsPyWhitespace);
    assert u[|t| - 1] == t[|t| - 1];
    assert b == |padRight|;
    assert u[..|u| - b] == t;
  }

  /** `p` is a prefix of `s` (Python `startswith`). */
  predicate StartsWith(s: string, p: string) {
    |p| <= |s| && s[..|p|] == p
  }

  /** `needle` occurs in `hay` at offset `i`. */
  ghost predicate OccursAt(hay: string, needle: string, i: int) {
    0 <= i <= |hay| - |needle| && hay[i..i + |needle|] == needle
  }

  /** `needle` occurs in `hay` (JavaScript `includes`, Python `in`), scanning from the left. */
  function Contains(hay: string, needle: string): bool
    decreases |hay|
  {
    StartsWith(hay, needle) || (hay != [] && Contains(hay[1..], needle))
  }

  /** The scan above agrees with the positional definition of a substring. */
  lemma {:induction false} ContainsIff(hay: string, needle: string)
    ensures Contains(hay, needle) <==> exists i :: OccursAt(hay, needle, i)
    decreases |hay|
  {
    if StartsWith(hay, needle) {
      assert OccursAt(hay, needle, 0);
    }
    if hay != [] {
      ContainsIff(hay[1..], needle);
      if Contains(hay[1..], needle) {
        var i :| OccursAt(hay[1..], needle, i);
        assert OccursAt(hay, needle, i + 1);
      }
      if exists i :: OccursAt(hay, needle, i) {
        var i :| OccursAt(hay, needle, i);
        if i > 0 {
          assert OccursAt(hay[1..], needle, i - 1);
        }
      }
    }
  }

  /** Every occurrence of `c` replaced by `d` (JavaScript `replaceAll` with one-character patterns). */
  function ReplaceChar(s: string, c: char, d: char): string {
    seq(|s|, i requires 0 <= i < |s| => if s[i] == c then d else s[i])
  }

  /** Every occurrence of `c` deleted (`replaceAll(c, "")`). */
  function RemoveChar(s: string, c: char): (r: string)
    ensures c !in r
    ensures forall x :: x != c ==> (x in r <==> x in s)
    ensures |r| <= |s|
  {
    if s == [] then []
    else (if s[0] == c then [] else [s[0]]) + RemoveChar(s[1..], c)
  }

  lemma {:induction false} RemoveCharAbsent(s: string, c: char)
    requires c !in s
    ensures RemoveChar(s, c) == s
  {
    if s != [] {
      RemoveCharAbsent(s[1..], c);
    }
  }

  /** Two removals commute. */
  lemma {:induction false} RemoveCharCommutes(s: string, c: char, d: char)
    ensures RemoveChar(RemoveChar(s, c), d) == RemoveChar(RemoveChar(s, d), c)
  {
    if s != [] {
      RemoveCharCommutes(s[1..], c, d);
      RemoveCharAppend(if s[0] == c then [] else [s[0]], RemoveChar(s[1..], c), d);
      RemoveCharAppend(if s[0] == d then [] else [s[0]], RemoveChar(s[1..], d), c);
    }
  }

  lemma {:induction false} RemoveCharAppend(a: string, b: string, c: char)
    ensures RemoveChar(a + b, c) == RemoveChar(a, c) + RemoveChar(b, c)
  {
    if a != [] {
      assert (a + b)[1..] == a[1..] + b;
      RemoveCharAppend(a[1..], b, c);
    } else {
      assert a + b == b;
    }
  }
}
