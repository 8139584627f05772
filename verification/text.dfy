/**
 * The one piece of string logic the chat controller relies on: trimming the
 * draft before it is submitted, as JavaScript's `String.prototype.trim` does.
 * Trimming removes, from both ends, every character that ECMAScript classifies
 * as WhiteSpace or LineTerminator.
 *
 * The trimming functions and their lemmas take the class of characters to
 * strip as a parameter `ws`; `Trim` instantiates it with `IsJsWhitespace`.
 */
module Text {

  /** ECMAScript WhiteSpace (TAB, VT, FF, SP, NBSP, ZWNBSP and the Unicode
      space separators of category Zs: OGHAM SPACE MARK, U+2000 to U+200A,
      NARROW NBSP, MEDIUM MATHEMATICAL SPACE, IDEOGRAPHIC SPACE) together with
      LineTerminator (LF, CR, LINE SEPARATOR, PARAGRAPH SEPARATOR). Below
      U+0020 these are exactly the characters U+0009 (TAB) to U+000D (CR). */
  predicate IsJsWhitespace(c: char) {
    if c <= ' ' then c == ' ' || '\t' <= c <= '\r'
    else
      || c == '\U{00A0}' || c == '\U{1680}' || ('\U{2000}' <= c <= '\U{200A}')
      || c == '\U{2028}' || c == '\U{2029}' || c == '\U{202F}' || c == '\U{205F}'
      || c == '\U{3000}' || c == '\U{FEFF}'
  }

  /** Every character of `s` at an index from `lo` up to `hi` is in the
      class `ws`. */
  predicate AllBetween(s: string, lo: nat, hi: nat, ws: char -> bool)
    requires hi <= |s|
  {
    forall i :: lo <= i < hi ==> ws(s[i])
  }

  /** Every character of `s` is in the class `ws`. */
  predicate AllIn(s: string, ws: char -> bool) {
    AllBetween(s, 0, |s|, ws)
  }

  /** Neither end of `s` is in the class `ws` (vacuously true of ""). */
  predicate TightIn(s: string, ws: char -> bool) {
    s == [] || (!ws(s[0]) && !ws(s[|s| - 1]))
  }

  predicate AllWhitespace(s: string) {
    AllIn(s, IsJsWhitespace)
  }

  predicate Tight(s: string) {
    TightIn(s, IsJsWhitespace)
  }

  /** The index of the first character at or after `i` that is not in the
      class `ws`, or `|s|` if there is none. */
  function SkipForward(s: string, i: nat, ws: char -> bool): (k: nat)
    requires i <= |s|
    ensures i <= k <= |s|
    ensures AllBetween(s, i, k, ws)
    ensures k < |s| ==> !ws(s[k])
    decreases |s| - i
  {
    if i < |s| && ws(s[i]) then SkipForward(s, i + 1, ws) else i
  }

  /** The index just past the last character before `j` (and at or after
      `lo`) that is not in the class `ws`, or `lo` if there is none. */
  function SkipBackward(s: string, lo: nat, j: nat, ws: char -> bool): (k: nat)
    requires lo <= j <= |s|
    ensures lo <= k <= j
    ensures AllBetween(s, k, j, ws)
    ensures k > lo ==> !ws(s[k - 1])
    decreases j
  {
    if j > lo && ws(s[j - 1]) then SkipBackward(s, lo, j - 1, ws) else j
  }

  /** `r` is what remains of `s` once its first `lo` characters and some
      suffix, all of class `ws`, are cut away, and neither end of `r` is of
      class `ws`. */
  predicate TrimmedAt(s: string, r: string, lo: nat, ws: char -> bool) {
    && lo + |r| <= |s|
    && r == s[lo..lo + |r|]
    && AllBetween(s, 0, lo, ws)
    && AllBetween(s, lo + |r|, |s|, ws)
    && TightIn(r, ws)
  }

  /** Strips the characters of class `ws` from both ends of `s`. */
  function TrimBy(s: string, ws: char -> bool): (r: string)
    ensures TrimmedAt(s, r, SkipForward(s, 0, ws), ws)
    ensures r == [] <==> AllIn(s, ws)
  {
    var lo := SkipForward(s, 0, ws);
    var hi := SkipBackward(s, lo, |s|, ws);
    Assemble(s, lo, hi, ws);
    s[lo..hi]
  }

  lemma Assemble(s: string, lo: nat, hi: nat, ws: char -> bool)
    requires lo <= hi <= |s|
    requires AllBetween(s, 0, lo, ws) && (lo < |s| ==> !ws(s[lo]))
    requires AllBetween(s, hi, |s|, ws) && (hi > lo ==> !ws(s[hi - 1]))
    ensures TrimmedAt(s, s[lo..hi], lo, ws)
    ensures s[lo..hi] == [] <==> AllIn(s, ws)
  {
    var r := s[lo..hi];
    if r != [] {
      assert r[0] == s[lo] && r[|r| - 1] == s[hi - 1];
    }
  }

  /** `String.prototype.trim`: `s` without its leading and trailing
      whitespace. The result is the slice of `s` left once its leading
      whitespace and some whitespace suffix are cut away, neither end of it is
      whitespace, and it is empty exactly when `s` is all whitespace. */
  function Trim(s: string): (r: string)
    ensures TrimmedAt(s, r, SkipForward(s, 0, IsJsWhitespace), IsJsWhitespace)
    ensures Tight(r)
    ensures r == [] <==> AllWhitespace(s)
  {
    TrimBy(s, IsJsWhitespace)
  }

  lemma {:induction false} SkipForwardStopsAt(s: string, i: nat, k: nat, ws: char -> bool)
    requires i <= k <= |s|
    requires AllBetween(s, i, k, ws) && (k < |s| ==> !ws(s[k]))
    ensures SkipForward(s, i, ws) == k
    decreases k - i
  {
    if i < k {
      SkipForwardStopsAt(s, i + 1, k, ws);
    }
  }

  lemma {:induction false} SkipBackwardStopsAt(s: string, lo: nat, j: nat, k: nat, ws: char -> bool)
    requires lo <= k <= j <= |s|
    requires AllBetween(s, k, j, ws) && (k > lo ==> !ws(s[k - 1]))
    ensures SkipBackward(s, lo, j, ws) == k
    decreases j - k
  {
    if k < j {
      SkipBackwardStopsAt(s, lo, j - 1, k, ws);
    }
  }

  /** Reference characterisation of trimming: whenever `s` splits into a
      prefix and a suffix of stripped characters around a middle whose ends
      are not stripped, trimming yields exactly the middle. */
  lemma TrimOfSplit(p: string, m: string, q: string, ws: char -> bool)
    requires AllIn(p, ws) && AllIn(q, ws) && TightIn(m, ws)
    ensures TrimBy(p + m + q, ws) == m
  {
    var s := p + m + q;
    var lo, hi := |p|, |p| + |m|;
    assert AllBetween(s, 0, lo, ws) by {
      forall i | 0 <= i < lo ensures ws(s[i]) { assert s[i] == p[i]; }
    }
    assert AllBetween(s, hi, |s|, ws) by {
      forall i | hi <= i < |s| ensures ws(s[i]) { assert s[i] == q[i - hi]; }
    }
    if m == [] {
      assert AllIn(s, ws);
    } else {
      assert s[lo] == m[0] && s[hi - 1] == m[|m| - 1];
      SkipForwardStopsAt(s, 0, lo, ws);
      SkipBackwardStopsAt(s, lo, |s|, hi, ws);
      assert s[lo..hi] == m;
    }
  }

  /** Trimming twice trims nothing more. */
  lemma TrimIdempotent(s: string, ws: char -> bool)
    ensures TrimBy(TrimBy(s, ws), ws) == TrimBy(s, ws)
  {
    var r := TrimBy(s, ws);
    assert [] + r + [] == r;
    TrimOfSplit([], r, [], ws);
  }

  /** The index-based trim a JavaScript engine runs: scan inwards from both
      ends past stripped characters and return the bounds of what remains. */
  method TrimBounds(s: string, ws: char -> bool) returns (lo: nat, hi: nat)
    ensures lo <= hi <= |s|
    ensures s[lo..hi] == TrimBy(s, ws)
  {
    lo := 0;
    while lo < |s| && ws(s[lo])
      invariant lo <= |s|
      invariant AllBetween(s, 0, lo, ws)
    {
      lo := lo + 1;
    }
    hi := |s|;
    while hi > lo && ws(s[hi - 1])
      invariant lo <= hi <= |s|
      invariant AllBetween(s, hi, |s|, ws)
    {
      hi := hi - 1;
    }
    SkipForwardStopsAt(s, 0, lo, ws);
    SkipBackwardStopsAt(s, lo, |s|, hi, ws);
  }
}
