/**
 * The few string operations of Python's `str` that the configuration reader
 * uses: `strip()`, `lower()`, `startswith` and the character classes `\s`
 * and `\w` of its regular expression.
 *
 * Only ASCII is modelled. CPython classifies whitespace for `str.strip()` and
 * for the regular-expression class `\s` with one and the same predicate, so
 * both use `IsSpace` here.
 */
module Text {

  /** ASCII characters for which Python's `str.isspace()` holds. */
  predicate IsSpace(c: char)
  {
    c == ' ' || c == '\t' || c == '\n' || c == '\r' || c == '\U{000B}' || c == '\U{000C}'
    || ('\U{001C}' <= c <= '\U{001F}')
  }

  /** The regular-expression class `\w`, restricted to ASCII: `[A-Za-z0-9_]`. */
  predicate IsWordChar(c: char)
  {
    ('a' <= c <= 'z') || ('A' <= c <= 'Z') || ('0' <= c <= '9') || c == '_'
  }

  predicate AllSpace(s: string)
  {
    forall i :: 0 <= i < |s| ==> IsSpace(s[i])
  }

  predicate AllWord(s: string)
  {
    forall i :: 0 <= i < |s| ==> IsWordChar(s[i])
  }

  /** Where `s.lstrip()` starts: the first non-whitespace position from `i` on, or `|s|`. */
  function LeadingEnd(s: string, i: nat): (k: nat)
    requires i <= |s|
    ensures i <= k <= |s| && (forall j :: i <= j < k ==> IsSpace(s[j]))
    ensures k == |s| || !IsSpace(s[k])
    decreases |s| - i
  {
    if i < |s| && IsSpace(s[i]) then LeadingEnd(s, i + 1) else i
  }

  /** Where `s.rstrip()` ends, looking no further left than `lo`: just after the last non-whitespace position before `hi`. */
  function TrailingStart(s: string, lo: nat, hi: nat): (k: nat)
    requires lo <= hi <= |s|
    ensures lo <= k <= hi && (forall j :: k <= j < hi ==> IsSpace(s[j]))
    ensures k == lo || !IsSpace(s[k - 1])
    decreases hi - lo
  {
    if lo < hi && IsSpace(s[hi - 1]) then TrailingStart(s, lo, hi - 1) else hi
  }

  /**
   * `s.strip()`: the part of `s` left once whitespace is removed from both
   * ends; it is empty exactly when `s` is all whitespace.
   */
  function Strip(s: string): (r: string)
    ensures exists i, j :: 0 <= i <= j <= |s| && r == s[i..j] && AllSpace(s[..i]) && AllSpace(s[j..])
    ensures r == [] || (!IsSpace(r[0]) && !IsSpace(r[|r| - 1]))
    ensures r == [] <==> AllSpace(s)
  {
    var i := LeadingEnd(s, 0);
    var j := TrailingStart(s, i, |s|);
    assert AllSpace(s[..i]) && AllSpace(s[j..]);
    assert j == i ==> AllSpace(s) by {
      if j == i {
        assert forall k :: 0 <= k < |s| ==> (k < i && IsSpace(s[k])) || (j <= k && IsSpace(s[k]));
      }
    }
    s[i..j]
  }

  /** `c.lower()` for ASCII: upper-case letters map to lower case, all else is kept. */
  function LowerChar(c: char): (r: char)
    ensures 'A' <= c <= 'Z' ==> 'a' <= r <= 'z' && r as int - c as int == 32
    ensures !('A' <= c <= 'Z') ==> r == c
  {
    if 'A' <= c <= 'Z' then (c as int + 32) as char else c
  }

  /** `s.lower()` for ASCII. */
  function Lower(s: string): (r: string)
    ensures |r| == |s|
  {
    if s == [] then [] else [LowerChar(s[0])] + Lower(s[1..])
  }

  /** `Lower` works character by character. */
  lemma {:induction false} LowerAt(s: string, i: nat)
    requires i < |s|
    ensures Lower(s)[i] == LowerChar(s[i])
  {
    if i > 0 {
      LowerAt(s[1..], i - 1);
    }
  }

  /** Lower-casing twice changes nothing more. */
  lemma {:induction false} LowerIdempotent(s: string)
    ensures Lower(Lower(s)) == Lower(s)
  {
    if s != [] {
      LowerIdempotent(s[1..]);
    }
  }
}
