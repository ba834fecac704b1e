/**
 * The pattern `(\w+)(?:\s*=\s*|\s+)(.+)` with which the configuration reader
 * splits a directive line into a keyword and its argument, applied with
 * Python's `re.match` (anchored at the start of the line, not at its end).
 *
 * `MatchSetting` follows the backtracking regular-expression engine: the
 * first alternative of the separator is tried before the second, every
 * quantifier is greedy, and `.` matches any character except a newline.
 * `Decomposes` is an independent, declarative reading of the same pattern;
 * the lemmas at the end show that `MatchSetting` finds a decomposition
 * exactly when one exists, and which one it picks.
 */
module SettingsRegex {
  import opened Wrappers
  import opened Text

  /** `.` matches every character except a newline. */
  predicate IsDotChar(c: char)
  {
    c != '\n'
  }

  predicate NoNewline(s: string)
  {
    forall i :: 0 <= i < |s| ==> IsDotChar(s[i])
  }

  /** Every character of `s[a..b]` is whitespace. */
  predicate SpaceRange(s: string, a: nat, b: nat)
    requires a <= b <= |s|
  {
    forall k :: a <= k < b ==> IsSpace(s[k])
  }

  /** End of the run of word characters that starts at `i`. */
  function WordEnd(s: string, i: nat): (e: nat)
    requires i <= |s|
    ensures i <= e <= |s| && (forall k :: i <= k < e ==> IsWordChar(s[k]))
    ensures e == |s| || !IsWordChar(s[e])
    decreases |s| - i
  {
    if i < |s| && IsWordChar(s[i]) then WordEnd(s, i + 1) else i
  }

  /** End of the run of whitespace that starts at `i`. */
  function SpaceEnd(s: string, i: nat): (e: nat)
    requires i <= |s|
    ensures i <= e <= |s| && SpaceRange(s, i, e)
    ensures e == |s| || !IsSpace(s[e])
    decreases |s| - i
  {
    if i < |s| && IsSpace(s[i]) then SpaceEnd(s, i + 1) else i
  }

  /** End of the run of non-newline characters that starts at `i`: how far a greedy `.+` reaches. */
  function LineEnd(s: string, i: nat): (e: nat)
    requires i <= |s|
    ensures i <= e <= |s| && (forall k :: i <= k < e ==> IsDotChar(s[k]))
    ensures e == |s| || !IsDotChar(s[e])
    decreases |s| - i
  {
    if i < |s| && IsDotChar(s[i]) then LineEnd(s, i + 1) else i
  }

  /** `.+` can begin at position `j`. */
  predicate CanStart(s: string, j: nat)
  {
    j < |s| && IsDotChar(s[j])
  }

  /**
   * Where `.+` begins once the greedy whitespace quantifier in front of it,
   * having reached `hi`, backtracks no further than `lo`: the last position
   * in `lo..hi` at which `.+` can begin.
   */
  function LastDotStart(s: string, lo: nat, hi: nat): (r: Option<nat>)
    requires lo <= hi <= |s|
    ensures r.Some? ==> lo <= r.value <= hi && CanStart(s, r.value)
    ensures r.Some? ==> forall j :: r.value < j <= hi ==> !CanStart(s, j)
    ensures r.None? ==> forall j :: lo <= j <= hi ==> !CanStart(s, j)
    decreases hi - lo
  {
    if CanStart(s, hi) then Some(hi)
    else if hi == lo then None
    else LastDotStart(s, lo, hi - 1)
  }

  /**
   * The position at which the second group begins, or `None` when the line
   * does not match. The key is the whole leading run of word characters
   * (backtracking into `\w+` cannot help, because a shorter key is followed
   * by a word character, which neither alternative of the separator accepts).
   * The alternative `\s*=\s*` is tried first; `\s+` only when it fails.
   */
  function ValueStart(line: string): (r: Option<nat>)
    ensures r.Some? ==> 0 < WordEnd(line, 0) < r.value < |line| && CanStart(line, r.value)
  {
    var n := WordEnd(line, 0);
    if n == 0 then None
    else
      var w := SpaceEnd(line, n);
      var viaEquals := if w < |line| && line[w] == '=' then LastDotStart(line, w + 1, SpaceEnd(line, w + 1)) else None;
      if viaEquals.Some? then viaEquals
      else if w > n then LastDotStart(line, n + 1, w)
      else None
  }

  /**
   * `re.match(SETTINGS_REGEX, line)`: the key (group 1) and the value
   * (group 2), or `None` when the line does not match.
   */
  function MatchSetting(line: string): (r: Option<(string, string)>)
    ensures r.Some? ==> |r.value.0| > 0 && AllWord(r.value.0) && r.value.0 <= line
    ensures r.Some? ==> |r.value.1| > 0 && NoNewline(r.value.1)
    ensures r.None? <==> ValueStart(line).None?
  {
    match ValueStart(line)
    case None => None
    case Some(p) => Some((line[..WordEnd(line, 0)], line[p..LineEnd(line, p)]))
  }

  // ---------------------------------------------------------------------
  // A declarative reading of the pattern

  /** A string the group `(?:\s*=\s*|\s+)` matches. */
  predicate IsSeparator(sep: string)
  {
    (|sep| > 0 && SpaceRange(sep, 0, |sep|))
    || exists i :: 0 <= i < |sep| && sep[i] == '=' && SpaceRange(sep, 0, i) && SpaceRange(sep, i + 1, |sep|)
  }

  /**
   * `line` starts with `key + sep + value`, where `key` matches `\w+`,
   * `sep` the separator group and `value` matches `.+`.
   */
  predicate Decomposes(line: string, key: string, sep: string, value: string)
  {
    |key| > 0 && AllWord(key) && IsSeparator(sep) && |value| > 0 && NoNewline(value)
    && key + sep + value <= line
  }

  lemma SpaceRunBound(s: string, a: nat, b: nat)
    requires a <= b <= |s| && SpaceRange(s, a, b)
    ensures b <= SpaceEnd(s, a)
  {
  }

  /** Every decomposition has the whole leading run of word characters as its key. */
  lemma KeyIsWordRun(line: string, key: string, sep: string, value: string)
    requires Decomposes(line, key, sep, value)
    ensures |key| == WordEnd(line, 0)
  {
    var whole := key + sep + value;
    assert whole == line[..|whole|];
    assert sep[0] == line[|key|];
    assert !IsWordChar(sep[0]) by {
      if !(|sep| > 0 && SpaceRange(sep, 0, |sep|)) {
        var i :| 0 <= i < |sep| && sep[i] == '=' && SpaceRange(sep, 0, i) && SpaceRange(sep, i + 1, |sep|);
      }
    }
  }

  lemma EqualsSeparator(line: string, n: nat, w: nat, p: nat)
    requires n <= w < p <= |line| && line[w] == '='
    requires SpaceRange(line, n, w) && SpaceRange(line, w + 1, p)
    ensures IsSeparator(line[n..p])
  {
    var sep := line[n..p];
    assert sep[w - n] == '=';
  }

  lemma SpaceSeparator(line: string, n: nat, p: nat)
    requires n < p <= |line| && SpaceRange(line, n, p)
    ensures IsSeparator(line[n..p])
  {
    var sep := line[n..p];
    assert forall k :: 0 <= k < |sep| ==> sep[k] == line[n + k];
  }

  lemma DecomposesAt(line: string, n: nat, p: nat, e: nat)
    requires 0 < n < p < e <= |line|
    requires (forall k :: 0 <= k < n ==> IsWordChar(line[k]))
    requires IsSeparator(line[n..p])
    requires forall k :: p <= k < e ==> IsDotChar(line[k])
    ensures Decomposes(line, line[..n], line[n..p], line[p..e])
  {
    assert line[..n] + line[n..p] + line[p..e] == line[..e];
  }

  /** Soundness: what `MatchSetting` returns is a decomposition, and its value runs to the end of the line or to a newline. */
  lemma MatchSound(line: string)
    requires MatchSetting(line).Some?
    ensures var (key, value) := MatchSetting(line).value;
      var p := ValueStart(line).value;
      Decomposes(line, key, line[|key|..p], value)
      && (p + |value| == |line| || line[p + |value|] == '\n')
  {
    var n := WordEnd(line, 0);
    var p := ValueStart(line).value;
    var e := LineEnd(line, p);
    var w := SpaceEnd(line, n);
    if w < |line| && line[w] == '=' && LastDotStart(line, w + 1, SpaceEnd(line, w + 1)).Some? {
      EqualsSeparator(line, n, w, p);
    } else {
      assert n < p <= w;
      SpaceSeparator(line, n, p);
    }
    DecomposesAt(line, n, p, e);
  }

  /** A decomposition read back as positions in the line. */
  lemma DecompositionPositions(line: string, key: string, sep: string, value: string)
    requires Decomposes(line, key, sep, value)
    ensures |key| + |sep| < |line|
    ensures sep == line[|key|..|key| + |sep|]
    ensures CanStart(line, |key| + |sep|)
  {
    var whole := key + sep + value;
    assert whole == line[..|whole|];
    assert line[|key| + |sep|] == whole[|key| + |sep|] == value[0];
  }

  /** A separator that is all whitespace ends no later than where `ValueStart` lets the value begin. */
  lemma SpaceSeparatorBound(line: string, p: nat)
    requires 0 < WordEnd(line, 0) < p < |line| && CanStart(line, p)
    requires SpaceRange(line, WordEnd(line, 0), p)
    ensures ValueStart(line).Some? && p <= ValueStart(line).value
  {
    var n := WordEnd(line, 0);
    SpaceRunBound(line, n, p);
    assert LastDotStart(line, n + 1, SpaceEnd(line, n)).Some?;
  }

  /** A separator with `=` at `n + i` ends no later than where `ValueStart` lets the value begin. */
  lemma EqualsSeparatorBound(line: string, i: nat, p: nat)
    requires 0 < WordEnd(line, 0) && WordEnd(line, 0) + i < p < |line| && CanStart(line, p)
    requires line[WordEnd(line, 0) + i] == '='
    requires SpaceRange(line, WordEnd(line, 0), WordEnd(line, 0) + i)
    requires SpaceRange(line, WordEnd(line, 0) + i + 1, p)
    ensures ValueStart(line).Some? && p <= ValueStart(line).value
  {
    var n := WordEnd(line, 0);
    var w := SpaceEnd(line, n);
    SpaceRunBound(line, n, n + i);
    assert n + i == w;
    SpaceRunBound(line, w + 1, p);
    assert LastDotStart(line, w + 1, SpaceEnd(line, w + 1)).Some?;
  }

  /** The separator `line[n..p]` after the key ends no later than the position `ValueStart` picks. */
  lemma SeparatorBound(line: string, p: nat)
    requires 0 < WordEnd(line, 0) < p < |line| && CanStart(line, p)
    requires IsSeparator(line[WordEnd(line, 0)..p])
    ensures ValueStart(line).Some? && p <= ValueStart(line).value
  {
    var n := WordEnd(line, 0);
    var sep := line[n..p];
    assert forall k :: 0 <= k < |sep| ==> sep[k] == line[n + k];
    if |sep| > 0 && SpaceRange(sep, 0, |sep|) {
      assert SpaceRange(line, n, p) by {
        forall k | n <= k < p ensures IsSpace(line[k]) {
          assert line[k] == sep[k - n];
        }
      }
      SpaceSeparatorBound(line, p);
    } else {
      var i :| 0 <= i < |sep| && sep[i] == '=' && SpaceRange(sep, 0, i) && SpaceRange(sep, i + 1, |sep|);
      assert SpaceRange(line, n, n + i) by {
        forall k | n <= k < n + i ensures IsSpace(line[k]) {
          assert line[k] == sep[k - n];
        }
      }
      assert SpaceRange(line, n + i + 1, p) by {
        forall k | n + i + 1 <= k < p ensures IsSpace(line[k]) {
          assert line[k] == sep[k - n];
        }
      }
      EqualsSeparatorBound(line, i, p);
    }
  }

  /**
   * Completeness and choice: whenever the line has any decomposition,
   * `MatchSetting` succeeds with the same key, and its separator is at least
   * as long as that decomposition's (the engine keeps the longest one).
   */
  lemma MatchComplete(line: string, key: string, sep: string, value: string)
    requires Decomposes(line, key, sep, value)
    ensures MatchSetting(line).Some? && MatchSetting(line).value.0 == key
    ensures |key| + |sep| <= ValueStart(line).value
  {
    KeyIsWordRun(line, key, sep, value);
    DecompositionPositions(line, key, sep, value);
    var whole := key + sep + value;
    assert key == whole[..|key|] == line[..|key|];
    SeparatorBound(line, |key| + |sep|);
  }
}
