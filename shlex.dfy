/**
 * Python's `shlex.split(s)`, with which the reader splits the argument of a
 * `Host` directive into host patterns.
 *
 * `shlex.split` is a library call. It is modelled here as the POSIX-mode
 * lexer that `shlex.split` builds: whitespace splitting on, no comment
 * characters, whitespace `' \t\r\n'`, quote characters `'` and `"`, escape
 * character backslash, and backslash escapes honoured inside `"` only. Its
 * quoting approximates section 2.2 (Quoting) of the POSIX Shell Command
 * Language: unlike the shell, a backslash inside double quotes escapes only
 * `"` and the backslash itself, so there a backslash before a newline is kept
 * with it; outside quotes the backslash is dropped but the newline is kept,
 * where the shell removes both.
 * `None` stands for the `ValueError` the lexer raises on a missing closing
 * quotation or a trailing escape.
 */
module Shlex {
  import opened Wrappers

  /** The lexer's `whitespace` characters. */
  predicate IsBlank(c: char)
  {
    c == ' ' || c == '\t' || c == '\r' || c == '\n'
  }

  predicate IsQuote(c: char)
  {
    c == '\'' || c == '"'
  }

  const Backslash: char := '\\'

  /**
   * The lexer's state: between tokens, inside an unquoted word, inside
   * quotes, or just after a backslash (inside double quotes or not).
   */
  datatype LexState = Between | InWord | Quoted(quote: char) | Escaped(inDoubleQuotes: bool)

  /** Ending a token emits it when it has characters or came from quotes (`""` is an empty token). */
  function Emit(acc: seq<string>, token: string, quoted: bool): (r: seq<string>)
    ensures r == acc || r == acc + [token]
    ensures |r| == |acc| + 1 <==> token != [] || quoted
  {
    if token != [] || quoted then acc + [token] else acc
  }

  /** The lexer run from position `i` in state `st`, with the current token, whether it was quoted, and the tokens emitted so far. */
  function Lex(s: string, i: nat, st: LexState, token: string, quoted: bool, acc: seq<string>): Option<seq<string>>
    requires i <= |s|
    decreases |s| - i
  {
    if i == |s| then
      match st
      case Between => Some(Emit(acc, token, quoted))
      case InWord => Some(Emit(acc, token, quoted))
      case Quoted(_) => None
      case Escaped(_) => None
    else
      var c := s[i];
      match st
      case Between =>
        if IsBlank(c) then Lex(s, i + 1, Between, [], false, Emit(acc, token, quoted))
        else if c == Backslash then Lex(s, i + 1, Escaped(false), token, quoted, acc)
        else if IsQuote(c) then Lex(s, i + 1, Quoted(c), token, quoted, acc)
        else Lex(s, i + 1, InWord, [c], quoted, acc)
      case InWord =>
        if IsBlank(c) then Lex(s, i + 1, Between, [], false, Emit(acc, token, quoted))
        else if IsQuote(c) then Lex(s, i + 1, Quoted(c), token, quoted, acc)
        else if c == Backslash then Lex(s, i + 1, Escaped(false), token, quoted, acc)
        else Lex(s, i + 1, InWord, token + [c], quoted, acc)
      case Quoted(q) =>
        if c == q then Lex(s, i + 1, InWord, token, true, acc)
        else if c == Backslash && q == '"' then Lex(s, i + 1, Escaped(true), token, true, acc)
        else Lex(s, i + 1, Quoted(q), token + [c], true, acc)
      case Escaped(inDouble) =>
        // Inside double quotes only `"` and the backslash itself are escaped;
        // before any other character the backslash is kept.
        var kept := if inDouble && c != Backslash && c != '"' then token + [Backslash] else token;
        Lex(s, i + 1, if inDouble then Quoted('"') else InWord, kept + [c], quoted, acc)
  }

  /** `shlex.split(s)`: the words of `s`, or `None` for unbalanced quoting. */
  function Split(s: string): Option<seq<string>>
  {
    Lex(s, 0, Between, [], false, [])
  }

  // ---------------------------------------------------------------------
  // Reference definitions

  /** No quote and no backslash from position `i` on. */
  predicate PlainFrom(s: string, i: nat)
  {
    forall k :: i <= k < |s| ==> !IsQuote(s[k]) && s[k] != Backslash
  }

  /** End of the run of non-blank characters that starts at `i`. */
  function RunEnd(s: string, i: nat): (e: nat)
    requires i <= |s|
    ensures i <= e <= |s| && (forall k :: i <= k < e ==> !IsBlank(s[k]))
    ensures e == |s| || IsBlank(s[e])
    decreases |s| - i
  {
    if i < |s| && !IsBlank(s[i]) then RunEnd(s, i + 1) else i
  }

  /** The maximal runs of non-blank characters of `s[i..]`, in order. */
  function WordsFrom(s: string, i: nat): (r: seq<string>)
    requires i <= |s|
    ensures forall w :: w in r ==> w != [] && forall k :: 0 <= k < |w| ==> !IsBlank(w[k])
    decreases |s| - i
  {
    if i == |s| then []
    else if IsBlank(s[i]) then WordsFrom(s, i + 1)
    else
      var e := RunEnd(s, i);
      [s[i..e]] + WordsFrom(s, e)
  }

  /** The number of double quotes in `s[i..]`. */
  function DoubleQuotesFrom(s: string, i: nat): nat
    requires i <= |s|
    decreases |s| - i
  {
    if i == |s| then 0 else (if s[i] == '"' then 1 else 0) + DoubleQuotesFrom(s, i + 1)
  }

  // ---------------------------------------------------------------------
  // Properties

  lemma {:induction false} LexPlainBetween(s: string, i: nat, acc: seq<string>)
    requires i <= |s| && PlainFrom(s, i)
    ensures Lex(s, i, Between, [], false, acc) == Some(acc + WordsFrom(s, i))
    decreases |s| - i, 0
  {
    if i == |s| {
      assert acc + [] == acc;
    } else {
      if IsBlank(s[i]) {
        LexPlainBetween(s, i + 1, acc);
      } else {
        var e := RunEnd(s, i);
        assert RunEnd(s, i + 1) == e;
        LexPlainWord(s, i + 1, [s[i]], acc);
        assert [s[i]] + s[i + 1..e] == s[i..e];
        assert WordsFrom(s, i) == [s[i..e]] + WordsFrom(s, e);
        assert acc + [s[i..e]] + WordsFrom(s, e) == acc + WordsFrom(s, i);
      }
    }
  }

  lemma {:induction false} LexPlainWord(s: string, i: nat, token: string, acc: seq<string>)
    requires i <= |s| && PlainFrom(s, i) && token != []
    ensures Lex(s, i, InWord, token, false, acc)
         == Some(acc + [token + s[i..RunEnd(s, i)]] + WordsFrom(s, RunEnd(s, i)))
    decreases |s| - i, 1
  {
    var e := RunEnd(s, i);
    if i == |s| {
      assert token + s[i..i] == token && acc + [token] + [] == acc + [token];
    } else if IsBlank(s[i]) {
      assert e == i;
      assert Lex(s, i, InWord, token, false, acc) == Lex(s, i + 1, Between, [], false, acc + [token]);
      LexPlainBetween(s, i + 1, acc + [token]);
      assert WordsFrom(s, i) == WordsFrom(s, i + 1);
      assert token + s[i..e] == token;
    } else {
      assert RunEnd(s, i + 1) == e;
      assert Lex(s, i, InWord, token, false, acc) == Lex(s, i + 1, InWord, token + [s[i]], false, acc);
      LexPlainWord(s, i + 1, token + [s[i]], acc);
      assert token + [s[i]] + s[i + 1..e] == token + s[i..e];
    }
  }

  /** Without quotes or backslashes, `shlex.split` is splitting at whitespace. */
  lemma SplitPlain(s: string)
    requires PlainFrom(s, 0)
    ensures Split(s) == Some(WordsFrom(s, 0))
  {
    LexPlainBetween(s, 0, []);
    assert [] + WordsFrom(s, 0) == WordsFrom(s, 0);
  }

  lemma {:induction false} LexDoubleQuoteParity(s: string, i: nat, st: LexState, token: string, quoted: bool, acc: seq<string>)
    requires i <= |s| && st in {Between, InWord, Quoted('"')}
    requires forall k :: i <= k < |s| ==> s[k] != '\'' && s[k] != Backslash
    ensures Lex(s, i, st, token, quoted, acc).None?
        <==> (DoubleQuotesFrom(s, i) % 2 == 1) != (st == Quoted('"'))
    decreases |s| - i
  {
    if i < |s| {
      var c := s[i];
      if st == Quoted('"') {
        if c == '"' {
          LexDoubleQuoteParity(s, i + 1, InWord, token, true, acc);
        } else {
          LexDoubleQuoteParity(s, i + 1, Quoted('"'), token + [c], true, acc);
        }
      } else if IsBlank(c) {
        LexDoubleQuoteParity(s, i + 1, Between, [], false, Emit(acc, token, quoted));
      } else if c == '"' {
        LexDoubleQuoteParity(s, i + 1, Quoted('"'), token, quoted, acc);
      } else if st == Between {
        LexDoubleQuoteParity(s, i + 1, InWord, [c], quoted, acc);
      } else {
        LexDoubleQuoteParity(s, i + 1, InWord, token + [c], quoted, acc);
      }
    }
  }

  /**
   * With double quotes as the only quoting characters, `shlex.split` fails
   * exactly when the number of double quotes is odd (a quotation is left open).
   */
  lemma SplitUnbalanced(s: string)
    requires forall k :: 0 <= k < |s| ==> s[k] != '\'' && s[k] != Backslash
    ensures Split(s).None? <==> DoubleQuotesFrom(s, 0) % 2 == 1
  {
    LexDoubleQuoteParity(s, 0, Between, [], false, []);
  }

  /**
   * Inside double quotes, every character up to the closing quote joins the
   * token as it is, blanks included, as long as none is a backslash; the
   * token then counts as quoted even when it is empty.
   */
  lemma {:induction false} LexDoubleQuoted(s: string, i: nat, j: nat, token: string, quoted: bool, acc: seq<string>)
    requires i <= j < |s| && s[j] == '"'
    requires forall k :: i <= k < j ==> s[k] != '"' && s[k] != Backslash
    ensures Lex(s, i, Quoted('"'), token, quoted, acc) == Lex(s, j + 1, InWord, token + s[i..j], true, acc)
    decreases j - i
  {
    if i == j {
      assert token + s[i..i] == token;
    } else {
      LexDoubleQuoted(s, i + 1, j, token + [s[i]], true, acc);
      assert token + [s[i]] + s[i + 1..j] == token + s[i..j];
    }
  }

  /** A double-quoted argument with no backslash in it is one word, its blanks kept and its quotes removed. */
  lemma SplitDoubleQuoted(q: string)
    requires forall k :: 0 <= k < |q| ==> q[k] != '"' && q[k] != Backslash
    ensures Split("\"" + q + "\"") == Some([q])
  {
    var s := "\"" + q + "\"";
    assert s[0] == '"' && s[|s| - 1] == '"';
    assert s[1..|s| - 1] == q;
    assert forall k :: 1 <= k < |s| - 1 ==> s[k] == q[k - 1];
    calc {
      Split(s);
      Lex(s, 0, Between, [], false, []);
      Lex(s, 1, Quoted('"'), [], false, []);
      { LexDoubleQuoted(s, 1, |s| - 1, [], false, []); }
      Lex(s, |s|, InWord, [] + q, true, []);
      { assert [] + q == q; }
      Some(Emit([], q, true));
      { assert [] + [q] == [q]; }
      Some([q]);
    }
  }

  /** `Host "a b" c` names the two patterns `a b` and `c`. */
  lemma SplitQuotedExample()
    ensures Split("\"a b\" c") == Some(["a b", "c"])
  {
    var s := "\"a b\" c";
    assert s[1..4] == "a b";
    calc {
      Split(s);
      Lex(s, 1, Quoted('"'), [], false, []);
      { LexDoubleQuoted(s, 1, 4, [], false, []); }
      Lex(s, 5, InWord, [] + "a b", true, []);
      { assert [] + "a b" == "a b"; }
      { assert s[5] == ' ' && Emit([], "a b", true) == ["a b"]; }
      Lex(s, 6, Between, [], false, ["a b"]);
      { assert s[6] == 'c'; }
      Lex(s, 7, InWord, "c", false, ["a b"]);
      { assert |s| == 7 && Emit(["a b"], "c", false) == ["a b", "c"]; }
      Some(["a b", "c"]);
    }
  }
}
