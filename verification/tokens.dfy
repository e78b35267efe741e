/** Rust's `str::split_ascii_whitespace`, which the dispatcher uses to cut the
    raw command into tokens: maximal runs of non-whitespace characters, with
    empty pieces dropped (so empty or all-blank input gives no tokens). */
module Tokens {
  import opened Basics

  /** A token: non-empty and free of ASCII whitespace. */
  predicate IsWord(w: string) {
    |w| > 0 && forall i :: 0 <= i < |w| ==> !IsAsciiWhitespace(w[i])
  }

  /** Length of the run of non-whitespace characters that starts `s`. */
  function WordLength(s: string): (n: nat)
    ensures n <= |s|
    ensures forall i :: 0 <= i < n ==> !IsAsciiWhitespace(s[i])
    ensures n == |s| || IsAsciiWhitespace(s[n])
  {
    if |s| == 0 || IsAsciiWhitespace(s[0]) then 0 else 1 + WordLength(s[1..])
  }

  function SplitAsciiWhitespace(s: string): (tokens: seq<string>)
    ensures forall k :: 0 <= k < |tokens| ==> IsWord(tokens[k])
    ensures |tokens| == 0 <==> forall i :: 0 <= i < |s| ==> IsAsciiWhitespace(s[i])
    decreases |s|
  {
    if |s| == 0 then []
    else if IsAsciiWhitespace(s[0]) then SplitAsciiWhitespace(s[1..])
    else
      var n := WordLength(s);
      [s[..n]] + SplitAsciiWhitespace(s[n..])
  }

  /** All characters of `s` that are not ASCII whitespace, in order. */
  function DropWhitespace(s: string): string
  {
    if |s| == 0 then []
    else if IsAsciiWhitespace(s[0]) then DropWhitespace(s[1..])
    else [s[0]] + DropWhitespace(s[1..])
  }

  function Concat(tokens: seq<string>): string
  {
    if |tokens| == 0 then [] else tokens[0] + Concat(tokens[1..])
  }

  /** Tokens joined by single spaces, the way a user types a command. */
  function JoinWithSpaces(tokens: seq<string>): string
  {
    if |tokens| == 0 then []
    else if |tokens| == 1 then tokens[0]
    else tokens[0] + " " + JoinWithSpaces(tokens[1..])
  }

  lemma {:induction false} DropWhitespaceOfWord(w: string, rest: string)
    requires forall i :: 0 <= i < |w| ==> !IsAsciiWhitespace(w[i])
    ensures DropWhitespace(w + rest) == w + DropWhitespace(rest)
    decreases |w|
  {
    if |w| > 0 {
      assert (w + rest)[1..] == w[1..] + rest;
      DropWhitespaceOfWord(w[1..], rest);
      assert w == [w[0]] + w[1..];
    } else {
      assert w + rest == rest;
    }
  }

  /** Splitting loses exactly the whitespace: the tokens, put back together,
      are the input's non-whitespace characters in their original order. */
  lemma {:induction false} SplitKeepsContent(s: string)
    ensures Concat(SplitAsciiWhitespace(s)) == DropWhitespace(s)
    decreases |s|
  {
    if |s| > 0 {
      if IsAsciiWhitespace(s[0]) {
        SplitKeepsContent(s[1..]);
      } else {
        var n := WordLength(s);
        var tokens := SplitAsciiWhitespace(s);
        assert tokens == [s[..n]] + SplitAsciiWhitespace(s[n..]);
        assert tokens[1..] == SplitAsciiWhitespace(s[n..]);
        SplitKeepsContent(s[n..]);
        assert s == s[..n] + s[n..];
        DropWhitespaceOfWord(s[..n], s[n..]);
      }
    }
  }

  lemma WordLengthOfWord(w: string, rest: string)
    requires IsWord(w)
    requires |rest| == 0 || IsAsciiWhitespace(rest[0])
    ensures WordLength(w + rest) == |w|
  {
    var s := w + rest;
    var n := WordLength(s);
    assert forall i :: 0 <= i < |w| ==> s[i] == w[i];
    assert |rest| > 0 ==> s[|w|] == rest[0];
  }

  /** Splitting a space-joined list of tokens gives the list back. */
  lemma {:induction false} SplitJoinRoundTrip(tokens: seq<string>)
    requires forall k :: 0 <= k < |tokens| ==> IsWord(tokens[k])
    ensures SplitAsciiWhitespace(JoinWithSpaces(tokens)) == tokens
    decreases |tokens|
  {
    if |tokens| == 1 {
      var w := tokens[0];
      WordLengthOfWord(w, []);
      assert w + [] == w;
      assert w[..|w|] == w && w[|w|..] == [];
    } else if |tokens| > 1 {
      var w := tokens[0];
      var rest := JoinWithSpaces(tokens[1..]);
      assert JoinWithSpaces(tokens) == w + " " + rest;
      SplitAfterWord(w, ' ', rest);
      SplitJoinRoundTrip(tokens[1..]);
      assert tokens == [w] + tokens[1..];
    }
  }

  /** Tokens are maximal runs: a word that ends the input or is followed by
      ASCII whitespace splits off whole as the first token. */
  lemma SplitWordThen(w: string, rest: string)
    requires IsWord(w)
    requires |rest| == 0 || IsAsciiWhitespace(rest[0])
    ensures SplitAsciiWhitespace(w + rest) == [w] + SplitAsciiWhitespace(rest)
  {
    var s := w + rest;
    WordLengthOfWord(w, rest);
    assert s[0] == w[0];
    assert s[..|w|] == w;
    assert s[|w|..] == rest;
  }

  /** Leading ASCII whitespace of any kind and length is skipped. */
  lemma {:induction false} LeadingWhitespaceSkipped(ws: string, rest: string)
    requires forall i :: 0 <= i < |ws| ==> IsAsciiWhitespace(ws[i])
    ensures SplitAsciiWhitespace(ws + rest) == SplitAsciiWhitespace(rest)
    decreases |ws|
  {
    if |ws| > 0 {
      assert (ws + rest)[0] == ws[0];
      assert (ws + rest)[1..] == ws[1..] + rest;
      LeadingWhitespaceSkipped(ws[1..], rest);
    } else {
      assert ws + rest == rest;
    }
  }

  /** A word followed by any ASCII whitespace character (a space, a tab, a
      line break, a form feed) splits off as the first token, and the
      separator is dropped. */
  lemma SplitAfterWord(w: string, c: char, rest: string)
    requires IsWord(w) && IsAsciiWhitespace(c)
    ensures SplitAsciiWhitespace(w + [c] + rest) == [w] + SplitAsciiWhitespace(rest)
  {
    assert w + [c] + rest == w + ([c] + rest);
    SplitWordThen(w, [c] + rest);
    LeadingWhitespaceSkipped([c], rest);
  }

  /** Blank input (empty, or only ASCII whitespace) yields no tokens. */
  lemma {:induction false} BlankInputHasNoTokens(s: string)
    requires forall i :: 0 <= i < |s| ==> IsAsciiWhitespace(s[i])
    ensures SplitAsciiWhitespace(s) == []
    decreases |s|
  {
    if |s| > 0 {
      BlankInputHasNoTokens(s[1..]);
    }
  }
}
