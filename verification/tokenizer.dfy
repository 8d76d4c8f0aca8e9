/**
  Splitting a line into words the way `strtok(line, DELIMITERS)` does in
  `fill_database_one_line` (tweets_generator_ex3a.c): the words are the
  maximal non-empty runs of characters outside `" \n\t\r"`, left to right.
*/
module Tokenizer {

  /** `DELIMITERS`: space, newline, tab and carriage return. */
  predicate IsDelimiter(c: char)
  {
    c == ' ' || c == '\n' || c == '\t' || c == '\r'
  }

  /** What `strtok` yields: a non-empty run without delimiters. */
  predicate IsWord(w: string)
  {
    |w| > 0 && forall i :: 0 <= i < |w| ==> !IsDelimiter(w[i])
  }

  /** The length of the run of non-delimiters that `s` starts with. */
  function RunLength(s: string): (n: nat)
    ensures n <= |s|
    ensures forall i :: 0 <= i < n ==> !IsDelimiter(s[i])
    ensures n < |s| ==> IsDelimiter(s[n])
  {
    if |s| == 0 || IsDelimiter(s[0]) then 0 else 1 + RunLength(s[1..])
  }

  /** The successive results of `strtok` on `s`. */
  function Tokens(s: string): (r: seq<string>)
    ensures forall k :: 0 <= k < |r| ==> IsWord(r[k])
    decreases |s|
  {
    if |s| == 0 then []
    else if IsDelimiter(s[0]) then Tokens(s[1..])
    else
      var n := RunLength(s);
      [s[..n]] + Tokens(s[n..])
  }

  /** A line yields no word exactly when it holds delimiters only. */
  lemma {:induction false} NoTokensIffOnlyDelimiters(s: string)
    ensures Tokens(s) == [] <==> forall i :: 0 <= i < |s| ==> IsDelimiter(s[i])
    decreases |s|
  {
    if |s| > 0 {
      NoTokensIffOnlyDelimiters(s[1..]);
      if IsDelimiter(s[0]) {
        assert forall i :: 0 < i < |s| ==> s[i] == s[1..][i - 1];
      }
    }
  }

  /** A single word with nothing around it is one token. */
  lemma TokensOfWord(w: string)
    requires IsWord(w)
    ensures Tokens(w) == [w]
  {
    RunLengthOfWord(w);
    assert w[..|w|] == w;
    assert w[|w|..] == [];
  }

  /** The run of a word with no delimiter is the whole word. */
  lemma {:induction false} RunLengthOfWord(w: string)
    requires forall i :: 0 <= i < |w| ==> !IsDelimiter(w[i])
    ensures RunLength(w) == |w|
    decreases |w|
  {
    if |w| > 0 {
      RunLengthOfWord(w[1..]);
    }
  }

  /** A run that starts before a delimiter ends before it. */
  lemma {:induction false} RunLengthBeforeDelimiter(a: string, d: char, b: string)
    requires IsDelimiter(d)
    ensures RunLength(a + [d] + b) == RunLength(a)
    decreases |a|
  {
    if |a| > 0 && !IsDelimiter(a[0]) {
      assert (a + [d] + b)[1..] == a[1..] + [d] + b;
      RunLengthBeforeDelimiter(a[1..], d, b);
    }
  }

  /**
    A delimiter separates: the words of `a`, a delimiter, then `b` are the
    words of `a` followed by the words of `b`, so no word spans a delimiter.
  */
  lemma {:induction false} TokensSplit(a: string, d: char, b: string)
    requires IsDelimiter(d)
    ensures Tokens(a + [d] + b) == Tokens(a) + Tokens(b)
    decreases |a|
  {
    var s := a + [d] + b;
    if |a| == 0 {
      assert s[1..] == b;
    } else if IsDelimiter(a[0]) {
      assert s[1..] == a[1..] + [d] + b;
      TokensSplit(a[1..], d, b);
    } else {
      RunLengthBeforeDelimiter(a, d, b);
      var n := RunLength(a);
      assert s[..n] == a[..n];
      assert s[n..] == a[n..] + [d] + b;
      TokensSplit(a[n..], d, b);
    }
  }
}
