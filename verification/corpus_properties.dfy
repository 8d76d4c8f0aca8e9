/**
  What `fill_database` reads from a whole text: the chain holds the first
  `written_words` words of the text, and the count of every transition
  `a -> b` is the number of times `b` directly follows `a` within one line
  among those words. With the comparison of the source, a word limit that
  is first reached at the first word of a line is never noticed; comparing
  after every word stops the build exactly at the limit.
*/
module CorpusProperties {
  import opened Wrappers
  import opened MarkovChain
  import opened Tokenizer
  import opened Builder
  import opened BuildProperties

  /** The words of the text, line after line. */
  function Flatten(lines: seq<string>): seq<string>
  {
    if |lines| == 0 then [] else Tokens(lines[0]) + Flatten(lines[1..])
  }

  /** The number of words in the text. */
  function CorpusSize(lines: seq<string>): nat
  {
    |Flatten(lines)|
  }

  /**
    The number of times `b` directly follows `a` within one line, among
    the first `n` words of the text.
  */
  function PairsUpTo(lines: seq<string>, n: nat, a: string, b: string): nat
  {
    if |lines| == 0 then 0
    else
      var t := Tokens(lines[0]);
      if n <= |t| then PairCount(t[..n], a, b)
      else PairCount(t, a, b) + PairsUpTo(lines[1..], n - |t|, a, b)
  }

  function Min(a: int, b: int): int
  {
    if a < b then a else b
  }

  // ---------------------------------------------------------------------
  // One line

  /** A line with words: its first word is interned and counted, then the loop runs. */
  lemma FillLineUnfold(check: LimitCheck, limit: int, st: FillState, line: string, added: InternedWord)
    requires ChainValid(st.db)
    requires |Tokens(line)| > 0
    requires InternWord(st.db, st.mem, Tokens(line)[0]) == Some(added)
    ensures NonEmptyWords(Tokens(line)[1..])
    ensures added.node < |added.db| && added.db[added.node].word == Tokens(line)[0]
    ensures ChainValid(added.db)
    ensures FillDatabaseOneLine(check, limit, st, line)
            == FillRest(limit, CountWord(limit, check == AfterEveryWord, st, added.db, added.mem), added.node, Tokens(line)[1..])
  {
  }

  /**
    `fill_database_one_line` takes the first `c` words of the line, one
    at least when it has any, and counts each; it takes all of them unless
    it lowers the flag, which it does only at a limit other than
    `READ_ALL_WORDS`, and, as the source compares, never at the first word.
  */
  lemma FillLineAccounting(check: LimitCheck, limit: int, st: FillState, line: string)
    requires ChainValid(st.db)
    requires FillDatabaseOneLine(check, limit, st, line).Filled?
    ensures var r := FillDatabaseOneLine(check, limit, st, line).state;
            var c := r.written - st.written;
            && 0 <= c <= |Tokens(line)|
            && (|Tokens(line)| == 0 ==> r == st)
            && (|Tokens(line)| > 0 ==> c >= 1)
            && (r.flag ==> c == |Tokens(line)|)
            && (limit == ReadAllWords ==> r.flag == st.flag)
            && (st.flag && !r.flag ==> limit != ReadAllWords && r.written == limit)
            && (check == AfterSuccessor && st.flag && !r.flag ==> c >= 2)
  {
    var toks := Tokens(line);
    if |toks| > 0 {
      var added := InternWord(st.db, st.mem, toks[0]).value;
      FillLineUnfold(check, limit, st, line, added);
      var s1 := CountWord(limit, check == AfterEveryWord, st, added.db, added.mem);
      FillRestAccounting(limit, s1, added.node, toks[1..]);
    }
  }

  /** With unlimited memory a line never fails, and memory stays unlimited. */
  lemma FillLineUnlimited(check: LimitCheck, limit: int, st: FillState, line: string)
    requires ChainValid(st.db)
    requires st.mem.Unlimited?
    ensures FillDatabaseOneLine(check, limit, st, line).Filled?
    ensures FillDatabaseOneLine(check, limit, st, line).state.mem.Unlimited?
  {
    var toks := Tokens(line);
    if |toks| > 0 {
      var added := InternWord(st.db, st.mem, toks[0]).value;
      FillLineUnfold(check, limit, st, line, added);
      var s1 := CountWord(limit, check == AfterEveryWord, st, added.db, added.mem);
      FillRestUnlimited(limit, s1, added.node, toks[1..]);
    }
  }

  /**
    From `st` to `r` the chain gains, for the transition `a -> b`, the
    adjacent pairs among the first `c` words of `toks`, with `c` the words
    counted in between.
  */
  predicate LineEdgesGrow(st: FillState, r: FillState, toks: seq<string>, a: string, b: string)
  {
    var c := r.written - st.written;
    && 0 <= c <= |toks|
    && EdgeCount(r.db, a, b) == EdgeCount(st.db, a, b) + PairCount(toks[..c], a, b)
  }

  /** The first word of a line, interned without a transition, then the loop over the rest. */
  lemma LineEdgesStep(st: FillState, s1: FillState, r: FillState, toks: seq<string>, p: string, a: string, b: string)
    requires 0 < |toks| && p == toks[0]
    requires s1.written == st.written + 1
    requires EdgeCount(s1.db, a, b) == EdgeCount(st.db, a, b)
    requires RestEdgesGrow(s1, r, p, toks[1..], a, b)
    ensures LineEdgesGrow(st, r, toks, a, b)
  {
    TakeCons(toks, r.written - st.written);
  }

  /** A line adds the consecutive pairs among the `c` words it takes. */
  lemma FillLineEdges(check: LimitCheck, limit: int, st: FillState, line: string, a: string, b: string)
    requires ChainValid(st.db)
    requires FillDatabaseOneLine(check, limit, st, line).Filled?
    ensures LineEdgesGrow(st, FillDatabaseOneLine(check, limit, st, line).state, Tokens(line), a, b)
  {
    var toks := Tokens(line);
    if |toks| == 0 {
      assert toks[..0] == [];
    } else {
      var added := InternWord(st.db, st.mem, toks[0]).value;
      FillLineUnfold(check, limit, st, line, added);
      var s1 := CountWord(limit, check == AfterEveryWord, st, added.db, added.mem);
      InternWordEdges(st.db, st.mem, toks[0], a, b);
      FillRestEdges(limit, s1, added.node, toks[1..], a, b);
      var r := FillRest(limit, s1, added.node, toks[1..]).state;
      LineEdgesStep(st, s1, r, toks, s1.db[added.node].word, a, b);
    }
  }

  /** A line adds exactly the `c` words it takes to the chain's words. */
  lemma FillLineWords(check: LimitCheck, limit: int, st: FillState, line: string, x: string)
    requires ChainValid(st.db)
    requires FillDatabaseOneLine(check, limit, st, line).Filled?
    ensures WordsGrow(st, FillDatabaseOneLine(check, limit, st, line).state, Tokens(line), x)
  {
    var toks := Tokens(line);
    if |toks| == 0 {
      assert toks[..0] == [];
    } else {
      var added := InternWord(st.db, st.mem, toks[0]).value;
      FillLineUnfold(check, limit, st, line, added);
      var s1 := CountWord(limit, check == AfterEveryWord, st, added.db, added.mem);
      InternWordWords(st.db, st.mem, toks[0], x);
      FillRestWords(limit, s1, added.node, toks[1..], x);
      WordsStep(st, s1, FillRest(limit, s1, added.node, toks[1..]).state, toks, x);
    }
  }

  /**
    Comparing after every word, a line started below a limit other than
    `READ_ALL_WORDS` stops exactly at the limit.
  */
  lemma FillLineCapped(limit: int, st: FillState, line: string)
    requires ChainValid(st.db)
    requires FillDatabaseOneLine(AfterEveryWord, limit, st, line).Filled?
    requires st.flag && limit != ReadAllWords && st.written < limit
    ensures var r := FillDatabaseOneLine(AfterEveryWord, limit, st, line).state;
            && (st.written + |Tokens(line)| < limit ==> r.flag && r.written == st.written + |Tokens(line)|)
            && (st.written + |Tokens(line)| >= limit ==> !r.flag && r.written == limit)
  {
    var toks := Tokens(line);
    if |toks| > 0 {
      var added := InternWord(st.db, st.mem, toks[0]).value;
      FillLineUnfold(AfterEveryWord, limit, st, line, added);
      var s1 := CountWord(limit, true, st, added.db, added.mem);
      if s1.flag {
        FillRestCapped(limit, s1, added.node, toks[1..]);
      }
    }
  }

  // ---------------------------------------------------------------------
  // The line loop

  /** A prefix of a concatenation lies in the first part or covers it. */
  lemma PrefixOfConcat(t: seq<string>, f: seq<string>, n: nat)
    requires n <= |t| + |f|
    ensures n <= |t| ==> (t + f)[..n] == t[..n]
    ensures |t| <= n ==> (t + f)[..n] == t + f[..n - |t|]
  {
  }

  /** No words, no pairs. */
  lemma PairsUpToZero(lines: seq<string>, a: string, b: string)
    ensures PairsUpTo(lines, 0, a, b) == 0
  {
    if |lines| > 0 {
      assert Tokens(lines[0])[..0] == [];
    }
  }

  /** A line handled with the flag up: the loop goes on from the state it leaves. */
  lemma FillDatabaseUnfold(check: LimitCheck, limit: int, st: FillState, lines: seq<string>, r1: FillState)
    requires ChainValid(st.db)
    requires |lines| > 0 && st.flag
    requires FillDatabaseOneLine(check, limit, st, lines[0]) == Filled(r1)
    ensures ChainValid(r1.db)
    ensures FillDatabase(check, limit, st, lines) == FillDatabase(check, limit, r1, lines[1..])
    ensures Flatten(lines) == Tokens(lines[0]) + Flatten(lines[1..])
  {
  }

  /** Once the flag is down the loop reads nothing more. */
  lemma FillDatabaseStopped(check: LimitCheck, limit: int, st: FillState, lines: seq<string>)
    requires ChainValid(st.db)
    requires !st.flag
    ensures FillDatabase(check, limit, st, lines) == Filled(st)
  {
  }

  /** A line that leaves the flag up has taken all of its words. */
  lemma FillLineTakesAll(check: LimitCheck, limit: int, st: FillState, line: string)
    requires ChainValid(st.db)
    requires FillDatabaseOneLine(check, limit, st, line).Filled?
    ensures var r := FillDatabaseOneLine(check, limit, st, line).state;
            r.flag ==> r.written - st.written == |Tokens(line)|
  {
    FillLineAccounting(check, limit, st, line);
  }

  /** The first line, all of its words taken, followed by the words taken from the lines after it. */
  lemma WordsAfterLine(st: FillState, r1: FillState, r: FillState, lines: seq<string>, x: string)
    requires |lines| > 0
    requires WordsGrow(st, r1, Tokens(lines[0]), x)
    requires r1.written - st.written == |Tokens(lines[0])|
    requires WordsGrow(r1, r, Flatten(lines[1..]), x)
    ensures WordsGrow(st, r, Flatten(lines), x)
  {
    var toks := Tokens(lines[0]);
    var n := r.written - st.written;
    assert Flatten(lines) == toks + Flatten(lines[1..]);
    PrefixOfConcat(toks, Flatten(lines[1..]), n);
    assert Flatten(lines)[..n] == toks + Flatten(lines[1..])[..n - |toks|];
  }

  /** The words of the last line read, which took its first `c` words. */
  lemma WordsInLastLine(st: FillState, r1: FillState, lines: seq<string>, x: string)
    requires |lines| > 0
    requires WordsGrow(st, r1, Tokens(lines[0]), x)
    ensures WordsGrow(st, r1, Flatten(lines), x)
  {
    var toks := Tokens(lines[0]);
    var c := r1.written - st.written;
    var f := Flatten(lines);
    assert f == toks + Flatten(lines[1..]);
    assert c <= |toks|;
    assert f[..c] == toks[..c];
  }

  /**
    After `fill_database`, with `n` the words it counted, the chain gains
    exactly the first `n` words of the text.
  */
  lemma {:induction false} FillDatabaseWords(check: LimitCheck, limit: int, st: FillState, lines: seq<string>, x: string)
    requires ChainValid(st.db)
    requires FillDatabase(check, limit, st, lines).Filled?
    ensures WordsGrow(st, FillDatabase(check, limit, st, lines).state, Flatten(lines), x)
    decreases |lines|
  {
    if |lines| == 0 || !st.flag {
      assert Flatten(lines)[..0] == [];
    } else {
      var r1 := FillDatabaseOneLine(check, limit, st, lines[0]).state;
      FillDatabaseUnfold(check, limit, st, lines, r1);
      FillLineWords(check, limit, st, lines[0], x);
      if r1.flag {
        FillLineTakesAll(check, limit, st, lines[0]);
        FillDatabaseWords(check, limit, r1, lines[1..], x);
        WordsAfterLine(st, r1, FillDatabase(check, limit, r1, lines[1..]).state, lines, x);
      } else {
        FillDatabaseStopped(check, limit, r1, lines[1..]);
        WordsInLastLine(st, r1, lines, x);
      }
    }
  }

  /**
    From `st` to `r` the chain gains, for the transition `a -> b`, the
    pairs among the first `n` words of the text, with `n` the words
    counted in between.
  */
  predicate EdgesGrow(st: FillState, r: FillState, lines: seq<string>, a: string, b: string)
  {
    var n := r.written - st.written;
    && 0 <= n <= CorpusSize(lines)
    && EdgeCount(r.db, a, b) == EdgeCount(st.db, a, b) + PairsUpTo(lines, n, a, b)
  }

  /** The first line's pairs, all of its words taken, followed by the pairs counted in the lines after it. */
  lemma EdgesAfterLine(st: FillState, r1: FillState, r: FillState, lines: seq<string>, a: string, b: string)
    requires |lines| > 0
    requires LineEdgesGrow(st, r1, Tokens(lines[0]), a, b)
    requires r1.written - st.written == |Tokens(lines[0])|
    requires EdgesGrow(r1, r, lines[1..], a, b)
    ensures EdgesGrow(st, r, lines, a, b)
  {
    var toks := Tokens(lines[0]);
    assert toks[..|toks|] == toks;
    assert Flatten(lines) == toks + Flatten(lines[1..]);
    if r.written == r1.written {
      PairsUpToZero(lines[1..], a, b);
    }
  }

  /** The pairs of the last line read, which took its first `c` words. */
  lemma EdgesInLastLine(st: FillState, r1: FillState, lines: seq<string>, a: string, b: string)
    requires |lines| > 0
    requires LineEdgesGrow(st, r1, Tokens(lines[0]), a, b)
    ensures EdgesGrow(st, r1, lines, a, b)
  {
    assert Flatten(lines) == Tokens(lines[0]) + Flatten(lines[1..]);
  }

  /**
    After `fill_database`, with `n` the words it counted, the count of
    every transition `a -> b` grows by its occurrences within one line
    among the first `n` words of the text.
  */
  lemma {:induction false} FillDatabaseEdges(check: LimitCheck, limit: int, st: FillState, lines: seq<string>, a: string, b: string)
    requires ChainValid(st.db)
    requires FillDatabase(check, limit, st, lines).Filled?
    ensures EdgesGrow(st, FillDatabase(check, limit, st, lines).state, lines, a, b)
    decreases |lines|
  {
    if |lines| == 0 || !st.flag {
      PairsUpToZero(lines, a, b);
    } else {
      var r1 := FillDatabaseOneLine(check, limit, st, lines[0]).state;
      FillDatabaseUnfold(check, limit, st, lines, r1);
      FillLineEdges(check, limit, st, lines[0], a, b);
      if r1.flag {
        FillLineTakesAll(check, limit, st, lines[0]);
        FillDatabaseEdges(check, limit, r1, lines[1..], a, b);
        EdgesAfterLine(st, r1, FillDatabase(check, limit, r1, lines[1..]).state, lines, a, b);
      } else {
        FillDatabaseStopped(check, limit, r1, lines[1..]);
        EdgesInLastLine(st, r1, lines, a, b);
      }
    }
  }

  /** The largest limit that a build which has counted `written` words can no longer reach. */
  function Unreachable(check: LimitCheck, written: int): int
  {
    if check == AfterSuccessor then written + 1 else written
  }

  /**
    With unlimited memory, a limit of `READ_ALL_WORDS`, or one the count
    can no longer meet, is never noticed: the whole text is read and
    counted. Comparing as the source does, a limit one above the words
    already counted is among these, since the next word counted is the
    first of a line.
  */
  lemma {:induction false} FillDatabaseReadsAll(check: LimitCheck, limit: int, st: FillState, lines: seq<string>)
    requires ChainValid(st.db)
    requires st.flag && st.mem.Unlimited?
    requires limit == ReadAllWords || limit <= Unreachable(check, st.written)
    ensures FillDatabase(check, limit, st, lines).Filled?
    ensures var r := FillDatabase(check, limit, st, lines).state;
            r.flag && r.written == st.written + CorpusSize(lines)
    decreases |lines|
  {
    if |lines| > 0 {
      FillLineUnlimited(check, limit, st, lines[0]);
      var r1 := FillDatabaseOneLine(check, limit, st, lines[0]).state;
      FillDatabaseUnfold(check, limit, st, lines, r1);
      FillLineAccounting(check, limit, st, lines[0]);
      FillDatabaseReadsAll(check, limit, r1, lines[1..]);
    }
  }

  /**
    Comparing after every word, with unlimited memory and a limit other
    than `READ_ALL_WORDS` above the words already counted, the build reads
    up to the limit and no further.
  */
  lemma {:induction false} FillDatabaseCapped(limit: int, st: FillState, lines: seq<string>)
    requires ChainValid(st.db)
    requires st.flag && st.mem.Unlimited?
    requires limit != ReadAllWords && st.written < limit
    ensures FillDatabase(AfterEveryWord, limit, st, lines).Filled?
    ensures var r := FillDatabase(AfterEveryWord, limit, st, lines).state;
            && r.written == Min(limit, st.written + CorpusSize(lines))
            && (r.flag <==> st.written + CorpusSize(lines) < limit)
    decreases |lines|
  {
    if |lines| > 0 {
      FillLineUnlimited(AfterEveryWord, limit, st, lines[0]);
      var r1 := FillDatabaseOneLine(AfterEveryWord, limit, st, lines[0]).state;
      FillDatabaseUnfold(AfterEveryWord, limit, st, lines, r1);
      FillLineCapped(limit, st, lines[0]);
      if r1.flag {
        FillDatabaseCapped(limit, r1, lines[1..]);
      } else {
        FillDatabaseStopped(AfterEveryWord, limit, r1, lines[1..]);
      }
    }
  }

  // ---------------------------------------------------------------------
  // Building from an empty chain

  /** From a fresh chain, the words stored are exactly those of the corpus taken so far. */
  lemma FilledWords(check: LimitCheck, limit: int, mem: Memory, lines: seq<string>, x: string)
    requires FillDatabase(check, limit, InitialState(mem), lines).Filled?
    ensures var r := FillDatabase(check, limit, InitialState(mem), lines).state;
            && 0 <= r.written <= |Flatten(lines)|
            && (Stored(r.db, x) <==> x in Flatten(lines)[..r.written])
  {
    FillDatabaseWords(check, limit, InitialState(mem), lines, x);
  }

  /** From a fresh chain, every transition is counted as often as it occurs in the corpus taken so far. */
  lemma FilledEdges(check: LimitCheck, limit: int, mem: Memory, lines: seq<string>, a: string, b: string)
    requires FillDatabase(check, limit, InitialState(mem), lines).Filled?
    ensures var r := FillDatabase(check, limit, InitialState(mem), lines).state;
            && 0 <= r.written <= CorpusSize(lines)
            && EdgeCount(r.db, a, b) == PairsUpTo(lines, r.written, a, b)
  {
    var st := InitialState(mem);
    assert EdgeCount(st.db, a, b) == 0;
    FillDatabaseEdges(check, limit, st, lines, a, b);
  }

  /**
    Whatever the limit and the allocator, a build that succeeds holds the
    first `written_words` words of the text and nothing else, and the
    count of every transition `a -> b` is the number of times `b` directly
    follows `a` within a line among those words.
  */
  lemma BuildChainContents(lines: seq<string>, limit: int, mem: Memory, x: string, a: string, b: string)
    requires BuildChain(lines, limit, mem).Filled?
    ensures var r := BuildChain(lines, limit, mem).state;
            && 0 <= r.written <= CorpusSize(lines)
            && (Stored(r.db, x) <==> x in Flatten(lines)[..r.written])
            && EdgeCount(r.db, a, b) == PairsUpTo(lines, r.written, a, b)
  {
    FilledWords(AfterSuccessor, limit, mem, lines, x);
    FilledEdges(AfterSuccessor, limit, mem, lines, a, b);
  }

  /** The same holds when the limit is compared after every word. */
  lemma BuildChainCappedContents(lines: seq<string>, limit: int, mem: Memory, x: string, a: string, b: string)
    requires BuildChainCapped(lines, limit, mem).Filled?
    ensures var r := BuildChainCapped(lines, limit, mem).state;
            && 0 <= r.written <= CorpusSize(lines)
            && (Stored(r.db, x) <==> x in Flatten(lines)[..r.written])
            && EdgeCount(r.db, a, b) == PairsUpTo(lines, r.written, a, b)
  {
    FilledWords(AfterEveryWord, limit, mem, lines, x);
    FilledEdges(AfterEveryWord, limit, mem, lines, a, b);
  }

  /**
    As the source compares, with unlimited memory a word limit of one or
    less, `READ_ALL_WORDS` among them, reads the whole text: the first
    word is never compared, and later counts only grow past the limit.
  */
  lemma BuildChainReadsAll(lines: seq<string>, limit: int)
    requires limit <= 1
    ensures BuildChain(lines, limit, Unlimited).Filled?
    ensures BuildChain(lines, limit, Unlimited).state.written == CorpusSize(lines)
  {
    FillDatabaseReadsAll(AfterSuccessor, limit, InitialState(Unlimited), lines);
  }

  /**
    Comparing after every word, with unlimited memory, a positive limit
    stops the build after exactly that many words, or at the end of a
    shorter text; a limit of zero or less reads the whole text.
  */
  lemma BuildChainCappedReads(lines: seq<string>, limit: int)
    ensures BuildChainCapped(lines, limit, Unlimited).Filled?
    ensures BuildChainCapped(lines, limit, Unlimited).state.written
            == if limit >= 1 then Min(limit, CorpusSize(lines)) else CorpusSize(lines)
  {
    if limit >= 1 {
      FillDatabaseCapped(limit, InitialState(Unlimited), lines);
    } else {
      FillDatabaseReadsAll(AfterEveryWord, limit, InitialState(Unlimited), lines);
    }
  }

  /**
    On an empty chain whose first allocation fails, the build fails
    exactly when the text holds a word: the first word read needs a new
    node, and lines without words change nothing.
  */
  lemma {:induction false} FillDatabaseWithoutMemory(check: LimitCheck, limit: int, st: FillState, lines: seq<string>)
    requires st.db == [] && st.mem == FailsAfter(0) && st.flag
    ensures FillDatabase(check, limit, st, lines).AllocationError? <==> CorpusSize(lines) > 0
    decreases |lines|
  {
    if |lines| > 0 {
      var toks := Tokens(lines[0]);
      assert Flatten(lines) == toks + Flatten(lines[1..]);
      if |toks| == 0 {
        assert FillDatabaseOneLine(check, limit, st, lines[0]) == Filled(st);
        FillDatabaseWithoutMemory(check, limit, st, lines[1..]);
      } else {
        assert InternWord(st.db, st.mem, toks[0]).None?;
      }
    }
  }

  /** `fill_database` returns 1 on a text with a word when no allocation succeeds, and 0 on a text without one. */
  lemma BuildChainWithoutMemory(lines: seq<string>, limit: int)
    ensures BuildChain(lines, limit, FailsAfter(0)).AllocationError? <==> CorpusSize(lines) > 0
  {
    FillDatabaseWithoutMemory(AfterSuccessor, limit, InitialState(FailsAfter(0)), lines);
  }

  /** The words of a line of two words separated by one space. */
  lemma TokensOfPair(u: string, v: string)
    requires IsWord(u) && IsWord(v)
    ensures Tokens(u + " " + v) == [u, v]
  {
    TokensSplit(u, ' ', v);
    TokensOfWord(u);
    TokensOfWord(v);
  }

  /** The two lines "a b" and "c d" hold four words. */
  lemma TwoLinesOfTwo()
    ensures Tokens("a b") == ["a", "b"] && Tokens("c d") == ["c", "d"]
    ensures CorpusSize(["a b", "c d"]) == 4
  {
    assert IsWord("a") && IsWord("b") && IsWord("c") && IsWord("d");
    TokensOfPair("a", "b");
    TokensOfPair("c", "d");
    assert "a" + " " + "b" == "a b";
    assert "c" + " " + "d" == "c d";
    var lines := ["a b", "c d"];
    assert Flatten(lines[1..][1..]) == [];
  }

  /**
    As the source compares, a limit of three on the lines "a b" and "c d"
    is reached at "c", the first word of the second line, where it is not
    compared; the build reads all four words.
  */
  lemma BuildChainOverrunsLimit()
    ensures BuildChain(["a b", "c d"], 3, Unlimited).Filled?
    ensures BuildChain(["a b", "c d"], 3, Unlimited).state.written == 4
  {
    var lines := ["a b", "c d"];
    var st := InitialState(Unlimited);
    TwoLinesOfTwo();
    FillLineUnlimited(AfterSuccessor, 3, st, lines[0]);
    FillLineAccounting(AfterSuccessor, 3, st, lines[0]);
    var r1 := FillDatabaseOneLine(AfterSuccessor, 3, st, lines[0]).state;
    assert r1.flag && r1.written == 2;
    FillDatabaseUnfold(AfterSuccessor, 3, st, lines, r1);
    FillDatabaseReadsAll(AfterSuccessor, 3, r1, lines[1..]);
    assert Flatten(lines) == Tokens(lines[0]) + Flatten(lines[1..]);
  }

  /** Comparing after every word, the same limit stops the build after "c". */
  lemma BuildChainCappedStopsAtLimit()
    ensures BuildChainCapped(["a b", "c d"], 3, Unlimited).Filled?
    ensures BuildChainCapped(["a b", "c d"], 3, Unlimited).state.written == 3
  {
    TwoLinesOfTwo();
    BuildChainCappedReads(["a b", "c d"], 3);
  }
}
